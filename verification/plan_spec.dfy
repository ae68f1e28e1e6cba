/**
 * What one plan step does, on values. A plan tops its construction queue up to
 * capacity with facilities its policy selects (when it is available), marks
 * itself busy once the queue is full, then advances every queued facility by one
 * tick and moves those that became operational to the completed list, adding
 * their scores to the plan's totals. The class `Plan` is proved against these
 * functions; the properties of the step are proved here.
 */
module PlanSpec {
  import opened Results
  import opened Facilities
  import opened SelectionPolicies

  datatype PlanStatus = Available | Busy

  /** Everything observable about a plan apart from its fixed identity, settlement and catalog. */
  datatype PlanView = PlanView(
    status: PlanStatus,
    completed: seq<FacilityValue>,
    queued: seq<FacilityValue>,
    scores: Scores,
    policy: PolicyState)

  // ---------------------------------------------------------------------------
  // Scores of completed facilities
  // ---------------------------------------------------------------------------

  /** The sum of the facilities' scores. */
  function TotalScores(fs: seq<FacilityValue>): Scores
  {
    if fs == [] then NoScores else Add(TotalScores(fs[..|fs| - 1]), fs[|fs| - 1].ftype.ScoresOf())
  }

  /** `scores` with the scores of `fs` added one after another, in order. */
  function AddAll(scores: Scores, fs: seq<FacilityValue>): Scores
  {
    if fs == [] then scores else Add(AddAll(scores, fs[..|fs| - 1]), fs[|fs| - 1].ftype.ScoresOf())
  }

  /** Adding the scores of one more facility adds them to the running totals. */
  lemma AddAllSnoc(scores: Scores, fs: seq<FacilityValue>, f: FacilityValue)
    ensures AddAll(scores, fs + [f]) == Add(AddAll(scores, fs), f.ftype.ScoresOf())
  {
    assert (fs + [f])[..|fs|] == fs;
  }

  /** Adding the scores of newly completed facilities to the totals of the old ones gives the totals of all of them. */
  lemma {:induction false} AddAllTotals(a: seq<FacilityValue>, b: seq<FacilityValue>)
    ensures AddAll(TotalScores(a), b) == TotalScores(a + b)
    decreases |b|
  {
    if b == [] {
      AppendEmpty(a);
    } else {
      var init := b[..|b| - 1];
      AddAllTotals(a, init);
      assert (a + b)[..|a + b| - 1] == a + init;
      assert (a + b)[|a + b| - 1] == b[|b| - 1];
    }
  }

  // ---------------------------------------------------------------------------
  // The facility lists
  // ---------------------------------------------------------------------------

  /**
   * A queued facility: under construction, its counter at most its price, and
   * (for a type whose price is not positive, which never completes) stuck at the price.
   */
  predicate InProgress(f: FacilityValue)
  {
    f.status == UnderConstruction && f.timeLeft <= f.ftype.price && (f.timeLeft <= 0 ==> f.timeLeft == f.ftype.price)
  }

  /** A completed facility: operational with its counter at 0. */
  predicate Done(f: FacilityValue)
  {
    f.status == Operational && ValidFacility(f)
  }

  /** One tick moves a queued facility either to completion or to a later queued state. */
  lemma TickQueued(f: FacilityValue)
    requires InProgress(f)
    ensures Tick(f).status == Operational ==> Done(Tick(f)) && f.timeLeft == 1
    ensures Tick(f).status != Operational ==> InProgress(Tick(f))
    ensures Tick(f).ftype == f.ftype && Tick(f).settlementName == f.settlementName
  {
  }

  /** Every facility ticked once. */
  function TickAll(fs: seq<FacilityValue>): (r: seq<FacilityValue>)
    ensures |r| == |fs| && forall k :: 0 <= k < |fs| ==> r[k] == Tick(fs[k])
  {
    seq(|fs|, k requires 0 <= k < |fs| => Tick(fs[k]))
  }

  /** Ticking one more queued facility extends the ticked list, and its finished or its pending part, by it. */
  lemma TickedSnoc(seen: seq<FacilityValue>, x: FacilityValue)
    ensures TickAll(seen + [x]) == TickAll(seen) + [Tick(x)]
    ensures Finished(TickAll(seen + [x])) == if Tick(x).status == Operational then Finished(TickAll(seen)) + [Tick(x)] else Finished(TickAll(seen))
    ensures Pending(TickAll(seen + [x])) == if Tick(x).status == Operational then Pending(TickAll(seen)) else Pending(TickAll(seen)) + [Tick(x)]
  {
    var t := TickAll(seen) + [Tick(x)];
    assert TickAll(seen + [x]) == t;
    assert t[..|t| - 1] == TickAll(seen);
  }

  /** The operational entries, in order. */
  function Finished(fs: seq<FacilityValue>): seq<FacilityValue>
  {
    if fs == [] then []
    else
      var last := fs[|fs| - 1];
      if last.status == Operational then Finished(fs[..|fs| - 1]) + [last] else Finished(fs[..|fs| - 1])
  }

  /** The entries that are not operational, in order. */
  function Pending(fs: seq<FacilityValue>): seq<FacilityValue>
  {
    if fs == [] then []
    else
      var last := fs[|fs| - 1];
      if last.status == Operational then Pending(fs[..|fs| - 1]) else Pending(fs[..|fs| - 1]) + [last]
  }

  /** The entries of `Finished` are operational and those of `Pending` are not, and both are taken from the list. */
  lemma {:induction false} FinishedPendingMembers(fs: seq<FacilityValue>)
    ensures forall k :: 0 <= k < |Finished(fs)| ==> Finished(fs)[k].status == Operational && Finished(fs)[k] in fs
    ensures forall k :: 0 <= k < |Pending(fs)| ==> Pending(fs)[k].status != Operational && Pending(fs)[k] in fs
    decreases |fs|
  {
    if fs != [] {
      var init := fs[..|fs| - 1];
      FinishedPendingMembers(init);
      assert forall g :: g in init ==> g in fs;
    }
  }

  /** `Finished` and `Pending` split a list: every entry lands in exactly one of them. */
  lemma {:induction false} FinishedPendingPartition(fs: seq<FacilityValue>)
    ensures multiset(Finished(fs)) + multiset(Pending(fs)) == multiset(fs)
    ensures |Finished(fs)| + |Pending(fs)| == |fs|
    decreases |fs|
  {
    if fs != [] {
      var init, last := fs[..|fs| - 1], fs[|fs| - 1];
      FinishedPendingPartition(init);
      assert fs == init + [last];
      var a := if last.status == Operational then [last] else [];
      var b := if last.status == Operational then [] else [last];
      assert Finished(fs) == Finished(init) + a;
      assert Pending(fs) == Pending(init) + b;
      assert multiset(a) + multiset(b) == multiset{last};
    }
  }

  /** Facilities started for the settlement `name` from the picked catalog entries, in order. */
  function Started(catalog: seq<FacilityType>, picks: seq<nat>, name: string): (r: seq<FacilityValue>)
    requires forall k :: 0 <= k < |picks| ==> picks[k] < |catalog|
    ensures |r| == |picks|
    ensures forall k :: 0 <= k < |picks| ==> r[k] == Initial(catalog[picks[k]], name)
  {
    seq(|picks|, k requires 0 <= k < |picks| => Initial(catalog[picks[k]], name))
  }

  // ---------------------------------------------------------------------------
  // One step
  // ---------------------------------------------------------------------------

  /** How many selections the top-up makes: enough to fill the queue to capacity. */
  function Wanted(v: PlanView, cap: nat): (n: nat)
    ensures |v.queued| + n == Max(cap, |v.queued|)
  {
    if |v.queued| < cap then cap - |v.queued| else 0
  }

  /**
   * Fill the queue to capacity, one policy selection at a time, each starting a
   * facility for the settlement `name`. When the policy has nothing to select the
   * plan is left as it was and the selection's error is returned.
   */
  function TopUp(v: PlanView, catalog: seq<FacilityType>, cap: nat, name: string): (r: Result<PlanView, SelectError>)
    ensures r.Failure? <==> Wanted(v, cap) > 0 && !HasEligible(v.policy, catalog)
  {
    var n := Wanted(v, cap);
    if n > 0 && !HasEligible(v.policy, catalog) then Failure(Pick(v.policy, catalog).error)
    else
      var picks := Picks(v.policy, catalog, n);
      assert forall k :: 0 <= k < |picks| ==> picks[k] < |catalog| by {
        if n > 0 {
          PicksValid(v.policy, catalog, n);
        }
      }
      Success(v.(queued := v.queued + Started(catalog, picks, name), policy := AfterPicks(v.policy, catalog, n)))
  }

  /**
   * `n` rounds of the top-up loop: each selects once and queues a new facility
   * of the selected type for the settlement `name`; the rounds stop at the first
   * selection that fails.
   */
  function Rounds(v: PlanView, catalog: seq<FacilityType>, name: string, n: nat): (r: PlanView)
    ensures r.(queued := v.queued, policy := v.policy) == v
    ensures |v.queued| <= |r.queued| <= |v.queued| + n
    ensures HasEligible(v.policy, catalog) ==> |r.queued| == |v.queued| + n
    ensures !HasEligible(v.policy, catalog) ==> r == v
    decreases n
  {
    if n == 0 then v
    else match Pick(v.policy, catalog)
      case Failure(_) => v
      case Success(i) =>
        Rounds(v.(queued := v.queued + [Initial(catalog[i], name)], policy := AfterPick(v.policy, catalog, i)), catalog, name, n - 1)
  }

  /** A round that selects `i` leaves the rounds still wanted to fill the queue unchanged in effect. */
  lemma RoundsStep(v: PlanView, catalog: seq<FacilityType>, cap: nat, name: string, i: nat)
    requires Wanted(v, cap) > 0 && Pick(v.policy, catalog) == Success(i)
    ensures var w := v.(queued := v.queued + [Initial(catalog[i], name)], policy := AfterPick(v.policy, catalog, i));
      Rounds(w, catalog, name, Wanted(w, cap)) == Rounds(v, catalog, name, Wanted(v, cap))
  {
  }

  /** While selections can succeed, `n` rounds queue the facilities of the first `n` selections, in order. */
  lemma {:induction false} RoundsStartPicks(v: PlanView, catalog: seq<FacilityType>, name: string, n: nat)
    requires HasEligible(v.policy, catalog)
    ensures forall k :: 0 <= k < |Picks(v.policy, catalog, n)| ==> Picks(v.policy, catalog, n)[k] < |catalog|
    ensures Rounds(v, catalog, name, n)
      == v.(queued := v.queued + Started(catalog, Picks(v.policy, catalog, n), name), policy := AfterPicks(v.policy, catalog, n))
    decreases n
  {
    PicksValid(v.policy, catalog, n);
    if n == 0 {
      assert Started(catalog, [], name) == [];
      AppendEmpty(v.queued);
    } else {
      var i := Pick(v.policy, catalog).value;
      PicksUnfold(v.policy, catalog, n, i);
      EligibleKept(v.policy, catalog, i);
      var t := Initial(catalog[i], name);
      var w := v.(queued := v.queued + [t], policy := AfterPick(v.policy, catalog, i));
      RoundsStartPicks(w, catalog, name, n - 1);
      var rest := Picks(w.policy, catalog, n - 1);
      assert Started(catalog, [i] + rest, name) == [t] + Started(catalog, rest, name);
      AppendAssoc(v.queued, [t], Started(catalog, rest, name));
    }
  }

  /** A top-up that succeeds is the rounds of the loop that fills the queue to capacity. */
  lemma TopUpRounds(v: PlanView, catalog: seq<FacilityType>, cap: nat, name: string)
    requires Wanted(v, cap) == 0 || HasEligible(v.policy, catalog)
    ensures TopUp(v, catalog, cap, name) == Success(Rounds(v, catalog, name, Wanted(v, cap)))
  {
    if Wanted(v, cap) == 0 {
      assert Started(catalog, [], name) == [];
      AppendEmpty(v.queued);
    } else {
      RoundsStartPicks(v, catalog, name, Wanted(v, cap));
    }
  }

  /** The plan becomes busy when its queue holds `cap` facilities. */
  function MarkBusy(v: PlanView, cap: nat): (w: PlanView)
    ensures w.status == (if |v.queued| == cap then Busy else v.status)
    ensures w.(status := v.status) == v
  {
    if |v.queued| == cap then v.(status := Busy) else v
  }

  /**
   * Every queued facility ticks once; those that became operational move, in
   * queue order, to the completed list, their scores are added to the totals, and
   * the plan becomes available again if any did. (The source erases from the
   * queue while iterating it; here the queue is walked once and rebuilt.)
   */
  function Advance(v: PlanView): (w: PlanView)
    ensures w.policy == v.policy
    ensures v.completed <= w.completed
    ensures |w.completed| + |w.queued| == |v.completed| + |v.queued|
  {
    var ticked := TickAll(v.queued);
    var done := Finished(ticked);
    FinishedPendingPartition(ticked);
    v.(status := if done != [] then Available else v.status,
       completed := v.completed + done,
       queued := Pending(ticked),
       scores := AddAll(v.scores, done))
  }

  /**
   * One queued facility's share of the advance, in the order the queue is
   * walked: it ticks, and then either moves to the completed list (adding its
   * scores and making the plan available) or goes back to the queue.
   */
  function AdvanceOne(v: PlanView, x: FacilityValue): (w: PlanView)
    ensures w.policy == v.policy
    ensures |w.completed| + |w.queued| == |v.completed| + |v.queued| + 1
    ensures |w.completed| == |v.completed| + 1 <==> Tick(x).status == Operational
  {
    var t := Tick(x);
    if t.status == Operational then
      v.(status := Available, completed := v.completed + [t], scores := Add(v.scores, t.ftype.ScoresOf()))
    else
      v.(queued := v.queued + [t])
  }

  /** The advance of the facilities `rest`, walked from the front, starting from `v`. */
  function AdvanceFrom(v: PlanView, rest: seq<FacilityValue>): PlanView
    decreases |rest|
  {
    if rest == [] then v else AdvanceFrom(AdvanceOne(v, rest[0]), rest[1..])
  }

  lemma {:induction false} AdvanceFromSnoc(v: PlanView, xs: seq<FacilityValue>, x: FacilityValue)
    ensures AdvanceFrom(v, xs + [x]) == AdvanceOne(AdvanceFrom(v, xs), x)
    decreases |xs|
  {
    if xs == [] {
      assert xs + [x] == [x];
    } else {
      assert (xs + [x])[1..] == xs[1..] + [x];
      AdvanceFromSnoc(AdvanceOne(v, xs[0]), xs[1..], x);
    }
  }

  /** Walking facilities one at a time completes exactly the finished ones, in order, and keeps the pending ones, in order. */
  lemma {:induction false} AdvanceFromAll(v: PlanView, rest: seq<FacilityValue>)
    ensures AdvanceFrom(v, rest) == v.(status := if Finished(TickAll(rest)) != [] then Available else v.status,
                                        completed := v.completed + Finished(TickAll(rest)),
                                        queued := v.queued + Pending(TickAll(rest)),
                                        scores := AddAll(v.scores, Finished(TickAll(rest))))
    decreases |rest|
  {
    if rest == [] {
      AppendEmpty(v.completed);
      AppendEmpty(v.queued);
    } else {
      var xs, x := rest[..|rest| - 1], rest[|rest| - 1];
      assert rest == xs + [x];
      AdvanceFromSnoc(v, xs, x);
      AdvanceFromAll(v, xs);
      TickedSnoc(xs, x);
      AppendAssoc(v.completed, Finished(TickAll(xs)), [Tick(x)]);
      AppendAssoc(v.queued, Pending(TickAll(xs)), [Tick(x)]);
      AddAllSnoc(v.scores, Finished(TickAll(xs)), Tick(x));
    }
  }

  /** The advance is the queue walked once from the front, each facility handled on its own. */
  lemma AdvanceInOrder(v: PlanView)
    ensures AdvanceFrom(v.(queued := []), v.queued) == Advance(v)
  {
    AdvanceFromAll(v.(queued := []), v.queued);
    assert [] + Pending(TickAll(v.queued)) == Pending(TickAll(v.queued));
  }

  /**
   * One step of a plan: an available plan tops up its queue, turns busy when the
   * queue is full, and advances it; a busy plan only advances. The step fails,
   * changing nothing, exactly when an available plan with room in its queue has a
   * policy that cannot select anything.
   */
  function PlanStep(v: PlanView, catalog: seq<FacilityType>, cap: nat, name: string): (r: Result<PlanView, SelectError>)
    ensures r.Failure? <==> v.status == Available && |v.queued| < cap && !HasEligible(v.policy, catalog)
    ensures v.status == Busy ==> r.Success? && r.value.policy == v.policy
  {
    if v.status == Available then
      match TopUp(v, catalog, cap, name)
      case Failure(e) => Failure(e)
      case Success(w) => Success(Advance(MarkBusy(w, cap)))
    else
      Success(Advance(v))
  }

  // ---------------------------------------------------------------------------
  // The plan invariant and its preservation
  // ---------------------------------------------------------------------------

  /**
   * The queue never exceeds capacity; the plan is busy exactly when the queue is
   * full; completed facilities are operational, queued ones under construction,
   * all of them for the settlement `name`; the scores are the totals of the
   * completed facilities alone.
   */
  ghost predicate PlanInvariant(v: PlanView, cap: nat, name: string)
  {
    && |v.queued| <= cap
    && (v.status == Busy <==> |v.queued| == cap)
    && (forall k :: 0 <= k < |v.completed| ==> Done(v.completed[k]) && v.completed[k].settlementName == name)
    && (forall k :: 0 <= k < |v.queued| ==> InProgress(v.queued[k]) && v.queued[k].settlementName == name)
    && v.scores == TotalScores(v.completed)
  }

  /** A new plan: available, nothing built or queued, zero scores. */
  lemma NewPlanInvariant(policy: PolicyState, cap: nat, name: string)
    requires cap >= 1
    ensures PlanInvariant(PlanView(Available, [], [], NoScores, policy), cap, name)
  {
  }

  /**
   * Topping up fills the queue to capacity, keeps the queued facilities in front,
   * appends facilities just started from catalog entries for the settlement, and
   * counts one policy selection per started facility; nothing else changes.
   */
  lemma TopUpFills(v: PlanView, catalog: seq<FacilityType>, cap: nat, name: string)
    requires TopUp(v, catalog, cap, name).Success?
    ensures |TopUp(v, catalog, cap, name).value.queued| == Max(cap, |v.queued|)
    ensures TopUp(v, catalog, cap, name).value.queued[..|v.queued|] == v.queued
    ensures forall k :: |v.queued| <= k < |TopUp(v, catalog, cap, name).value.queued| ==>
              var f := TopUp(v, catalog, cap, name).value.queued[k];
              f.status == UnderConstruction && f.timeLeft == f.ftype.price && f.settlementName == name && f.ftype in catalog
    ensures TopUp(v, catalog, cap, name).value.policy.numberOfFacilities == v.policy.numberOfFacilities + Wanted(v, cap)
    ensures TopUp(v, catalog, cap, name).value.(queued := v.queued, policy := v.policy) == v
  {
    var n := Wanted(v, cap);
    if n > 0 {
      PicksValid(v.policy, catalog, n);
      SelectionsCount(v.policy, catalog, n);
    }
    var w := TopUp(v, catalog, cap, name).value;
    assert w.queued[..|v.queued|] == v.queued;
    forall k | |v.queued| <= k < |w.queued|
      ensures w.queued[k].ftype in catalog
    {
      var picks := Picks(v.policy, catalog, n);
      assert w.queued[k] == Initial(catalog[picks[k - |v.queued|]], name);
    }
  }

  /**
   * Advancing ticks every queued facility exactly once: the completed list keeps
   * its old entries in front, and the newly completed entries together with the
   * new queue are exactly the ticked old queue. The newly completed ones are
   * operational, the ones left queued are not, the plan becomes available exactly
   * when the queue shrank, and the policy is untouched.
   */
  lemma AdvanceEachOnce(v: PlanView)
    ensures Advance(v).completed[..|v.completed|] == v.completed
    ensures multiset(Advance(v).completed[|v.completed|..]) + multiset(Advance(v).queued) == multiset(TickAll(v.queued))
    ensures forall k :: |v.completed| <= k < |Advance(v).completed| ==> Advance(v).completed[k].status == Operational
    ensures forall k :: 0 <= k < |Advance(v).queued| ==> Advance(v).queued[k].status != Operational
    ensures Advance(v).status == if |Advance(v).queued| < |v.queued| then Available else v.status
    ensures Advance(v).policy == v.policy
  {
    var ticked := TickAll(v.queued);
    var done := Finished(ticked);
    FinishedPendingPartition(ticked);
    FinishedPendingMembers(ticked);
    assert Advance(v).completed[..|v.completed|] == v.completed;
    assert Advance(v).completed[|v.completed|..] == done;
  }

  /** The facilities advanced by a step keep the invariant, and their scores are added to the totals. */
  lemma AdvanceKeepsLists(v: PlanView, cap: nat, name: string)
    requires |v.queued| <= cap
    requires forall k :: 0 <= k < |v.completed| ==> Done(v.completed[k]) && v.completed[k].settlementName == name
    requires forall k :: 0 <= k < |v.queued| ==> InProgress(v.queued[k]) && v.queued[k].settlementName == name
    requires v.scores == TotalScores(v.completed)
    ensures |Advance(v).queued| <= |v.queued|
    ensures forall k :: 0 <= k < |Advance(v).completed| ==> Done(Advance(v).completed[k]) && Advance(v).completed[k].settlementName == name
    ensures forall k :: 0 <= k < |Advance(v).queued| ==> InProgress(Advance(v).queued[k]) && Advance(v).queued[k].settlementName == name
    ensures Advance(v).scores == TotalScores(Advance(v).completed)
    ensures Advance(v).status == if |Advance(v).queued| < |v.queued| then Available else v.status
  {
    var ticked := TickAll(v.queued);
    var done := Finished(ticked);
    FinishedPendingPartition(ticked);
    FinishedPendingMembers(ticked);
    forall f | f in ticked
      ensures f.status == Operational ==> Done(f) && f.settlementName == name
      ensures f.status != Operational ==> InProgress(f) && f.settlementName == name
    {
      var k :| 0 <= k < |ticked| && ticked[k] == f;
      TickQueued(v.queued[k]);
    }
    var w := Advance(v);
    forall k | 0 <= k < |w.completed|
      ensures Done(w.completed[k]) && w.completed[k].settlementName == name
    {
      if k >= |v.completed| {
        assert w.completed[k] == done[k - |v.completed|];
      }
    }
    AddAllTotals(v.completed, done);
  }

  /** An available plan that tops up is full and busy, and its lists still satisfy the invariant. */
  lemma TopUpKeepsLists(v: PlanView, catalog: seq<FacilityType>, cap: nat, name: string)
    requires PlanInvariant(v, cap, name) && v.status == Available
    requires TopUp(v, catalog, cap, name).Success?
    ensures var b := MarkBusy(TopUp(v, catalog, cap, name).value, cap);
      && |b.queued| == cap && b.status == Busy
      && (forall k :: 0 <= k < |b.completed| ==> Done(b.completed[k]) && b.completed[k].settlementName == name)
      && (forall k :: 0 <= k < |b.queued| ==> InProgress(b.queued[k]) && b.queued[k].settlementName == name)
      && b.scores == TotalScores(b.completed)
  {
    var w := TopUp(v, catalog, cap, name).value;
    TopUpFills(v, catalog, cap, name);
    forall k | 0 <= k < |w.queued|
      ensures InProgress(w.queued[k]) && w.queued[k].settlementName == name
    {
      if k < |v.queued| {
        assert w.queued[k] == w.queued[..|v.queued|][k];
      }
    }
  }

  /** A successful step keeps the plan invariant. */
  lemma PlanStepPreservesInvariant(v: PlanView, catalog: seq<FacilityType>, cap: nat, name: string)
    requires PlanInvariant(v, cap, name)
    requires PlanStep(v, catalog, cap, name).Success?
    ensures PlanInvariant(PlanStep(v, catalog, cap, name).value, cap, name)
  {
    if v.status == Available {
      TopUpKeepsLists(v, catalog, cap, name);
      AdvanceKeepsLists(MarkBusy(TopUp(v, catalog, cap, name).value, cap), cap, name);
    } else {
      AdvanceKeepsLists(v, cap, name);
    }
  }

  // ---------------------------------------------------------------------------
  // The source's step as written
  // ---------------------------------------------------------------------------

  /** The score update as written: the plan's scores are replaced by those of the facility just completed. */
  function CompleteScoresAsWritten(scores: Scores, f: FacilityValue): (r: Scores)
    ensures r == Add(scores, f.ftype.ScoresOf()) <==> scores == NoScores
  {
    f.ftype.ScoresOf()
  }

  /**
   * As written, a plan that completes two facilities reports the scores of the
   * second alone: whenever the first contributes a life-quality score, the
   * result misses the totals of the completed facilities.
   */
  lemma AsWrittenScoresForgetEarlier(f1: FacilityValue, f2: FacilityValue)
    requires f1.ftype.lifeQualityScore != 0
    ensures CompleteScoresAsWritten(CompleteScoresAsWritten(TotalScores([]), f1), f2) != TotalScores([f1, f2])
  {
    var one := TotalScores([f1]);
    assert [f1][..0] == [];
    assert one == Add(TotalScores([]), f1.ftype.ScoresOf());
    assert [f1, f2][..1] == [f1];
    assert TotalScores([f1, f2]) == Add(one, f2.ftype.ScoresOf());
    assert TotalScores([f1, f2]).lifeQuality == f1.ftype.lifeQualityScore + f2.ftype.lifeQualityScore;
  }

  /** The top-up loop's guard as written: it tests the completed list, which the loop body never changes. */
  predicate TopUpGuardAsWritten(v: PlanView, cap: nat): (b: bool)
    ensures |v.completed| <= cap && cap <= |v.queued| ==> b && Wanted(v, cap) == 0
  {
    |v.completed| <= cap
  }

  /**
   * As written, the top-up loop never ends for a plan with at most `cap`
   * completed facilities: after any number of rounds its guard still holds while
   * the queue has grown by one per round, far past capacity.
   */
  lemma {:induction false} AsWrittenTopUpNeverStops(v: PlanView, catalog: seq<FacilityType>, cap: nat, name: string, n: nat)
    requires HasEligible(v.policy, catalog) && TopUpGuardAsWritten(v, cap)
    ensures TopUpGuardAsWritten(Rounds(v, catalog, name, n), cap)
    ensures |Rounds(v, catalog, name, n).queued| == |v.queued| + n
    decreases n
  {
    if n > 0 {
      var i := Pick(v.policy, catalog).value;
      EligibleKept(v.policy, catalog, i);
      AsWrittenTopUpNeverStops(v.(queued := v.queued + [Initial(catalog[i], name)], policy := AfterPick(v.policy, catalog, i)), catalog, cap, name, n - 1);
    }
  }
}
