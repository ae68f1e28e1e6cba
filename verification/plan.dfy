/**
 * A construction plan for one settlement: the facilities it has completed, the
 * ones under construction, its selection policy and its three running scores,
 * all updated in place by `Step`. The plan's observable state is `View()`, and
 * every operation is proved against the functions of `PlanSpec`.
 */
module Plans {
  import opened Results
  import opened Settlements
  import opened Facilities
  import opened SelectionPolicies
  import opened PlanSpec

  /** The observable values of facility objects, in order. */
  function Values(fs: seq<Facility>): (r: seq<FacilityValue>)
    reads fs
    ensures |r| == |fs|
  {
    if fs == [] then [] else [fs[0].Value()] + Values(fs[1..])
  }

  lemma {:induction false} ValuesConcat(a: seq<Facility>, b: seq<Facility>)
    ensures Values(a + b) == Values(a) + Values(b)
    decreases |a|
  {
    if a != [] {
      ValuesConcat(a[1..], b);
      assert (a + b)[1..] == a[1..] + b;
    } else {
      assert a + b == b;
    }
  }

  /** Facility objects none of which changed since the start of a method still have the values they had then. */
  twostate lemma ValuesUnchanged(fs: seq<Facility>)
    requires forall k :: 0 <= k < |fs| ==> unchanged(fs[k])
    ensures Values(fs) == old(Values(fs))
    decreases |fs|
  {
    if fs != [] {
      ValuesUnchanged(fs[1..]);
    }
  }

  lemma ValuesSnoc(fs: seq<Facility>, f: Facility)
    ensures Values(fs + [f]) == Values(fs) + [f.Value()]
  {
    ValuesConcat(fs, [f]);
  }

  /** No facility object appears twice: in particular a completed facility is never also queued. */
  ghost predicate Distinct(fs: seq<Facility>)
  {
    forall i, j :: 0 <= i < j < |fs| ==> fs[i] != fs[j]
  }

  /** Appending an object not yet listed keeps a list without repeats. */
  lemma DistinctAppend(fs: seq<Facility>, f: Facility)
    requires Distinct(fs) && f !in fs
    ensures Distinct(fs + [f])
  {
    var r := fs + [f];
    forall i, j | 0 <= i < j < |r|
      ensures r[i] != r[j]
    {
      assert r[i] == fs[i];
    }
  }

  /** Two lists without repeats and without common objects make one list without repeats. */
  lemma DistinctConcat(a: seq<Facility>, b: seq<Facility>)
    requires Distinct(a) && Distinct(b)
    requires forall k :: 0 <= k < |b| ==> b[k] !in a
    ensures Distinct(a + b)
  {
    var r := a + b;
    forall i, j | 0 <= i < j < |r|
      ensures r[i] != r[j]
    {
      if j < |a| {
        assert r[i] == a[i] && r[j] == a[j];
      } else if i < |a| {
        assert r[i] == a[i] && r[j] == b[j - |a|];
      } else {
        assert r[i] == b[i - |a|] && r[j] == b[j - |a|];
      }
    }
  }

  /** Taking one entry out of a list without repeats: it occurs in neither remaining part, and the rest has no repeats. */
  lemma DistinctRemove(x: seq<Facility>, f: Facility, y: seq<Facility>)
    requires Distinct(x + [f] + y)
    ensures f !in x && f !in y
    ensures Distinct(x + y)
  {
    var w := x + [f] + y;
    assert w[|x|] == f;
    forall i | 0 <= i < |x|
      ensures x[i] != f
    {
      assert w[i] == x[i];
    }
    forall k | 0 <= k < |y|
      ensures y[k] != f
    {
      assert w[|x| + 1 + k] == y[k];
    }
    var r := x + y;
    forall i, j | 0 <= i < j < |r|
      ensures r[i] != r[j]
    {
      var pi := if i < |x| then i else i + 1;
      var pj := if j < |x| then j else j + 1;
      assert r[i] == w[pi] && r[j] == w[pj];
    }
  }

  /** Putting an object listed nowhere between two parts of a list without repeats keeps it without repeats. */
  lemma DistinctInsert(x: seq<Facility>, f: Facility, y: seq<Facility>)
    requires Distinct(x + y) && f !in x && f !in y
    ensures Distinct(x + [f] + y)
  {
    var w := x + y;
    var r := x + [f] + y;
    forall i, j | 0 <= i < j < |r|
      ensures r[i] != r[j]
    {
      if j == |x| {
        assert r[i] == x[i];
      } else if i == |x| {
        assert r[j] == y[j - |x| - 1];
      } else {
        var pi := if i < |x| then i else i - 1;
        var pj := if j < |x| then j else j - 1;
        assert r[i] == w[pi] && r[j] == w[pj];
      }
    }
  }

  /** In a list without repeats, the entry between two parts occurs in neither part, and the rest has no repeats. */
  lemma DistinctSplit(a: seq<Facility>, s: seq<Facility>, b: seq<Facility>, f: Facility, c: seq<Facility>)
    requires Distinct(a + s) && s == b + [f] + c
    ensures f !in a && f !in b && f !in c
    ensures Distinct(a + b + c)
  {
    assert a + s == (a + b) + [f] + c;
    DistinctRemove(a + b, f, c);
  }

  /** The position of the first occurrence of `x` in `s`, or `|s|` when there is none (the pointer search of addFacility). */
  function FirstIndex<T(==)>(s: seq<T>, x: T): (i: nat)
    ensures i <= |s| && (i < |s| ==> s[i] == x)
    ensures forall k :: 0 <= k < i ==> s[k] != x
  {
    if s == [] then 0
    else
      var j := FirstIndex(s[..|s| - 1], x);
      if j < |s| - 1 then j else if s[|s| - 1] == x then |s| - 1 else |s|
  }

  /** Moving an entry from the second part of a list without repeats to the end of the first keeps it without repeats. */
  lemma DistinctMove(a: seq<Facility>, b: seq<Facility>, f: Facility, c: seq<Facility>)
    requires Distinct(a + (b + [f] + c))
    ensures forall u :: Joined(u, b, c) ==> Distinct(a + [f] + u)
  {
    DistinctSplit(a, b + [f] + c, b, f, c);
    forall u | Joined(u, b, c)
      ensures Distinct(a + [f] + u)
    {
      assert a + u == a + b + c;
      DistinctInsert(a, f, u);
    }
  }

  /** `x` removed at its first occurrence, if any (the erase after the pointer search of addFacility). */
  function RemoveFirst<T(==)>(s: seq<T>, x: T): seq<T>
  {
    var i := FirstIndex(s, x);
    if i < |s| then s[..i] + s[i + 1..] else s
  }

  /** Removing `x` takes exactly one occurrence of it out when there is one, and changes nothing otherwise. */
  lemma RemoveFirstRemoves<T>(s: seq<T>, x: T)
    ensures x in s ==> multiset(RemoveFirst(s, x)) == multiset(s) - multiset{x} && |RemoveFirst(s, x)| == |s| - 1
    ensures x !in s ==> RemoveFirst(s, x) == s
  {
    var i := FirstIndex(s, x);
    if i < |s| {
      assert s == s[..i] + [x] + s[i + 1..];
    }
  }

  /**
   * `s` is `a` followed by `b`. The empty prefix is stated apart: an equation
   * `s == [] + s` would send the solver into an endless shifting of indices.
   */
  ghost predicate Joined<T>(s: seq<T>, a: seq<T>, b: seq<T>)
  {
    if a == [] then s == b else s == a + b
  }

  /** Removing an entry that nothing before it equals takes out exactly that entry. */
  lemma RemoveFirstAt<T>(a: seq<T>, x: T, b: seq<T>)
    requires x !in a
    ensures Joined(RemoveFirst(a + [x] + b, x), a, b)
  {
    var s := a + [x] + b;
    var i := FirstIndex(s, x);
    assert s[|a|] == x;
    assert s[..|a|] == a && s[|a| + 1..] == b;
    if a == [] {
      assert s[..i] + s[i + 1..] == b;
    }
  }

  /** Independent copies of facility objects, with the same values. */
  method CopyAll(fs: seq<Facility>) returns (cs: seq<Facility>)
    ensures Values(cs) == Values(fs)
    ensures forall k :: 0 <= k < |cs| ==> fresh(cs[k])
    ensures Distinct(cs)
  {
    cs := [];
    var i := 0;
    while i < |fs|
      invariant 0 <= i <= |fs|
      invariant Values(cs) == Values(fs[..i])
      invariant forall k :: 0 <= k < |cs| ==> fresh(cs[k])
      invariant Distinct(cs)
    {
      var c := new Facility.Copy(fs[i]);
      assert c !in cs;
      DistinctAppend(cs, c);
      ValuesSnoc(cs, c);
      cs := cs + [c];
      assert fs[..i + 1] == fs[..i] + [fs[i]];
      ValuesSnoc(fs[..i], fs[i]);
      i := i + 1;
    }
    assert fs[..i] == fs;
  }

  /** Fresh copies of two lists, the first copied before the second; no copy appears twice. */
  method CopyLists(a: seq<Facility>, b: seq<Facility>) returns (ca: seq<Facility>, cb: seq<Facility>)
    ensures Values(ca) == Values(a) && Values(cb) == Values(b)
    ensures forall k :: 0 <= k < |ca| ==> fresh(ca[k])
    ensures forall k :: 0 <= k < |cb| ==> fresh(cb[k])
    ensures Distinct(ca + cb)
  {
    ca := CopyAll(a);
    label copied:
    cb := CopyAll(b);
    ValuesUnchanged@copied(ca);
    DistinctConcat(ca, cb);
  }

  class Plan {
    const planId: int
    const settlementName: string
    /** How many facilities the plan builds at once. */
    const capacity: nat
    const catalog: seq<FacilityType>
    var policy: SelectionPolicy
    var status: PlanStatus
    /** The completed facilities, in completion order. */
    var facilities: seq<Facility>
    /** The queue of facilities under construction. */
    var underConstruction: seq<Facility>
    var lifeQualityScore: int
    var economyScore: int
    var environmentScore: int

    function Totals(): Scores
      reads this
    {
      Facilities.Scores(lifeQualityScore, economyScore, environmentScore)
    }

    function View(): PlanView
      reads this, policy, facilities, underConstruction
    {
      PlanView(status, Values(facilities), Values(underConstruction), Totals(), policy.state)
    }

    /** The plan invariant on the view, a positive capacity, and no facility object shared between or within the lists. */
    ghost predicate Valid()
      reads this, policy, facilities, underConstruction
    {
      && 1 <= capacity
      && Distinct(facilities + underConstruction)
      && PlanInvariant(View(), capacity, settlementName)
    }

    /**
     * A new plan for a settlement: capacity from the settlement's class,
     * available, nothing built or queued, zero scores, the given policy.
     */
    constructor (planId: int, settlement: Settlement, policy: SelectionPolicy, catalog: seq<FacilityType>)
      ensures Valid()
      ensures this.planId == planId && settlementName == settlement.name && this.catalog == catalog
      ensures capacity == ConstructionCapacity(settlement.settlementType)
      ensures this.policy == policy
      ensures View() == PlanView(Available, [], [], NoScores, policy.state)
    {
      this.planId := planId;
      this.settlementName := settlement.name;
      this.capacity := ConstructionCapacity(settlement.settlementType);
      this.catalog := catalog;
      this.policy := policy;
      this.status := Available;
      this.facilities := [];
      this.underConstruction := [];
      this.lifeQualityScore := 0;
      this.economyScore := 0;
      this.environmentScore := 0;
      new;
      NewPlanInvariant(policy.state, capacity, settlement.name);
    }

    /**
     * The copy constructor: same identity, capacity, catalog, status and scores,
     * element-wise copies of both facility lists and a clone of the policy, all
     * of them new objects.
     */
    constructor Copy(other: Plan)
      requires other.Valid()
      ensures Valid() && View() == other.View()
      ensures planId == other.planId && settlementName == other.settlementName
      ensures capacity == other.capacity && catalog == other.catalog
      ensures fresh(policy)
      ensures forall k :: 0 <= k < |facilities| ==> fresh(facilities[k])
      ensures forall k :: 0 <= k < |underConstruction| ==> fresh(underConstruction[k])
    {
      this.planId := other.planId;
      this.settlementName := other.settlementName;
      this.capacity := other.capacity;
      this.catalog := other.catalog;
      this.status := other.status;
      this.lifeQualityScore := other.lifeQualityScore;
      this.economyScore := other.economyScore;
      this.environmentScore := other.environmentScore;
      var p := other.policy.Clone();
      var done, queued := CopyLists(other.facilities, other.underConstruction);
      this.policy, this.facilities, this.underConstruction := p, done, queued;
    }

    /**
     * One step of the plan (see PlanStep): an available plan fills its queue to
     * capacity and turns busy, then every queued facility advances one tick and
     * the completed ones move to the completed list. When the first selection
     * fails the plan is left unchanged and the error is returned.
     */
    method Step() returns (r: Outcome<SelectError>)
      requires Valid()
      modifies this, policy, underConstruction
      ensures Valid()
      ensures r.Pass? ==> PlanStep(old(View()), catalog, capacity, settlementName) == Success(View())
      ensures r.Fail? ==> PlanStep(old(View()), catalog, capacity, settlementName) == Failure(r.error) && View() == old(View())
      ensures policy == old(policy)
    {
      ghost var v0 := View();
      if status == Available {
        r := FillQueue();
        if r.Fail? {
          return;
        }
        if |underConstruction| == capacity {
          status := Busy;
        }
        assert View() == MarkBusy(TopUp(v0, catalog, capacity, settlementName).value, capacity);
      } else {
        r := Pass;
      }
      assert forall k :: 0 <= k < |underConstruction| ==> underConstruction[k] in old(underConstruction) || fresh(underConstruction[k]);
      AdvanceQueue();
      PlanStepPreservesInvariant(v0, catalog, capacity, settlementName);
    }

    /** The top-up of a step (see TopUp): select and start facilities until the queue is full. */
    method FillQueue() returns (r: Outcome<SelectError>)
      requires Distinct(facilities + underConstruction)
      modifies this, policy
      ensures Distinct(facilities + underConstruction)
      ensures policy == old(policy) && facilities == old(facilities) && status == old(status)
      ensures |underConstruction| >= |old(underConstruction)| && underConstruction[..|old(underConstruction)|] == old(underConstruction)
      ensures forall f :: f in underConstruction ==> f in old(underConstruction) || fresh(f)
      ensures r.Pass? ==> TopUp(old(View()), catalog, capacity, settlementName) == Success(View())
      ensures r.Fail? ==> TopUp(old(View()), catalog, capacity, settlementName) == Failure(r.error) && View() == old(View())
    {
      ghost var v0 := View();
      ghost var queued0 := underConstruction;
      ghost var p0 := policy.state;
      ghost var n: nat := 0;
      while |underConstruction| < capacity
        invariant policy == old(policy) && facilities == old(facilities) && status == old(status) && Totals() == old(Totals())
        invariant |underConstruction| == |queued0| + n
        invariant underConstruction[..|queued0|] == queued0
        invariant forall f :: f in underConstruction ==> f in queued0 || fresh(f)
        invariant Distinct(facilities + underConstruction)
        invariant n == 0 ==> underConstruction == queued0 && policy.state == p0
        invariant n > 0 ==> HasEligible(p0, catalog) && HasEligible(policy.state, catalog)
        invariant Rounds(View(), catalog, settlementName, Wanted(View(), capacity)) == Rounds(v0, catalog, settlementName, Wanted(v0, capacity))
        decreases capacity - |underConstruction|
      {
        ghost var cur := View();
        var s := QueueSelected();
        if s.Failure? {
          // only the first selection can fail: eligibility never changes
          return Fail(s.error);
        }
        var i := s.value;
        EligibleKept(cur.policy, catalog, i);
        RoundsStep(cur, catalog, capacity, settlementName, i);
        n := n + 1;
      }
      TopUpRounds(v0, catalog, capacity, settlementName);
      r := Pass;
    }

    /** One round of the top-up: the policy selects, and a facility of the selected type is started and queued. */
    method QueueSelected() returns (r: Result<nat, SelectError>)
      requires Distinct(facilities + underConstruction)
      modifies this, policy
      ensures policy == old(policy) && facilities == old(facilities) && status == old(status) && Totals() == old(Totals())
      ensures Distinct(facilities + underConstruction)
      ensures r == Pick(old(policy.state), catalog)
      ensures r.Failure? ==> underConstruction == old(underConstruction) && policy.state == old(policy.state)
      ensures r.Success? ==> policy.state == AfterPick(old(policy.state), catalog, r.value)
      ensures r.Success? ==> |underConstruction| == |old(underConstruction)| + 1
      ensures r.Success? ==> underConstruction[..|old(underConstruction)|] == old(underConstruction)
      ensures forall f :: f in underConstruction ==> f in old(underConstruction) || fresh(f)
      ensures r.Success? ==> View() == old(View()).(queued := old(Values(underConstruction)) + [Initial(catalog[r.value], settlementName)], policy := AfterPick(old(policy.state), catalog, r.value))
      ensures r.Failure? ==> View() == old(View())
    {
      r := policy.SelectFacility(catalog);
      if r.Success? {
        var f := new Facility.FromType(catalog[r.value], settlementName);
        ghost var before := underConstruction;
        DistinctAppend(facilities + before, f);
        underConstruction := underConstruction + [f];
        assert facilities + underConstruction == (facilities + before) + [f];
        assert underConstruction[..|before|] == before;
        ValuesSnoc(before, f);
      }
    }

    /**
     * The advance of a step (see Advance): each facility of the queue, walked as
     * it stood when the advance began, ticks once; the completed ones are handed
     * to AddFacility, and the plan becomes available again.
     */
    method AdvanceQueue()
      requires Distinct(facilities + underConstruction)
      modifies this, underConstruction
      ensures Distinct(facilities + underConstruction)
      ensures policy == old(policy)
      ensures View() == Advance(old(View()))
    {
      ghost var v0 := View();
      AdvanceInOrder(v0);
      var rest := underConstruction;
      // `kept`: the walked facilities still under construction
      ghost var kept: seq<Facility> := [];
      while rest != []
        invariant policy == old(policy) && policy.state == v0.policy
        invariant Joined(underConstruction, kept, rest)
        invariant forall g :: g in rest ==> g in old(underConstruction)
        invariant Distinct(facilities + underConstruction)
        invariant AdvanceFrom(PlanView(status, Values(facilities), Values(kept), Totals(), v0.policy), Values(rest)) == Advance(v0)
        decreases |rest|
      {
        var f := rest[0];
        var tail := rest[1..];
        assert rest == [f] + tail;
        assert f in rest;
        assert underConstruction == kept + [f] + tail;
        ghost var cur := PlanView(status, Values(facilities), Values(kept), Totals(), v0.policy);
        ghost var x := f.Value();
        assert Values(rest) == [x] + Values(tail);
        assert AdvanceFrom(cur, Values(rest)) == AdvanceFrom(AdvanceOne(cur, x), Values(tail));
        var done := AdvanceFacility(f, kept, tail);
        if !done {
          ValuesSnoc(kept, f);
          kept := kept + [f];
        }
        assert PlanView(status, Values(facilities), Values(kept), Totals(), v0.policy) == AdvanceOne(cur, x);
        rest := tail;
      }
      assert Values(rest) == [];
      assert underConstruction == kept;
    }

    /**
     * One round of the advance: the queued facility `f` ticks; when it becomes
     * operational it is completed (see AddFacility) and the plan is available again.
     */
    method AdvanceFacility(f: Facility, ghost kept: seq<Facility>, ghost tail: seq<Facility>) returns (done: bool)
      requires underConstruction == kept + [f] + tail
      requires Distinct(facilities + underConstruction)
      modifies this, f
      ensures f.Value() == Tick(old(f.Value()))
      ensures done <==> f.status == Operational
      ensures done ==> facilities == old(facilities) + [f] && Joined(underConstruction, kept, tail)
      ensures done ==> Totals() == Add(old(Totals()), f.ftype.ScoresOf()) && status == Available
      ensures !done ==> facilities == old(facilities) && underConstruction == old(underConstruction)
      ensures !done ==> Totals() == old(Totals()) && status == old(status)
      ensures policy == old(policy) && Distinct(facilities + underConstruction)
      ensures Values(kept) == old(Values(kept)) && Values(tail) == old(Values(tail))
      ensures done ==> Values(facilities) == old(Values(facilities)) + [f.Value()]
      ensures !done ==> Values(facilities) == old(Values(facilities))
    {
      DistinctSplit(facilities, underConstruction, kept, f, tail);
      ghost var facilities0 := facilities;
      var s := f.Step();
      done := s == Operational;
      if done {
        RemoveFirstAt(kept, f, tail);
        DistinctMove(facilities, kept, f, tail);
        AddFacility(f);
        status := Available;
        ValuesSnoc(facilities0, f);
      }
      ValuesUnchanged(facilities0);
      ValuesUnchanged(kept);
      ValuesUnchanged(tail);
    }

    /**
     * Completes `f`: takes it out of the queue at its first occurrence (if it is
     * queued), appends it to the completed list and adds its scores to the plan's
     * (the source overwrites the scores instead: see CompleteScoresAsWritten).
     */
    method AddFacility(f: Facility)
      modifies this
      ensures facilities == old(facilities) + [f]
      ensures underConstruction == RemoveFirst(old(underConstruction), f)
      ensures Totals() == Add(old(Totals()), f.ftype.ScoresOf())
      ensures status == old(status) && policy == old(policy)
    {
      var i := 0;
      while i < |underConstruction| && underConstruction[i] != f
        invariant 0 <= i <= |underConstruction|
        invariant forall k :: 0 <= k < i ==> underConstruction[k] != f
      {
        i := i + 1;
      }
      if i < |underConstruction| {
        underConstruction := underConstruction[..i] + underConstruction[i + 1..];
      }
      facilities := facilities + [f];
      lifeQualityScore := lifeQualityScore + f.ftype.lifeQualityScore;
      economyScore := economyScore + f.ftype.economyScore;
      environmentScore := environmentScore + f.ftype.environmentScore;
    }

    /** Replaces the policy and nothing else. */
    method SetSelectionPolicy(p: SelectionPolicy)
      requires Valid()
      modifies this
      ensures Valid()
      ensures policy == p
      ensures facilities == old(facilities) && underConstruction == old(underConstruction)
      ensures View() == old(View()).(policy := p.state)
    {
      policy := p;
    }

    /** The life-quality score: in a valid plan, the total over the completed facilities. */
    function LifeQualityScore(): (s: int)
      reads this, policy, facilities, underConstruction
      ensures Valid() ==> s == TotalScores(Values(facilities)).lifeQuality
    {
      lifeQualityScore
    }

    /** The economy score: in a valid plan, the total over the completed facilities. */
    function EconomyScore(): (s: int)
      reads this, policy, facilities, underConstruction
      ensures Valid() ==> s == TotalScores(Values(facilities)).economy
    {
      economyScore
    }

    /** The environment score: in a valid plan, the total over the completed facilities. */
    function EnvironmentScore(): (s: int)
      reads this, policy, facilities, underConstruction
      ensures Valid() ==> s == TotalScores(Values(facilities)).environment
    {
      environmentScore
    }

    /** Whether the plan is available: in a valid plan, exactly when its queue has room. */
    function IsAvailable(): (b: bool)
      reads this, policy, facilities, underConstruction
      ensures b <==> status == Available
      ensures Valid() ==> (b <==> |underConstruction| < capacity)
    {
      status == Available
    }

    /** The code of the plan's policy, from which a fresh policy of the same kind is made. */
    function SelectionPolicyCode(): (code: string)
      reads this, policy
      ensures NewPolicy(code).Some? && SameVariant(NewPolicy(code).value, policy.state)
    {
      policy.Code()
    }
  }

}
