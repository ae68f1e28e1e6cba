/**
 * The four facility-selection strategies. Each policy is a cursor-carrying state;
 * `Pick` says which catalog index the next selection returns and `AfterPick` what
 * the state becomes. The class `SelectionPolicy` is the owned, mutable policy
 * object a plan holds; its `SelectFacility` walks the catalog with loops and is
 * proved against `Pick` and `AfterPick`.
 */
module SelectionPolicies {
  import opened Results
  import opened Facilities

  /**
   * One constructor per policy class. `builtFacilities` is the build log as the
   * list of selected names; `numberOfFacilities` counts selections.
   */
  datatype PolicyState =
    | NaiveSelection(lastSelectedIndex: int, numberOfFacilities: nat, builtFacilities: seq<string>)
    | BalancedSelection(totals: Scores, numberOfFacilities: nat, builtFacilities: seq<string>)
    | EconomySelection(lastSelectedIndex: int, numberOfFacilities: nat, builtFacilities: seq<string>)
    | SustainabilitySelection(lastSelectedIndex: int, numberOfFacilities: nat, builtFacilities: seq<string>)

  datatype SelectError = EmptyCatalog | NoEligibleFacility(category: FacilityCategory)

  predicate SameVariant(p: PolicyState, q: PolicyState)
  {
    match p
    case NaiveSelection(_, _, _) => q.NaiveSelection?
    case BalancedSelection(_, _, _) => q.BalancedSelection?
    case EconomySelection(_, _, _) => q.EconomySelection?
    case SustainabilitySelection(_, _, _) => q.SustainabilitySelection?
  }

  // ---------------------------------------------------------------------------
  // Balanced: minimax over the projected totals
  // ---------------------------------------------------------------------------

  function Abs(x: int): nat
  {
    if x < 0 then -x else x
  }

  /** The largest pairwise distance among the three scores. */
  function Imbalance(s: Scores): (d: nat)
    ensures d >= Abs(s.economy - s.environment)
    ensures d >= Abs(s.economy - s.lifeQuality)
    ensures d >= Abs(s.environment - s.lifeQuality)
    ensures d == Abs(s.economy - s.environment) || d == Abs(s.economy - s.lifeQuality) || d == Abs(s.environment - s.lifeQuality)
    ensures d == 0 <==> s.lifeQuality == s.economy == s.environment
  {
    Max(Max(Abs(s.economy - s.environment), Abs(s.economy - s.lifeQuality)), Abs(s.environment - s.lifeQuality))
  }

  /** The imbalance each catalog entry would leave if it were added to `totals`. */
  function Imbalances(catalog: seq<FacilityType>, totals: Scores): (s: seq<int>)
    ensures |s| == |catalog|
    ensures forall i :: 0 <= i < |catalog| ==> s[i] == Imbalance(Add(totals, catalog[i].ScoresOf()))
  {
    seq(|catalog|, i requires 0 <= i < |catalog| => Imbalance(Add(totals, catalog[i].ScoresOf())))
  }

  /** `r` holds a smallest value of `s`, and every earlier entry is strictly larger. */
  ghost predicate IsFirstMinimum(s: seq<int>, r: nat)
  {
    && r < |s|
    && (forall j :: 0 <= j < |s| ==> s[r] <= s[j])
    && (forall j :: 0 <= j < r ==> s[r] < s[j])
  }

  lemma FirstMinimumUnique(s: seq<int>, r1: nat, r2: nat)
    requires IsFirstMinimum(s, r1) && IsFirstMinimum(s, r2)
    ensures r1 == r2
  {
    assert s[r1] <= s[r2] && s[r2] <= s[r1];
  }

  /** The index of the first minimal entry of a non-empty sequence. */
  function FirstMinIndex(s: seq<int>): (r: nat)
    requires |s| > 0
    ensures IsFirstMinimum(s, r)
  {
    if |s| == 1 then 0
    else
      var k := FirstMinIndex(s[1..]);
      if s[0] <= s[1 + k] then 0 else 1 + k
  }

  /**
   * The Balanced scan: the imbalance of every candidate is computed as the
   * running maximum of the three pairwise distances; a zero imbalance is returned
   * at once, otherwise the incumbent is replaced only on a strictly smaller value.
   * Each candidate is scored from its own entry (the source scores the incumbent
   * instead: see ScanBalancedAsWritten).
   */
  method ScanBalanced(catalog: seq<FacilityType>, totals: Scores) returns (r: nat)
    requires |catalog| > 0
    ensures IsFirstMinimum(Imbalances(catalog, totals), r)
    ensures r == FirstMinIndex(Imbalances(catalog, totals))
  {
    ghost var imbalances := Imbalances(catalog, totals);
    var i := 0;
    var best := 0;
    var minimal := 0;
    while i < |catalog|
      invariant 0 <= i <= |catalog|
      invariant best < |catalog| && (i == 0 ==> best == 0) && (i > 0 ==> best < i)
      invariant i > 0 ==> minimal == imbalances[best]
      invariant forall j :: 0 <= j < i ==> imbalances[best] <= imbalances[j]
      invariant forall j :: 0 <= j < best ==> imbalances[best] < imbalances[j]
      invariant forall j :: 0 <= j < i ==> imbalances[j] > 0
    {
      var candidate := Add(totals, catalog[i].ScoresOf());
      var ecoScore, envScore, lifeScore := candidate.economy, candidate.environment, candidate.lifeQuality;
      var distance := Abs(ecoScore - envScore);
      if distance < Abs(ecoScore - lifeScore) {
        distance := Abs(ecoScore - lifeScore);
      }
      if distance < Abs(envScore - lifeScore) {
        distance := Abs(envScore - lifeScore);
      }
      assert distance == imbalances[i];
      if i == 0 {
        minimal := distance;
      }
      if distance == 0 {
        r := i;
        FirstMinimumUnique(imbalances, r, FirstMinIndex(imbalances));
        return;
      }
      if minimal > distance {
        best := i;
        minimal := distance;
      }
      i := i + 1;
    }
    r := best;
    FirstMinimumUnique(imbalances, r, FirstMinIndex(imbalances));
  }

  /**
   * The rest of the Balanced scan as the source writes it, from round `i` with
   * incumbent `current` and best distance `minimal`: every round scores the
   * incumbent instead of the i-th entry, returns it at once on a zero distance,
   * and replaces it by entry i only on a strictly smaller distance.
   */
  function ScanAsWrittenFrom(catalog: seq<FacilityType>, totals: Scores, i: nat, current: nat, minimal: int): (r: nat)
    requires current < |catalog| && i <= |catalog|
    ensures r < |catalog|
    decreases |catalog| - i
  {
    if i == |catalog| then current
    else
      var distance := Imbalance(Add(totals, catalog[current].ScoresOf()));
      var best := if i == 0 then distance else minimal;
      if distance == 0 then current
      else if best > distance then ScanAsWrittenFrom(catalog, totals, i + 1, i, distance)
      else ScanAsWrittenFrom(catalog, totals, i + 1, current, best)
  }

  /** Once entry 0 is the incumbent and its distance the best one, the scan as written never leaves entry 0. */
  lemma {:induction false} ScanAsWrittenStaysFirst(catalog: seq<FacilityType>, totals: Scores, i: nat, minimal: int)
    requires 0 < |catalog| && i <= |catalog|
    requires i > 0 ==> minimal == Imbalance(Add(totals, catalog[0].ScoresOf()))
    ensures ScanAsWrittenFrom(catalog, totals, i, 0, minimal) == 0
    decreases |catalog| - i
  {
    if i < |catalog| {
      var distance := Imbalance(Add(totals, catalog[0].ScoresOf()));
      if distance != 0 {
        ScanAsWrittenStaysFirst(catalog, totals, i + 1, if i == 0 then distance else minimal);
      }
    }
  }

  /** The Balanced selection as the source writes it: always the first entry, whatever the totals. */
  function BalancedPickAsWritten(catalog: seq<FacilityType>, totals: Scores): (r: nat)
    requires |catalog| > 0
    ensures r == 0
  {
    ScanAsWrittenStaysFirst(catalog, totals, 0, 0);
    ScanAsWrittenFrom(catalog, totals, 0, 0, 0)
  }

  /**
   * The Balanced scan loop as the source writes it: every iteration scores the
   * incumbent (initially entry 0) instead of the i-th entry, so the incumbent is
   * never replaced and the first entry is always returned.
   */
  method ScanBalancedAsWritten(catalog: seq<FacilityType>, totals: Scores) returns (r: nat)
    requires |catalog| > 0
    ensures r == BalancedPickAsWritten(catalog, totals)
    ensures r == 0
  {
    var current := 0;
    var i := 0;
    var minimal := 0;
    while i < |catalog|
      invariant 0 <= i <= |catalog|
      invariant current == 0
      invariant i > 0 ==> minimal == Imbalance(Add(totals, catalog[0].ScoresOf()))
    {
      var candidate := Add(totals, catalog[current].ScoresOf());
      var ecoScore, envScore, lifeScore := candidate.economy, candidate.environment, candidate.lifeQuality;
      var distance := Abs(ecoScore - envScore);
      if distance < Abs(ecoScore - lifeScore) {
        distance := Abs(ecoScore - lifeScore);
      }
      if distance < Abs(envScore - lifeScore) {
        distance := Abs(envScore - lifeScore);
      }
      if i == 0 {
        minimal := distance;
      }
      if distance == 0 {
        return current;
      }
      if minimal > distance {
        current := i;
        minimal := distance;
      }
      i := i + 1;
    }
    r := current;
  }

  /**
   * A catalog whose first entry is not the most balanced one: the scan as
   * written returns entry 0, the intended choice is entry 1.
   */
  lemma AsWrittenBalancedMissesMinimum(catalog: seq<FacilityType>, p: PolicyState)
    requires |catalog| == 2
    requires catalog[0].lifeQualityScore == 2 && catalog[0].economyScore == 0 && catalog[0].environmentScore == 0
    requires catalog[1].lifeQualityScore == 0 && catalog[1].economyScore == 0 && catalog[1].environmentScore == 0
    requires p.BalancedSelection? && p.totals.lifeQuality == p.totals.economy == p.totals.environment
    ensures BalancedPickAsWritten(catalog, p.totals) == 0
    ensures Pick(p, catalog) == Success(1)
  {
    BalancedPickAmongTwo(catalog, p);
    var after0, after1 := Add(p.totals, catalog[0].ScoresOf()), Add(p.totals, catalog[1].ScoresOf());
    assert after0.lifeQuality == after0.economy + 2 && after0.economy == after0.environment;
    assert after1.lifeQuality == after1.economy == after1.environment;
    assert Imbalance(after0) == 2 && Imbalance(after1) == 0;
  }

  // ---------------------------------------------------------------------------
  // Economy / Sustainability: cyclic scan for a category
  // ---------------------------------------------------------------------------

  /** How many steps a cyclic walk starting at `start` takes to reach index `j`. */
  function Offset(start: nat, j: nat, k: nat): nat
    requires start < k && j < k
  {
    if j >= start then j - start else j + k - start
  }

  /** The index reached after `d` steps of a cyclic walk from `start`. */
  function Wrap(start: nat, d: nat, k: nat): (j: nat)
    requires start < k && d < k
    ensures j < k && Offset(start, j, k) == d
  {
    if start + d < k then start + d else start + d - k
  }

  /**
   * Where the category scan starts: just after the last pick, or at 0 when
   * nothing was picked yet or the last pick was the final entry. (A cursor
   * outside -1 .. k-1 never arises; the source would read out of bounds, here
   * it restarts at 0.)
   */
  function ScanStart(lastSelectedIndex: int, k: nat): (start: nat)
    requires k > 0
    ensures start < k
    ensures lastSelectedIndex == -1 || lastSelectedIndex + 1 == k ==> start == 0
    ensures 0 <= lastSelectedIndex && lastSelectedIndex + 1 < k ==> start == lastSelectedIndex + 1
  {
    if 0 < lastSelectedIndex + 1 < k then lastSelectedIndex + 1 else 0
  }

  function CategoryPickFrom(catalog: seq<FacilityType>, cat: FacilityCategory, start: nat, d: nat): (r: Option<nat>)
    requires start < |catalog| && d <= |catalog|
    ensures r.Some? ==> r.value < |catalog| && catalog[r.value].category == cat && d <= Offset(start, r.value, |catalog|)
    ensures r.Some? ==> forall j :: 0 <= j < |catalog| && d <= Offset(start, j, |catalog|) < Offset(start, r.value, |catalog|) ==> catalog[j].category != cat
    ensures r.None? ==> forall j :: 0 <= j < |catalog| && d <= Offset(start, j, |catalog|) ==> catalog[j].category != cat
    decreases |catalog| - d
  {
    if d == |catalog| then None
    else if catalog[Wrap(start, d, |catalog|)].category == cat then Some(Wrap(start, d, |catalog|))
    else CategoryPickFrom(catalog, cat, start, d + 1)
  }

  /**
   * The first entry of category `cat` met when walking the catalog cyclically
   * from `start`; None exactly when the catalog holds no entry of that category.
   */
  function CategoryPick(catalog: seq<FacilityType>, cat: FacilityCategory, start: nat): (r: Option<nat>)
    requires start < |catalog|
    ensures r.Some? ==> r.value < |catalog| && catalog[r.value].category == cat
    ensures r.Some? ==> forall j :: 0 <= j < |catalog| && Offset(start, j, |catalog|) < Offset(start, r.value, |catalog|) ==> catalog[j].category != cat
    ensures r.None? <==> forall j :: 0 <= j < |catalog| ==> catalog[j].category != cat
  {
    CategoryPickFrom(catalog, cat, start, 0)
  }

  /**
   * The category scan: starting at `start`, step forward (wrapping after the
   * last entry) until an entry of category `cat` is found. The source loops
   * forever (or reads past the end) when there is none; here the scan stops with
   * None once every entry has been inspected.
   */
  method ScanCategory(catalog: seq<FacilityType>, cat: FacilityCategory, start: nat) returns (r: Option<nat>)
    requires start < |catalog|
    ensures r.Some? ==> r.value < |catalog| && catalog[r.value].category == cat
    ensures r.Some? ==> forall j :: 0 <= j < |catalog| && Offset(start, j, |catalog|) < Offset(start, r.value, |catalog|) ==> catalog[j].category != cat
    ensures r.None? <==> forall j :: 0 <= j < |catalog| ==> catalog[j].category != cat
    ensures r == CategoryPick(catalog, cat, start)
  {
    var k := |catalog|;
    var i := start;
    var scanned := 0;
    while catalog[i].category != cat
      invariant 0 <= i < k && scanned < k
      invariant scanned == Offset(start, i, k)
      invariant forall j :: 0 <= j < k && Offset(start, j, k) < scanned ==> catalog[j].category != cat
      decreases k - scanned
    {
      if scanned == k - 1 {
        assert forall j :: 0 <= j < k ==> Offset(start, j, k) <= scanned;
        return None;
      }
      i := if i == k - 1 then 0 else i + 1;
      scanned := scanned + 1;
    }
    r := Some(i);
    CategoryPickIsFirst(catalog, cat, start, i);
  }

  /** An entry of category `cat` with no earlier one on the walk from `start` is what `CategoryPick` returns. */
  lemma CategoryPickIsFirst(catalog: seq<FacilityType>, cat: FacilityCategory, start: nat, i: nat)
    requires start < |catalog| && i < |catalog| && catalog[i].category == cat
    requires forall j :: 0 <= j < |catalog| && Offset(start, j, |catalog|) < Offset(start, i, |catalog|) ==> catalog[j].category != cat
    ensures CategoryPick(catalog, cat, start) == Some(i)
  {
    var r := CategoryPick(catalog, cat, start);
    var v := r.value;
    assert Offset(start, v, |catalog|) == Offset(start, i, |catalog|);
  }

  // ---------------------------------------------------------------------------
  // One selection, for every policy
  // ---------------------------------------------------------------------------

  /** Whether a selection can succeed: it depends on the variant and the catalog, never on the cursor. */
  predicate HasEligible(p: PolicyState, catalog: seq<FacilityType>)
  {
    match p
    case NaiveSelection(_, _, _) => |catalog| > 0
    case BalancedSelection(_, _, _) => |catalog| > 0
    case EconomySelection(_, _, _) => exists i :: 0 <= i < |catalog| && catalog[i].category == Economy
    case SustainabilitySelection(_, _, _) => exists i :: 0 <= i < |catalog| && catalog[i].category == Environment
  }

  function CategorySelect(catalog: seq<FacilityType>, cat: FacilityCategory, lastSelectedIndex: int): Result<nat, SelectError>
  {
    if |catalog| == 0 then Failure(NoEligibleFacility(cat))
    else match CategoryPick(catalog, cat, ScanStart(lastSelectedIndex, |catalog|))
      case None => Failure(NoEligibleFacility(cat))
      case Some(i) => Success(i)
  }

  /**
   * The catalog index the next selection returns, or why there is none.
   * Naive: the entry after the last pick, or entry 0 when that is past the end.
   * Balanced: the first entry of least imbalance against the running totals.
   * Economy / Sustainability: the first ECONOMY / ENVIRONMENT entry in cyclic
   * order from the scan start.
   */
  function Pick(p: PolicyState, catalog: seq<FacilityType>): (r: Result<nat, SelectError>)
    ensures r.Success? <==> HasEligible(p, catalog)
    ensures r.Success? ==> r.value < |catalog|
  {
    match p
    case NaiveSelection(last, _, _) =>
      if |catalog| == 0 then Failure(EmptyCatalog)
      else Success(if 0 <= last + 1 < |catalog| then last + 1 else 0)
    case BalancedSelection(totals, _, _) =>
      if |catalog| == 0 then Failure(EmptyCatalog)
      else Success(FirstMinIndex(Imbalances(catalog, totals)))
    case EconomySelection(last, _, _) => CategorySelect(catalog, Economy, last)
    case SustainabilitySelection(last, _, _) => CategorySelect(catalog, Environment, last)
  }

  /**
   * What each policy's selection means: Naive takes the entry after the last
   * pick (wrapping to 0), Balanced a first entry of least imbalance, Economy and
   * Sustainability an entry of their category that no entry met earlier in the
   * cyclic walk from the scan start could have been.
   */
  lemma PickMeaning(p: PolicyState, catalog: seq<FacilityType>)
    requires Pick(p, catalog).Success?
    ensures p.NaiveSelection? ==>
              Pick(p, catalog).value == if 0 <= p.lastSelectedIndex + 1 < |catalog| then p.lastSelectedIndex + 1 else 0
    ensures p.BalancedSelection? ==> IsFirstMinimum(Imbalances(catalog, p.totals), Pick(p, catalog).value)
    ensures p.EconomySelection? ==> CategoryChoice(catalog, Economy, p.lastSelectedIndex, Pick(p, catalog).value)
    ensures p.SustainabilitySelection? ==> CategoryChoice(catalog, Environment, p.lastSelectedIndex, Pick(p, catalog).value)
  {
  }

  /** `i` holds category `cat`, and no entry of that category comes before it in the walk from the scan start. */
  ghost predicate CategoryChoice(catalog: seq<FacilityType>, cat: FacilityCategory, lastSelectedIndex: int, i: nat)
    requires |catalog| > 0
  {
    var start := ScanStart(lastSelectedIndex, |catalog|);
    && i < |catalog|
    && catalog[i].category == cat
    && forall j :: 0 <= j < |catalog| && Offset(start, j, |catalog|) < Offset(start, i, |catalog|) ==> catalog[j].category != cat
  }

  /**
   * The state after entry `i` was selected: one more selection counted, its name
   * appended to the log, the cursor moved to `i`, and for Balanced the entry's
   * scores added to the running totals (the source never updates them: see
   * BalancedAfterPickAsWritten).
   */
  function AfterPick(p: PolicyState, catalog: seq<FacilityType>, i: nat): (q: PolicyState)
    requires i < |catalog|
    ensures SameVariant(p, q) && SameVariant(q, p)
    ensures q.numberOfFacilities == p.numberOfFacilities + 1
    ensures q.builtFacilities == p.builtFacilities + [catalog[i].name]
    ensures !p.BalancedSelection? ==> q.lastSelectedIndex == i
    ensures p.BalancedSelection? ==> q.totals == Add(p.totals, catalog[i].ScoresOf())
  {
    var name := catalog[i].name;
    match p
    case NaiveSelection(_, n, log) => NaiveSelection(i, n + 1, log + [name])
    case BalancedSelection(totals, n, log) => BalancedSelection(Add(totals, catalog[i].ScoresOf()), n + 1, log + [name])
    case EconomySelection(_, n, log) => EconomySelection(i, n + 1, log + [name])
    case SustainabilitySelection(_, n, log) => SustainabilitySelection(i, n + 1, log + [name])
  }

  /** The Balanced update as the source writes it: counter and log change, the running totals do not. */
  function BalancedAfterPickAsWritten(p: PolicyState, catalog: seq<FacilityType>, i: nat): (q: PolicyState)
    requires p.BalancedSelection? && i < |catalog|
    ensures q.BalancedSelection? && q.totals == p.totals
  {
    BalancedSelection(p.totals, p.numberOfFacilities + 1, p.builtFacilities + [catalog[i].name])
  }

  /** As written, a Balanced policy's next pick never changes: it picks the same entry forever. */
  lemma AsWrittenBalancedRepeats(p: PolicyState, catalog: seq<FacilityType>)
    requires p.BalancedSelection? && |catalog| > 0
    ensures Pick(BalancedAfterPickAsWritten(p, catalog, Pick(p, catalog).value), catalog) == Pick(p, catalog)
  {
  }

  // ---------------------------------------------------------------------------
  // Several selections in a row
  // ---------------------------------------------------------------------------

  /** The indices returned by `n` successive selections (fewer if one fails). */
  function Picks(p: PolicyState, catalog: seq<FacilityType>, n: nat): seq<nat>
    decreases n
  {
    if n == 0 then []
    else match Pick(p, catalog)
      case Failure(_) => []
      case Success(i) => [i] + Picks(AfterPick(p, catalog, i), catalog, n - 1)
  }

  /** The state after `n` successive selections. */
  function AfterPicks(p: PolicyState, catalog: seq<FacilityType>, n: nat): PolicyState
    decreases n
  {
    if n == 0 then p
    else match Pick(p, catalog)
      case Failure(_) => p
      case Success(i) => AfterPicks(AfterPick(p, catalog, i), catalog, n - 1)
  }

  function Names(catalog: seq<FacilityType>, picks: seq<nat>): (names: seq<string>)
    requires forall k :: 0 <= k < |picks| ==> picks[k] < |catalog|
    ensures |names| == |picks|
    ensures forall k :: 0 <= k < |picks| ==> names[k] == catalog[picks[k]].name
  {
    seq(|picks|, k requires 0 <= k < |picks| => catalog[picks[k]].name)
  }

  /** `totals` with the scores of the picked entries added one after another, in selection order. */
  function AddPicked(totals: Scores, catalog: seq<FacilityType>, picks: seq<nat>): Scores
    requires forall k :: 0 <= k < |picks| ==> picks[k] < |catalog|
    decreases |picks|
  {
    if picks == [] then totals else AddPicked(Add(totals, catalog[picks[0]].ScoresOf()), catalog, picks[1..])
  }

  /** Whenever a selection can succeed, `n` selections return `n` valid indices. */
  lemma {:induction false} PicksValid(p: PolicyState, catalog: seq<FacilityType>, n: nat)
    requires HasEligible(p, catalog)
    ensures |Picks(p, catalog, n)| == n
    ensures forall k :: 0 <= k < n ==> Picks(p, catalog, n)[k] < |catalog|
    decreases n
  {
    if n > 0 {
      var i := Pick(p, catalog).value;
      PicksUnfold(p, catalog, n, i);
      EligibleKept(p, catalog, i);
      var rest := Picks(AfterPick(p, catalog, i), catalog, n - 1);
      PicksValid(AfterPick(p, catalog, i), catalog, n - 1);
      forall k | 0 <= k < n
        ensures ([i] + rest)[k] < |catalog|
      {
        if k > 0 {
          assert ([i] + rest)[k] == rest[k - 1];
        }
      }
    }
  }

  /** Whenever a selection can succeed, `n` selections add exactly `n` to the counter and never change the variant. */
  lemma {:induction false} SelectionsCount(p: PolicyState, catalog: seq<FacilityType>, n: nat)
    requires HasEligible(p, catalog)
    ensures SameVariant(p, AfterPicks(p, catalog, n)) && SameVariant(AfterPicks(p, catalog, n), p)
    ensures AfterPicks(p, catalog, n).numberOfFacilities == p.numberOfFacilities + n
    decreases n
  {
    if n > 0 {
      var i := Pick(p, catalog).value;
      PicksUnfold(p, catalog, n, i);
      EligibleKept(p, catalog, i);
      SelectionsCount(AfterPick(p, catalog, i), catalog, n - 1);
    }
  }

  /** The build log grows by the names of the selected entries, in selection order. */
  lemma {:induction false} SelectionsLog(p: PolicyState, catalog: seq<FacilityType>, n: nat)
    requires HasEligible(p, catalog)
    ensures forall k :: 0 <= k < |Picks(p, catalog, n)| ==> Picks(p, catalog, n)[k] < |catalog|
    ensures AfterPicks(p, catalog, n).builtFacilities == p.builtFacilities + Names(catalog, Picks(p, catalog, n))
    decreases n
  {
    PicksValid(p, catalog, n);
    if n == 0 {
      AppendEmpty(p.builtFacilities);
    } else {
      var i := Pick(p, catalog).value;
      PicksUnfold(p, catalog, n, i);
      var q := AfterPick(p, catalog, i);
      EligibleKept(p, catalog, i);
      SelectionsLog(q, catalog, n - 1);
      var rest := Picks(q, catalog, n - 1);
      var tail := Names(catalog, rest);
      NamesCons(catalog, i, rest);
      AppendAssoc(p.builtFacilities, [catalog[i].name], tail);
      assert AfterPicks(p, catalog, n).builtFacilities == (p.builtFacilities + [catalog[i].name]) + tail;
      assert Names(catalog, Picks(p, catalog, n)) == [catalog[i].name] + tail;
    }
  }

  /** Eligibility never changes along a run of selections. */
  lemma {:induction false} EligibleAfterPicks(p: PolicyState, catalog: seq<FacilityType>, n: nat)
    ensures HasEligible(AfterPicks(p, catalog, n), catalog) == HasEligible(p, catalog)
    decreases n
  {
    if n > 0 && Pick(p, catalog).Success? {
      var i := Pick(p, catalog).value;
      PicksUnfold(p, catalog, n, i);
      EligibleKept(p, catalog, i);
      EligibleAfterPicks(AfterPick(p, catalog, i), catalog, n - 1);
    }
  }

  /** Selection `n + 1` is the pick of the state the first `n` left, appended after theirs. */
  lemma {:induction false} PicksSnoc(p: PolicyState, catalog: seq<FacilityType>, n: nat)
    requires HasEligible(p, catalog)
    ensures Pick(AfterPicks(p, catalog, n), catalog).Success?
    ensures var i := Pick(AfterPicks(p, catalog, n), catalog).value;
      && Picks(p, catalog, n + 1) == Picks(p, catalog, n) + [i]
      && AfterPicks(p, catalog, n + 1) == AfterPick(AfterPicks(p, catalog, n), catalog, i)
    decreases n
  {
    var i := Pick(p, catalog).value;
    var q := AfterPick(p, catalog, i);
    PicksUnfold(p, catalog, n + 1, i);
    EligibleKept(p, catalog, i);
    if n == 0 {
      assert Picks(q, catalog, 0) == [];
    } else {
      PicksUnfold(p, catalog, n, i);
      PicksSnoc(q, catalog, n - 1);
      var j := Pick(AfterPicks(q, catalog, n - 1), catalog).value;
      AppendAssoc([i], Picks(q, catalog, n - 1), [j]);
    }
  }

  /** A selection never changes whether the next one can succeed. */
  lemma EligibleKept(p: PolicyState, catalog: seq<FacilityType>, i: nat)
    requires i < |catalog|
    ensures HasEligible(AfterPick(p, catalog, i), catalog) == HasEligible(p, catalog)
  {
  }

  // The two sequence identities below are stated once, generically: proving them
  // at each use on concrete element types sets off costly matching on `+`.

  lemma AppendEmpty<T>(a: seq<T>)
    ensures a + [] == a
  {
  }

  lemma AppendAssoc<T>(a: seq<T>, b: seq<T>, c: seq<T>)
    ensures (a + b) + c == a + (b + c)
  {
  }

  lemma NamesCons(catalog: seq<FacilityType>, i: nat, rest: seq<nat>)
    requires i < |catalog| && forall k :: 0 <= k < |rest| ==> rest[k] < |catalog|
    ensures Names(catalog, [i] + rest) == [catalog[i].name] + Names(catalog, rest)
  {
  }

  lemma {:induction false} MulAtLeast(m: int, k: nat)
    requires m >= 1
    ensures m * k >= k
    decreases m
  {
    if m > 1 {
      MulAtLeast(m - 1, k);
      assert m * k == (m - 1) * k + k;
    }
  }

  /** Euclidean remainder is unique. */
  lemma ModUnique(a: int, k: int, q: int, r: int)
    requires k > 0 && a == q * k + r && 0 <= r < k
    ensures a % k == r
  {
    var q', r' := a / k, a % k;
    assert a == q' * k + r';
    assert (q - q') * k == r' - r;
    if q > q' {
      MulAtLeast(q - q', k);
    } else if q < q' {
      MulAtLeast(q' - q, k);
    }
  }

  lemma ModShift(x: nat, k: nat)
    requires k > 0
    ensures (x + k) % k == x % k
  {
    var q, r := x / k, x % k;
    assert x == q * k + r;
    assert x + k == (q + 1) * k + r;
    ModUnique(x + k, k, q + 1, r);
  }

  /** Restarting at 0 after the last entry keeps the walk in step with counting modulo the catalog size. */
  lemma NaiveNextIndex(last: int, k: nat, size: nat)
    requires size > 0 && -1 <= last < size
    ensures ((if last + 1 < size then last + 1 else 0) + k) % size == (last + 1 + k) % size
  {
    if last + 1 == size {
      ModShift(k, size);
    }
  }

  /** The first of `n` Naive selections moves the cursor one entry on (or back to 0) and logs the entry. */
  lemma NaivePicksUnfold(last: int, count: nat, log: seq<string>, catalog: seq<FacilityType>, n: nat)
    requires |catalog| > 0 && -1 <= last < |catalog| && n > 0
    ensures var i := if last + 1 < |catalog| then last + 1 else 0;
      Picks(NaiveSelection(last, count, log), catalog, n)
        == [i] + Picks(NaiveSelection(i, count + 1, log + [catalog[i].name]), catalog, n - 1)
  {
    var p := NaiveSelection(last, count, log);
    var i := if last + 1 < |catalog| then last + 1 else 0;
    assert AfterPick(p, catalog, i) == NaiveSelection(i, count + 1, log + [catalog[i].name]);
    PicksUnfold(p, catalog, n, i);
  }

  /** Prepending the next index of the walk to a walk that starts one step later gives the walk from here. */
  lemma NaiveWalkCons(last: int, size: nat, i: nat, rest: seq<nat>)
    requires size > 0 && -1 <= last < size && i == (if last + 1 < size then last + 1 else 0)
    requires forall k :: 0 <= k < |rest| ==> rest[k] == (i + 1 + k) % size
    ensures forall k :: 0 <= k < |rest| + 1 ==> ([i] + rest)[k] == (last + 1 + k) % size
  {
    forall k | 0 <= k < |rest| + 1
      ensures ([i] + rest)[k] == (last + 1 + k) % size
    {
      NaiveNextIndex(last, k, size);
      if k > 0 {
        assert ([i] + rest)[k] == rest[k - 1];
      }
    }
  }

  lemma {:induction false} NaiveRoundRobinFrom(last: int, count: nat, log: seq<string>, catalog: seq<FacilityType>, n: nat)
    requires |catalog| > 0 && -1 <= last < |catalog|
    ensures |Picks(NaiveSelection(last, count, log), catalog, n)| == n
    ensures forall k :: 0 <= k < n ==> Picks(NaiveSelection(last, count, log), catalog, n)[k] == (last + 1 + k) % |catalog|
    decreases n
  {
    if n > 0 {
      var i := if last + 1 < |catalog| then last + 1 else 0;
      var q := NaiveSelection(i, count + 1, log + [catalog[i].name]);
      NaivePicksUnfold(last, count, log, catalog, n);
      NaiveRoundRobinFrom(i, count + 1, log + [catalog[i].name], catalog, n - 1);
      NaiveWalkCons(last, |catalog|, i, Picks(q, catalog, n - 1));
    }
  }

  /** A new Naive policy selects indices 0, 1, ..., K-1, 0, 1, ... from a catalog of size K. */
  lemma NaiveRoundRobin(catalog: seq<FacilityType>, n: nat)
    requires |catalog| > 0
    ensures |Picks(NaiveSelection(-1, 0, []), catalog, n)| == n
    ensures forall k :: 0 <= k < n ==> Picks(NaiveSelection(-1, 0, []), catalog, n)[k] == k % |catalog|
  {
    NaiveRoundRobinFrom(-1, 0, [], catalog, n);
  }

  /**
   * A Balanced policy's running totals are its seed plus the scores of every
   * entry it has selected, so later selections are balanced against all earlier ones.
   */
  lemma {:induction false} BalancedTotalsTrackPicks(p: PolicyState, catalog: seq<FacilityType>, n: nat)
    requires p.BalancedSelection? && |catalog| > 0
    ensures forall k :: 0 <= k < |Picks(p, catalog, n)| ==> Picks(p, catalog, n)[k] < |catalog|
    ensures AfterPicks(p, catalog, n).BalancedSelection?
    ensures AfterPicks(p, catalog, n).totals == AddPicked(p.totals, catalog, Picks(p, catalog, n))
    decreases n
  {
    PicksValid(p, catalog, n);
    if n == 0 {
      assert Picks(p, catalog, n) == [];
    } else {
      var i := Pick(p, catalog).value;
      PicksUnfold(p, catalog, n, i);
      var q := AfterPick(p, catalog, i);
      BalancedTotalsTrackPicks(q, catalog, n - 1);
      var rest := Picks(q, catalog, n - 1);
      assert ([i] + rest)[1..] == rest;
    }
  }

  /**
   * With the running totals updated, a Balanced policy alternates on a catalog
   * that the source's policy (which never updates them) would answer with the
   * same entry every time.
   */
  lemma BalancedAlternates(catalog: seq<FacilityType>, p: PolicyState)
    requires |catalog| == 2
    requires catalog[0].lifeQualityScore == 0 && catalog[0].economyScore == 1 && catalog[0].environmentScore == 0
    requires catalog[1].lifeQualityScore == 0 && catalog[1].economyScore == 0 && catalog[1].environmentScore == 1
    requires p.BalancedSelection? && p.totals.lifeQuality == p.totals.economy == p.totals.environment
    ensures Picks(p, catalog, 2) == [0, 1]
  {
    var q := AfterPick(p, catalog, 0);
    assert Pick(p, catalog) == Success(0) by {
      // both candidates leave an imbalance of 1; the first wins
      BalancedPickAmongTwo(catalog, p);
      var after0, after1 := Add(p.totals, catalog[0].ScoresOf()), Add(p.totals, catalog[1].ScoresOf());
      assert after0.economy == after0.lifeQuality + 1 && after0.environment == after0.lifeQuality;
      assert after1.environment == after1.lifeQuality + 1 && after1.economy == after1.lifeQuality;
      assert Imbalance(after0) == 1 && Imbalance(after1) == 1;
    }
    assert Pick(q, catalog) == Success(1) by {
      // one economy point ahead, the second entry now balances better
      BalancedPickAmongTwo(catalog, q);
      var after0, after1 := Add(q.totals, catalog[0].ScoresOf()), Add(q.totals, catalog[1].ScoresOf());
      assert after0.economy == after0.lifeQuality + 2 && after0.environment == after0.lifeQuality;
      assert after1.economy == after1.lifeQuality + 1 && after1.environment == after1.lifeQuality + 1;
      assert Imbalance(after0) == 2 && Imbalance(after1) == 1;
    }
    PicksTwo(p, catalog, 0, 1);
  }

  lemma PicksTwo(p: PolicyState, catalog: seq<FacilityType>, i: nat, j: nat)
    requires Pick(p, catalog) == Success(i)
    requires i < |catalog| && Pick(AfterPick(p, catalog, i), catalog) == Success(j)
    ensures Picks(p, catalog, 2) == [i, j]
  {
    var q := AfterPick(p, catalog, i);
    PicksUnfold(p, catalog, 2, i);
    PicksUnfold(q, catalog, 1, j);
    assert Picks(AfterPick(q, catalog, j), catalog, 0) == [];
  }

  /** Selecting among two entries against `totals`: the one leaving the smaller imbalance, the first on a tie. */
  lemma BalancedPickAmongTwo(catalog: seq<FacilityType>, p: PolicyState)
    requires |catalog| == 2 && p.BalancedSelection?
    ensures Pick(p, catalog) ==
              Success(if Imbalance(Add(p.totals, catalog[1].ScoresOf())) < Imbalance(Add(p.totals, catalog[0].ScoresOf())) then 1 else 0)
  {
    var s := Imbalances(catalog, p.totals);
    var r := if s[1] < s[0] then 1 else 0;
    assert IsFirstMinimum(s, r);
    FirstMinimumUnique(s, r, FirstMinIndex(s));
  }

  /** One step of `Picks`. */
  lemma PicksUnfold(p: PolicyState, catalog: seq<FacilityType>, n: nat, i: nat)
    requires n > 0 && Pick(p, catalog) == Success(i)
    ensures i < |catalog|
    ensures Picks(p, catalog, n) == [i] + Picks(AfterPick(p, catalog, i), catalog, n - 1)
    ensures AfterPicks(p, catalog, n) == AfterPicks(AfterPick(p, catalog, i), catalog, n - 1)
  {
  }

  /**
   * An Economy (Sustainability) policy over a catalog with exactly one ECONOMY
   * (ENVIRONMENT) entry returns that entry on every call, whatever its cursor.
   */
  lemma {:induction false} SingleEligibleAlwaysPicked(p: PolicyState, catalog: seq<FacilityType>, e: nat, n: nat)
    requires p.EconomySelection? || p.SustainabilitySelection?
    requires e < |catalog|
    requires catalog[e].category == (if p.EconomySelection? then Economy else Environment)
    requires forall j :: 0 <= j < |catalog| && j != e ==> catalog[j].category != catalog[e].category
    ensures |Picks(p, catalog, n)| == n
    ensures forall k :: 0 <= k < n ==> Picks(p, catalog, n)[k] == e
    decreases n
  {
    if n > 0 {
      assert HasEligible(p, catalog);
      PicksUnfold(p, catalog, n, e);
      SingleEligibleAlwaysPicked(AfterPick(p, catalog, e), catalog, e, n - 1);
    }
  }

  // ---------------------------------------------------------------------------
  // Policy codes
  // ---------------------------------------------------------------------------

  /** The short code of a policy, read from its variant (no run-time type inspection). */
  function PolicyCode(p: PolicyState): (code: string)
    ensures code in {"nve", "bal", "eco", "env"}
    ensures NewPolicy(code).Some? && SameVariant(NewPolicy(code).value, p)
  {
    match p
    case NaiveSelection(_, _, _) => "nve"
    case BalancedSelection(_, _, _) => "bal"
    case EconomySelection(_, _, _) => "eco"
    case SustainabilitySelection(_, _, _) => "env"
  }

  /** The fresh policy a code stands for (a Balanced one seeded with zero totals), or None for an unknown code. */
  function NewPolicy(code: string): Option<PolicyState>
  {
    if code == "nve" then Some(NaiveSelection(-1, 0, []))
    else if code == "bal" then Some(BalancedSelection(NoScores, 0, []))
    else if code == "eco" then Some(EconomySelection(-1, 0, []))
    else if code == "env" then Some(SustainabilitySelection(-1, 0, []))
    else None
  }

  /** Codes and policies correspond one to one: a policy's code makes a fresh policy of the same variant, and back. */
  lemma PolicyCodeRoundTrip(p: PolicyState, code: string)
    ensures NewPolicy(PolicyCode(p)).Some? && SameVariant(NewPolicy(PolicyCode(p)).value, p)
    ensures NewPolicy(code).Some? ==> PolicyCode(NewPolicy(code).value) == code
    ensures NewPolicy(code).Some? <==> code in {"nve", "bal", "eco", "env"}
  {
  }

  // ---------------------------------------------------------------------------
  // The policy object
  // ---------------------------------------------------------------------------

  /** A plan's selection policy: an object whose state every selection updates in place. */
  class SelectionPolicy {
    var state: PolicyState

    constructor Naive()
      ensures state == NaiveSelection(-1, 0, [])
    {
      state := NaiveSelection(-1, 0, []);
    }

    /** Seeded with explicit running totals. */
    constructor Balanced(lifeQualityScore: int, economyScore: int, environmentScore: int)
      ensures state == BalancedSelection(Scores(lifeQualityScore, economyScore, environmentScore), 0, [])
    {
      state := BalancedSelection(Scores(lifeQualityScore, economyScore, environmentScore), 0, []);
    }

    constructor Economy()
      ensures state == EconomySelection(-1, 0, [])
    {
      state := EconomySelection(-1, 0, []);
    }

    constructor Sustainability()
      ensures state == SustainabilitySelection(-1, 0, [])
    {
      state := SustainabilitySelection(-1, 0, []);
    }

    /**
     * Selects the next catalog entry and records it. A failed selection (empty
     * catalog, no entry of the required category) changes nothing.
     */
    method SelectFacility(catalog: seq<FacilityType>) returns (r: Result<nat, SelectError>)
      modifies this
      ensures r == Pick(old(state), catalog)
      ensures r.Success? ==> state == AfterPick(old(state), catalog, r.value)
      ensures r.Failure? ==> state == old(state)
    {
      match state
      case NaiveSelection(last, n, log) =>
        if |catalog| == 0 {
          return Failure(EmptyCatalog);
        }
        var i := if 0 <= last + 1 < |catalog| then last + 1 else 0;
        state := NaiveSelection(i, n + 1, log + [catalog[i].name]);
        r := Success(i);
      case BalancedSelection(totals, n, log) =>
        if |catalog| == 0 {
          return Failure(EmptyCatalog);
        }
        var i := ScanBalanced(catalog, totals);
        state := BalancedSelection(Add(totals, catalog[i].ScoresOf()), n + 1, log + [catalog[i].name]);
        r := Success(i);
      case EconomySelection(last, n, log) =>
        if |catalog| == 0 {
          return Failure(NoEligibleFacility(FacilityCategory.Economy));
        }
        var found := ScanCategory(catalog, FacilityCategory.Economy, ScanStart(last, |catalog|));
        if found.None? {
          return Failure(NoEligibleFacility(FacilityCategory.Economy));
        }
        var i := found.value;
        state := EconomySelection(i, n + 1, log + [catalog[i].name]);
        r := Success(i);
      case SustainabilitySelection(last, n, log) =>
        if |catalog| == 0 {
          return Failure(NoEligibleFacility(Environment));
        }
        var found := ScanCategory(catalog, Environment, ScanStart(last, |catalog|));
        if found.None? {
          return Failure(NoEligibleFacility(Environment));
        }
        var i := found.value;
        state := SustainabilitySelection(i, n + 1, log + [catalog[i].name]);
        r := Success(i);
    }

    /** An independent copy with the same cursor, counter, log and running totals. */
    method Clone() returns (c: SelectionPolicy)
      ensures fresh(c) && c.state == state
    {
      if state.NaiveSelection? {
        c := new SelectionPolicy.Naive();
      } else if state.BalancedSelection? {
        c := new SelectionPolicy.Balanced(state.totals.lifeQuality, state.totals.economy, state.totals.environment);
      } else if state.EconomySelection? {
        c := new SelectionPolicy.Economy();
      } else {
        c := new SelectionPolicy.Sustainability();
      }
      c.state := state;
    }

    /** The policy's short code. */
    function Code(): (code: string)
      reads this
      ensures NewPolicy(code).Some? && SameVariant(NewPolicy(code).value, state)
    {
      PolicyCode(state)
    }
  }
}
