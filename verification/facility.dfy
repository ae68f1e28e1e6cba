/**
 * Facility types (immutable catalog entries) and facility instances, whose
 * remaining build time counts down once per tick until they become operational.
 */
module Facilities {

  /** Exactly three categories, in declaration order. */
  datatype FacilityCategory = LifeQuality | Economy | Environment

  datatype FacilityStatus = UnderConstruction | Operational

  /** The three impact scores, as one triple. */
  datatype Scores = Scores(lifeQuality: int, economy: int, environment: int)

  function Add(a: Scores, b: Scores): Scores
  {
    Scores(a.lifeQuality + b.lifeQuality, a.economy + b.economy, a.environment + b.environment)
  }

  const NoScores := Scores(0, 0, 0)

  /**
   * A catalog entry. Every field is fixed at construction; the getters of the
   * original class are the datatype's destructors, and copying yields an equal value.
   */
  datatype FacilityType = FacilityType(
    name: string,
    category: FacilityCategory,
    price: int,
    lifeQualityScore: int,
    economyScore: int,
    environmentScore: int)
  {
    function ScoresOf(): Scores
    {
      Scores(lifeQualityScore, economyScore, environmentScore)
    }
  }

  /**
   * The price doubles as the build time. A type whose price is not positive can
   * never be completed (see ZeroPriceNeverCompletes).
   */
  predicate Buildable(t: FacilityType)
  {
    t.price > 0
  }

  /** Everything observable about a facility instance. */
  datatype FacilityValue = FacilityValue(
    ftype: FacilityType,
    settlementName: string,
    status: FacilityStatus,
    timeLeft: int)

  /**
   * The lifecycle invariant: the counter stays between 0 and the price, and the
   * facility is operational exactly when the counter is 0.
   */
  predicate ValidFacility(f: FacilityValue)
  {
    0 <= f.timeLeft <= f.ftype.price && (f.status == Operational <==> f.timeLeft == 0)
  }

  /** A facility just started for a settlement: under construction, counter at the price. */
  function Initial(t: FacilityType, settlementName: string): (f: FacilityValue)
    ensures f.ftype == t && f.settlementName == settlementName
    ensures Buildable(t) ==> ValidFacility(f) && f.status == UnderConstruction
  {
    FacilityValue(t, settlementName, UnderConstruction, t.price)
  }

  /**
   * One tick of construction. A facility whose counter is already at (or below) 0
   * is left alone; otherwise the counter drops by one and the facility becomes
   * operational exactly when it reaches 0.
   */
  function Tick(f: FacilityValue): (r: FacilityValue)
    ensures r.ftype == f.ftype && r.settlementName == f.settlementName
    ensures f.timeLeft <= 0 ==> r == f
    ensures f.timeLeft > 0 ==> r.timeLeft == f.timeLeft - 1
    ensures ValidFacility(f) ==> ValidFacility(r)
    ensures ValidFacility(f) && f.status == Operational ==> r == f
    ensures r.status != f.status ==> r.status == Operational && r.timeLeft == 0
  {
    if f.timeLeft > 0 then
      var t := f.timeLeft - 1;
      f.(timeLeft := t, status := if t == 0 then Operational else f.status)
    else
      f
  }

  /** n ticks in a row. */
  function Ticks(f: FacilityValue, n: nat): FacilityValue
    decreases n
  {
    if n == 0 then f else Ticks(Tick(f), n - 1)
  }

  function Max(a: int, b: int): int
  {
    if a < b then b else a
  }

  /**
   * After n ticks a valid facility has max(0, timeLeft - n) left, is still valid,
   * and is operational exactly when n has reached its former counter: the counter
   * never goes up, never goes below 0, and completion happens once and stays.
   */
  lemma {:induction false} TicksCountDown(f: FacilityValue, n: nat)
    requires ValidFacility(f)
    ensures ValidFacility(Ticks(f, n))
    ensures Ticks(f, n).timeLeft == Max(0, f.timeLeft - n)
    ensures Ticks(f, n).status == Operational <==> n >= f.timeLeft
    ensures Ticks(f, n).ftype == f.ftype && Ticks(f, n).settlementName == f.settlementName
    decreases n
  {
    if n > 0 {
      TicksCountDown(Tick(f), n - 1);
    }
  }

  /** Between two moments the counter only decreases. */
  lemma TicksMonotone(f: FacilityValue, m: nat, n: nat)
    requires ValidFacility(f) && m <= n
    ensures 0 <= Ticks(f, n).timeLeft <= Ticks(f, m).timeLeft <= f.timeLeft
  {
    TicksCountDown(f, m);
    TicksCountDown(f, n);
  }

  /** A new facility of a buildable type becomes operational after exactly `price` ticks. */
  lemma CompletesAfterPrice(t: FacilityType, settlementName: string, n: nat)
    requires Buildable(t)
    ensures Ticks(Initial(t, settlementName), n).status == Operational <==> n >= t.price
  {
    TicksCountDown(Initial(t, settlementName), n);
  }

  /** With a price of 0 or less the counter starts where ticking does nothing: the facility never completes. */
  lemma {:induction false} ZeroPriceNeverCompletes(t: FacilityType, settlementName: string, n: nat)
    requires t.price <= 0
    ensures Ticks(Initial(t, settlementName), n) == Initial(t, settlementName)
    ensures Ticks(Initial(t, settlementName), n).status == UnderConstruction
    decreases n
  {
    if n > 0 {
      ZeroPriceNeverCompletes(t, settlementName, n - 1);
    }
  }

  /** A facility instance: a catalog entry bound to a settlement, with mutable progress. */
  class Facility {
    const ftype: FacilityType
    const settlementName: string
    var status: FacilityStatus
    var timeLeft: int

    function Value(): FacilityValue
      reads this
    {
      FacilityValue(ftype, settlementName, status, timeLeft)
    }

    /** Built from its parts ("from zero"). */
    constructor (name: string, settlementName: string, category: FacilityCategory, price: int,
                 lifeQualityScore: int, economyScore: int, environmentScore: int)
      ensures Value() == Initial(FacilityType(name, category, price, lifeQualityScore, economyScore, environmentScore), settlementName)
    {
      this.ftype := FacilityType(name, category, price, lifeQualityScore, economyScore, environmentScore);
      this.settlementName := settlementName;
      this.status := UnderConstruction;
      this.timeLeft := price;
    }

    /** Built from a catalog entry: same category, price and scores, counter at the price. */
    constructor FromType(t: FacilityType, settlementName: string)
      ensures Value() == Initial(t, settlementName)
    {
      this.ftype := t;
      this.settlementName := settlementName;
      this.status := UnderConstruction;
      this.timeLeft := t.price;
    }

    /** The copy constructor: an independent object with the same type, settlement, status and counter. */
    constructor Copy(other: Facility)
      ensures Value() == other.Value()
    {
      this.ftype := other.ftype;
      this.settlementName := other.settlementName;
      this.status := other.status;
      this.timeLeft := other.timeLeft;
    }

    /** Advances construction by one tick and returns the status after the update. */
    method Step() returns (s: FacilityStatus)
      modifies this
      ensures Value() == Tick(old(Value()))
      ensures s == status
    {
      if timeLeft > 0 {
        timeLeft := timeLeft - 1;
        if timeLeft == 0 {
          status := Operational;
        }
      }
      s := status;
    }

    /** Overwrites the status and nothing else. */
    method SetStatus(s: FacilityStatus)
      modifies this
      ensures status == s && timeLeft == old(timeLeft)
    {
      status := s;
    }
  }
}
