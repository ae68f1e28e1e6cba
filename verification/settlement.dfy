/** The part of a settlement that the construction engine needs: its class. */
module Settlements {
  /** Declaration order fixes the ordinal: VILLAGE = 0, CITY = 1, METROPOLIS = 2. */
  datatype SettlementType = Village | City | Metropolis

  datatype Settlement = Settlement(name: string, settlementType: SettlementType)

  function Ordinal(t: SettlementType): nat
  {
    match t
    case Village => 0
    case City => 1
    case Metropolis => 2
  }

  /** How many facilities a plan for a settlement of this class builds at once. */
  function ConstructionCapacity(t: SettlementType): (cap: nat)
    ensures 1 <= cap <= 3
    ensures cap == Ordinal(t) + 1
    ensures forall u :: Ordinal(u) + 1 == cap ==> u == t
  {
    Ordinal(t) + 1
  }
}
