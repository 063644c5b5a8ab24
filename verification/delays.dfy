/** The delay table: the propagation delay of a component, by type name. */
module Delays {

  /** Delay given to any type the table does not list. */
  const DefaultDelay: real := 1.0

  /** The listed component types and their delays, in time units. */
  const Table: map<string, real> := map[
    "INPUT" := 0.0,
    "OUTPUT" := 0.0,
    "ADD" := 1.0,
    "MUL" := 1.0,
    "REG" := 0.2
  ]

  /** Delay of a component type: ports are free, adders and multipliers
      cost one unit, a register costs a fifth of a unit, and any other
      type (a multiplexer, say) is charged the default unit. */
  function GetDelay(kind: string): (d: real)
    ensures kind == "INPUT" || kind == "OUTPUT" ==> d == 0.0
    ensures kind == "ADD" || kind == "MUL" ==> d == 1.0
    ensures kind == "REG" ==> d == 0.2
    ensures kind != "INPUT" && kind != "OUTPUT" && kind != "ADD" && kind != "MUL" && kind != "REG"
            ==> d == 1.0
    ensures 0.0 <= d <= 1.0
  {
    if kind in Table then Table[kind] else DefaultDelay
  }
}
