/**
 * The validation rules for editing a table: a required name of at most 255
 * characters, a required whole capacity from 1 to 20, required positions
 * from 0 to 1000, and an optional status among the five enum names.
 * Authorisation always succeeds, so only these rules decide.
 */
module TableRequest {
  import opened Wrappers
  import opened Models

  const MaxNameLength: nat := 255
  const MinCapacity: int := 1
  const MaxCapacity: int := 20
  const MaxPosition: real := 1000.0

  /** The edit form's fields; an absent field is None. */
  datatype TableInput = TableInput(
    name: Option<string>,
    capacity: Option<int>,
    positionX: Option<real>,
    positionY: Option<real>,
    status: Option<string>)

  datatype TableField = NameInput | CapacityInput | PositionXInput | PositionYInput | TableStatusInput

  /** The characters PHP's `trim` removes. */
  predicate IsTrimmed(c: char) {
    c == ' ' || c == '\t' || c == '\n' || c == '\r' || c == '\0' || c == '\U{B}'
  }

  /** The `required` rule on a string: absent, empty and all-blank values fail. */
  predicate Filled(s: Option<string>) {
    s.Some? && exists i :: 0 <= i < |s.value| && !IsTrimmed(s.value[i])
  }

  predicate InRange(x: Option<real>) {
    x.Some? && 0.0 <= x.value <= MaxPosition
  }

  /** The fields that fail their rule. */
  function TableInputErrors(input: TableInput): set<TableField> {
    (if !Filled(input.name) || |input.name.value| > MaxNameLength then {NameInput} else {})
    + (if input.capacity.None? || !(MinCapacity <= input.capacity.value <= MaxCapacity) then {CapacityInput} else {})
    + (if !InRange(input.positionX) then {PositionXInput} else {})
    + (if !InRange(input.positionY) then {PositionYInput} else {})
    + (if input.status.Some? && ParseStatus(input.status.value).None? then {TableStatusInput} else {})
  }

  /**
   * An input is accepted exactly when every field rule holds; then it
   * carries a name of 1 to 255 characters, a capacity from 1 to 20,
   * positions in [0, 1000], and a status that is absent or one of the five.
   */
  lemma AcceptedIffRulesHold(input: TableInput)
    ensures TableInputErrors(input) == {} <==>
      && input.name.Some? && 0 < |input.name.value| <= MaxNameLength && Filled(input.name)
      && input.capacity.Some? && MinCapacity <= input.capacity.value <= MaxCapacity
      && input.positionX.Some? && 0.0 <= input.positionX.value <= MaxPosition
      && input.positionY.Some? && 0.0 <= input.positionY.value <= MaxPosition
      && (input.status.None? || exists s :: input.status.value == StatusName(s))
  {
  }
}
