/** The reversible spreadsheet guard put in front of dangerous cells. */
module CsvCell {
  import opened CsvTypes

  predicate IsTrigger(c: byte) {
    c == '=' as byte || c == '+' as byte || c == '-' as byte || c == '@' as byte ||
    c == TAB || c == CR || c == LF
  }

  predicate IsFormulaTrigger(value: Bytes) {
    value != [] && IsTrigger(value[0])
  }

  function Encode(value: Bytes): Bytes {
    if value != [] && (value[0] == APOSTROPHE || IsFormulaTrigger(value)) then
      [APOSTROPHE] + value
    else
      value
  }

  function Decode(value: Bytes): Bytes {
    if |value| < 2 || value[0] != APOSTROPHE then
      value
    else if value[1] == APOSTROPHE || IsFormulaTrigger(value[1..]) then
      value[1..]
    else
      value
  }

  /** No encoded cell starts a formula, and decoding restores every cell. */
  lemma EncodeIsSafeAndReversible(value: Bytes)
    ensures !IsFormulaTrigger(Encode(value))
    ensures Decode(Encode(value)) == value
  {
  }

  /** The bytes after which a spreadsheet takes a cell for a formula, and the apostrophe that guards them. */
  ghost predicate NeedsGuard(c: byte) {
    c == 9 || c == 10 || c == 13 || c == 39 || c == 43 || c == 45 || c == 61 || c == 64
  }

  /** A cell is changed exactly when it starts with such a byte, and then by one apostrophe before it. */
  lemma EncodeGuardsExactly(value: Bytes)
    ensures Encode(value) == if value != [] && NeedsGuard(value[0]) then [39 as byte] + value else value
    ensures value == [] || Encode(value)[0] == 39 || !NeedsGuard(Encode(value)[0])
  {
    assert value != [] ==> ([39 as byte] + value)[0] == 39;
  }

  /** What Encode can produce: no leading trigger, and an apostrophe only as a guard. */
  predicate Guarded(value: Bytes) {
    && !IsFormulaTrigger(value)
    && (value != [] && value[0] == APOSTROPHE ==>
          |value| >= 2 && (value[1] == APOSTROPHE || IsTrigger(value[1])))
  }

  /** Re-encoding a decoded cell restores exactly the guarded cells: these are the image of Encode. */
  lemma DecodeIsReversibleOnGuardedCells(value: Bytes)
    ensures Encode(Decode(value)) == value <==> Guarded(value)
    ensures Guarded(Encode(value))
  {
  }

  function EncodeAll(record: Record): (r: Record)
    ensures |r| == |record|
  {
    if record == [] then [] else [Encode(record[0])] + EncodeAll(record[1..])
  }

  function DecodeAll(record: Record): (r: Record)
    ensures |r| == |record|
  {
    if record == [] then [] else [Decode(record[0])] + DecodeAll(record[1..])
  }

  lemma {:induction false} AllAt(record: Record, i: nat)
    requires i < |record|
    ensures EncodeAll(record)[i] == Encode(record[i])
    ensures DecodeAll(record)[i] == Decode(record[i])
  {
    if i > 0 {
      AllAt(record[1..], i - 1);
    }
  }
}
