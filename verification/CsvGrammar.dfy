/**
 * The record grammar of section 2 of RFC 4180 as Go's encoding/csv writes and reads it
 * with its default settings. encoding/csv itself is not part of the repository.
 * It departs from the RFC in three documented ways: a CR directly before an LF (or at the
 * end of the input) is dropped, blank lines are skipped, and an empty field is written bare.
 */
module CsvGrammar {
  import opened CsvTypes

  // ----- writing

  predicate IsSpecial(c: byte) {
    c == COMMA || c == QUOTE || c == CR || c == LF
  }

  predicate Plain(field: Bytes) {
    field == [] || (!IsSpecial(field[0]) && Plain(field[1..]))
  }

  /** The UTF-8 encodings of the white space code points, at the start of a field. */
  predicate StartsWithSpace(f: Bytes) {
    || (|f| >= 1 && (9 <= f[0] <= 13 || f[0] == 0x20))
    || (|f| >= 2 && f[0] == 0xC2 && (f[1] == 0x85 || f[1] == 0xA0))
    || (|f| >= 3 && f[0] == 0xE1 && f[1] == 0x9A && f[2] == 0x80)
    || (|f| >= 3 && f[0] == 0xE2 && f[1] == 0x80 &&
        (0x80 <= f[2] <= 0x8A || f[2] == 0xA8 || f[2] == 0xA9 || f[2] == 0xAF))
    || (|f| >= 3 && f[0] == 0xE2 && f[1] == 0x81 && f[2] == 0x9F)
    || (|f| >= 3 && f[0] == 0xE3 && f[1] == 0x80 && f[2] == 0x80)
  }

  predicate NeedsQuotes(field: Bytes) {
    field != [] && ((|field| == 2 && field[0] == 0x5C && field[1] == 0x2E) || !Plain(field) || StartsWithSpace(field))
  }

  function Escape(field: Bytes): Bytes {
    if field == [] then []
    else if field[0] == QUOTE then [QUOTE, QUOTE] + Escape(field[1..])
    else [field[0]] + Escape(field[1..])
  }

  function WriteField(field: Bytes): Bytes {
    if NeedsQuotes(field) then [QUOTE] + Escape(field) + [QUOTE] else field
  }

  function WriteRecord(record: Record): Bytes {
    if record == [] then [LF]
    else if |record| == 1 then WriteField(record[0]) + [LF]
    else WriteField(record[0]) + [COMMA] + WriteRecord(record[1..])
  }

  // ----- reading

  /** Nothing is left but, at most, the CR that is dropped before the end of the input. */
  predicate AtEnd(b: Bytes) {
    |b| == 0 || (|b| == 1 && b[0] == CR)
  }

  function NewlineLength(b: Bytes): (n: nat)
    ensures n <= |b|
  {
    if |b| >= 1 && b[0] == LF then 1
    else if |b| >= 2 && b[0] == CR && b[1] == LF then 2
    else 0
  }

  function AfterLine(b: Bytes): (rest: Bytes)
    ensures |rest| <= |b|
    ensures b != [] ==> |rest| < |b|
  {
    if b == [] then [] else if b[0] == LF then b[1..] else AfterLine(b[1..])
  }

  /** A field with what follows it, or the rest after the line that holds a syntax error. */
  datatype FieldResult =
    | Field(value: Bytes, more: bool, rest: Bytes)
    | BadField(rest: Bytes)
  {
    function Prepend(c: byte): FieldResult {
      match this
      case Field(value, more, rest) => Field([c] + value, more, rest)
      case BadField(_) => this
    }
  }

  function ReadBare(b: Bytes): (r: FieldResult)
    ensures |r.rest| <= |b|
    ensures b != [] || (r.Field? && r.more) ==> |r.rest| < |b|
    decreases |b|
  {
    if AtEnd(b) then Field([], false, [])
    else if NewlineLength(b) > 0 then Field([], false, b[NewlineLength(b)..])
    else if b[0] == COMMA then Field([], true, b[1..])
    else if b[0] == QUOTE then BadField(AfterLine(b))
    else ReadBare(b[1..]).Prepend(b[0])
  }

  function ReadQuoted(b: Bytes): (r: FieldResult)
    ensures |r.rest| <= |b|
    ensures r.Field? && r.more ==> |r.rest| < |b|
    decreases |b|
  {
    if AtEnd(b) then BadField([])
    else if NewlineLength(b) > 0 then ReadQuoted(b[NewlineLength(b)..]).Prepend(LF)
    else if b[0] != QUOTE then ReadQuoted(b[1..]).Prepend(b[0])
    else
      var t := b[1..];
      if t != [] && t[0] == QUOTE then ReadQuoted(t[1..]).Prepend(QUOTE)
      else if t != [] && t[0] == COMMA then Field([], true, t[1..])
      else if AtEnd(t) then Field([], false, [])
      else if NewlineLength(t) > 0 then Field([], false, t[NewlineLength(t)..])
      else BadField(AfterLine(t))
  }

  function ReadField(b: Bytes): (r: FieldResult)
    ensures |r.rest| <= |b|
    ensures b != [] || (r.Field? && r.more) ==> |r.rest| < |b|
  {
    if b != [] && b[0] == QUOTE then ReadQuoted(b[1..]) else ReadBare(b)
  }

  datatype ReadResult =
    | Fields(record: Record, rest: Bytes)
    | Malformed(rest: Bytes)
    | EndOfInput(rest: Bytes)

  function PrependField(value: Bytes, r: ReadResult): ReadResult {
    if r.Fields? then Fields([value] + r.record, r.rest) else r
  }

  function ReadFields(b: Bytes): (r: ReadResult)
    ensures !r.EndOfInput? && |r.rest| <= |b|
    ensures r.Fields? ==> r.record != []
    ensures b != [] ==> |r.rest| < |b|
    decreases |b|
  {
    match ReadField(b)
    case BadField(rest) => Malformed(rest)
    case Field(value, more, rest) =>
      if !more then Fields([value], rest)
      else PrependField(value, ReadFields(rest))
  }

  /** One call of csv.Reader.Read: skip blank lines, then parse a record. */
  function ReadRecord(b: Bytes): (r: ReadResult)
    ensures |r.rest| <= |b|
    ensures !r.EndOfInput? ==> |r.rest| < |b|
    ensures r.EndOfInput? ==> r.rest == []
    ensures r.Fields? ==> r.record != []
    decreases |b|
  {
    if AtEnd(b) then EndOfInput([])
    else if NewlineLength(b) > 0 then ReadRecord(b[NewlineLength(b)..])
    else ReadFields(b)
  }

  // ----- what reading makes of what was written

  /** A cell as it comes back: every CR directly before an LF is lost. */
  function Unix(field: Bytes): (r: Bytes)
    ensures |r| <= |field|
  {
    if field == [] then []
    else if |field| >= 2 && field[0] == CR && field[1] == LF then Unix(field[1..])
    else [field[0]] + Unix(field[1..])
  }

  /** Some CR stands directly before an LF. */
  predicate HasCrlf(field: Bytes) {
    |field| >= 2 && ((field[0] == CR && field[1] == LF) || HasCrlf(field[1..]))
  }

  function UnixAll(record: Record): (r: Record)
    ensures |r| == |record|
  {
    if record == [] then [] else [Unix(record[0])] + UnixAll(record[1..])
  }

  lemma {:induction false} UnixAllAt(record: Record, i: nat)
    requires i < |record|
    ensures UnixAll(record)[i] == Unix(record[i])
  {
    if i > 0 {
      UnixAllAt(record[1..], i - 1);
    }
  }

  lemma {:induction false} UnixShortensExactlyWithCrlf(field: Bytes)
    ensures if HasCrlf(field) then |Unix(field)| < |field| else Unix(field) == field
  {
    if field != [] {
      UnixShortensExactlyWithCrlf(field[1..]);
    }
  }

  lemma {:induction false} ReadBareField(f: Bytes, separator: byte, tail: Bytes)
    requires Plain(f)
    requires separator == COMMA || separator == LF
    ensures ReadBare(f + [separator] + tail) == Field(f, separator == COMMA, tail)
  {
    var b := f + [separator] + tail;
    if f == [] {
      assert b[1..] == tail;
    } else {
      assert b[1..] == f[1..] + [separator] + tail;
      assert b[0] == f[0] && !IsSpecial(f[0]);
      ReadBareField(f[1..], separator, tail);
    }
  }

  lemma FirstByte(c: byte, e: Bytes, end: Bytes)
    ensures ([c] + e + end)[0] == c && ([c] + e + end)[1..] == e + end
  {
  }

  lemma ReadQuotedByte(c: byte, e: Bytes, end: Bytes)
    requires c != QUOTE && e + end != [] && !(c == CR && (e + end)[0] == LF)
    ensures ReadQuoted([c] + e + end) == ReadQuoted(e + end).Prepend(c)
  {
    FirstByte(c, e, end);
    PlainByteOfQuoted([c] + e + end);
  }

  lemma PlainByteOfQuoted(b: Bytes)
    requires |b| >= 2 && b[0] != QUOTE && !(b[0] == CR && b[1] == LF)
    ensures ReadQuoted(b) == ReadQuoted(b[1..]).Prepend(b[0])
  {
  }

  lemma ReadQuotedCrlf(e: Bytes, end: Bytes)
    ensures ReadQuoted([CR] + ([LF] + e) + end) == ReadQuoted([LF] + e + end)
  {
    assert ([LF] + e + end)[1..] == e + end;
    assert ([CR] + ([LF] + e) + end)[2..] == e + end;
  }

  lemma ReadQuotedQuote(e: Bytes, end: Bytes)
    ensures ReadQuoted([QUOTE, QUOTE] + e + end) == ReadQuoted(e + end).Prepend(QUOTE)
  {
    assert ([QUOTE, QUOTE] + e + end)[1..] == [QUOTE] + e + end;
    assert ([QUOTE] + e + end)[1..] == e + end;
  }

  /** What one byte (or one CR LF pair) of a quoted field contributes. */
  lemma ReadQuotedBody(f: Bytes, end: Bytes)
    requires f != [] && end != [] && end[0] == QUOTE
    ensures ReadQuoted(Escape(f) + end) ==
            if |f| >= 2 && f[0] == CR && f[1] == LF then ReadQuoted(Escape(f[1..]) + end)
            else ReadQuoted(Escape(f[1..]) + end).Prepend(f[0])
  {
    var rest := f[1..];
    EscapeStart(rest);
    if f[0] == QUOTE {
      ReadQuotedQuote(Escape(rest), end);
    } else if |f| >= 2 && f[0] == CR && f[1] == LF {
      assert Escape(rest) == [LF] + Escape(rest[1..]);
      ReadQuotedCrlf(Escape(rest[1..]), end);
    } else {
      ReadQuotedByte(f[0], Escape(rest), end);
    }
  }

  lemma {:induction false} ReadQuotedField(f: Bytes, separator: byte, tail: Bytes)
    requires separator == COMMA || separator == LF
    ensures ReadQuoted(Escape(f) + ([QUOTE, separator] + tail)) == Field(Unix(f), separator == COMMA, tail)
  {
    var end := [QUOTE, separator] + tail;
    if f == [] {
      assert Escape(f) + end == end;
      assert end[1..] == [separator] + tail;
      assert ([separator] + tail)[1..] == tail;
    } else {
      ReadQuotedBody(f, end);
      ReadQuotedField(f[1..], separator, tail);
    }
  }

  lemma EscapeStart(f: Bytes)
    ensures f != [] ==> Escape(f) != [] && Escape(f)[0] == f[0]
  {
  }

  lemma ReadFieldQuoted(e: Bytes)
    ensures ReadField([QUOTE] + e) == ReadQuoted(e)
  {
    assert ([QUOTE] + e)[1..] == e;
  }

  lemma ReadFieldBare(f: Bytes, separator: byte, tail: Bytes)
    requires Plain(f)
    requires separator == COMMA || separator == LF
    ensures ReadField(f + [separator] + tail) == Field(f, separator == COMMA, tail)
  {
    ReadBareField(f, separator, tail);
    assert (f + [separator] + tail)[0] == (if f == [] then separator else f[0]);
  }

  lemma ReadFieldOfWritten(f: Bytes, separator: byte, tail: Bytes)
    requires separator == COMMA || separator == LF
    ensures ReadField(WriteField(f) + [separator] + tail) == Field(Unix(f), separator == COMMA, tail)
  {
    if NeedsQuotes(f) {
      var e := Escape(f) + ([QUOTE, separator] + tail);
      assert WriteField(f) + [separator] + tail == [QUOTE] + e;
      ReadFieldQuoted(e);
      ReadQuotedField(f, separator, tail);
    } else {
      PlainIsUnix(f);
      ReadFieldBare(f, separator, tail);
    }
  }

  lemma {:induction false} PlainIsUnix(f: Bytes)
    requires Plain(f)
    ensures Unix(f) == f
  {
    if f != [] {
      PlainIsUnix(f[1..]);
    }
  }

  lemma ReadFieldsStep(f: Bytes, separator: byte, tail: Bytes)
    requires separator == COMMA || separator == LF
    ensures ReadFields(WriteField(f) + [separator] + tail) ==
            if separator == LF then Fields([Unix(f)], tail) else PrependField(Unix(f), ReadFields(tail))
  {
    ReadFieldOfWritten(f, separator, tail);
  }

  lemma {:induction false} ReadFieldsOfWritten(record: Record, tail: Bytes)
    requires record != []
    ensures ReadFields(WriteRecord(record) + tail) == Fields(UnixAll(record), tail)
  {
    if |record| == 1 {
      ReadFieldsStep(record[0], LF, tail);
      assert UnixAll(record) == [Unix(record[0])];
    } else {
      var rest := WriteRecord(record[1..]) + tail;
      assert WriteRecord(record) + tail == WriteField(record[0]) + [COMMA] + rest;
      ReadFieldsStep(record[0], COMMA, rest);
      ReadFieldsOfWritten(record[1..], tail);
    }
  }

  /** The only record whose text is a blank line, which the reader skips. */
  predicate IsBlank(record: Record) {
    |record| == 1 && |record[0]| == 0
  }

  /** Reading what was written returns the record, CR LF folded to LF; a blank record vanishes. */
  lemma ReadRecordOfWritten(record: Record, tail: Bytes)
    requires record != []
    ensures IsBlank(record) ==> ReadRecord(WriteRecord(record) + tail) == ReadRecord(tail)
    ensures !IsBlank(record) ==> ReadRecord(WriteRecord(record) + tail) == Fields(UnixAll(record), tail)
  {
    var b := WriteRecord(record) + tail;
    if IsBlank(record) {
      assert b[1..] == tail;
    } else {
      ReadFieldsOfWritten(record, tail);
      var first := record[0];
      if first == [] {
        assert |record| > 1 && b[0] == COMMA;
      } else if NeedsQuotes(first) {
        assert b[0] == QUOTE;
      } else {
        assert b[0] == first[0] && !IsSpecial(first[0]);
      }
    }
  }
}
