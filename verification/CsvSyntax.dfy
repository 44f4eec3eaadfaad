/**
 * What the record grammar makes of any text, well formed or not: every field is given by the text up
 * to the byte that ends it, so nothing here relies on a writer.
 */
module CsvSyntax {
  import opened CsvTypes
  import opened CsvGrammar

  /** What is left after a syntax error starts behind the next newline. */
  lemma {:induction false} AfterLineMeans(line: Bytes, tail: Bytes)
    requires LF !in line
    ensures AfterLine(line + [LF] + tail) == tail
    ensures AfterLine(line) == []
  {
    if line == [] {
      assert ([LF] + tail)[1..] == tail;
      assert line + [LF] + tail == [LF] + tail;
    } else {
      AfterLineMeans(line[1..], tail);
      assert (line + [LF] + tail)[1..] == line[1..] + [LF] + tail;
    }
  }

  // ----- a field without quotes

  ghost predicate EndsBare(c: byte) {
    c == COMMA || c == QUOTE || c == LF
  }

  /** The text of a bare field: no comma, quote or newline; a CR may stand in it. */
  ghost predicate IsBareText(f: Bytes) {
    forall i :: 0 <= i < |f| ==> !EndsBare(f[i])
  }

  /** A CR before the newline or the end of the input does not belong to the field. */
  ghost function WithoutCr(f: Bytes): Bytes {
    if f != [] && f[|f| - 1] == CR then f[..|f| - 1] else f
  }

  /** The outcome of a bare field with the given text before a given end. */
  ghost function BareOutcome(f: Bytes, end: Bytes): FieldResult
    requires end == [] || EndsBare(end[0])
  {
    if end == [] then Field(WithoutCr(f), false, [])
    else if end[0] == COMMA then Field(f, true, end[1..])
    else if end[0] == LF then Field(WithoutCr(f), false, end[1..])
    else BadField(AfterLine(end))
  }

  lemma BareByte(b: Bytes)
    requires b != [] && !EndsBare(b[0]) && !(b[0] == CR && (|b| == 1 || b[1] == LF))
    ensures ReadBare(b) == ReadBare(b[1..]).Prepend(b[0])
  {
  }

  lemma BareEnd(f: Bytes, end: Bytes)
    requires end == [] || EndsBare(end[0])
    requires f == [] || (f == [CR] && (end == [] || end[0] == LF))
    ensures ReadBare(f + end) == BareOutcome(f, end)
  {
    assert f == [] ==> f + end == end;
    assert f == [CR] && end != [] ==> (f + end)[2..] == end[1..];
  }

  lemma BareOutcomeStep(f: Bytes, end: Bytes)
    requires f != [] && (end == [] || EndsBare(end[0]))
    requires !(f == [CR] && (end == [] || end[0] == LF))
    ensures BareOutcome(f, end) == BareOutcome(f[1..], end).Prepend(f[0])
  {
    assert f == [f[0]] + f[1..];
    assert |f| > 1 ==> WithoutCr(f) == [f[0]] + WithoutCr(f[1..]);
  }

  /** A quote inside a bare field is a syntax error; a comma, a newline or the end of the input ends it. */
  lemma {:induction false} BareFieldExactly(f: Bytes, end: Bytes)
    requires IsBareText(f) && (end == [] || EndsBare(end[0]))
    ensures ReadBare(f + end) == BareOutcome(f, end)
  {
    if f == [] || (f == [CR] && (end == [] || end[0] == LF)) {
      BareEnd(f, end);
    } else {
      assert (f + end)[1..] == f[1..] + end;
      BareFieldExactly(f[1..], end);
      BareOutcomeStep(f, end);
      BareByte(f + end);
    }
  }

  // ----- a quoted field

  /** The outcome of a quoted field with the given content and the text behind its closing quote. */
  ghost function QuotedOutcome(f: Bytes, t: Bytes): FieldResult {
    if t == [] || t == [CR] then Field(Unix(f), false, [])
    else if t[0] == COMMA then Field(Unix(f), true, t[1..])
    else if t[0] == LF then Field(Unix(f), false, t[1..])
    else if t[0] == CR && t[1] == LF then Field(Unix(f), false, t[2..])
    else BadField(AfterLine(t))
  }

  lemma QuotedEnd(t: Bytes)
    requires t == [] || t[0] != QUOTE
    ensures ReadQuoted([QUOTE] + t) == QuotedOutcome([], t)
  {
    assert ([QUOTE] + t)[1..] == t;
  }

  lemma UnclosedByte(c: byte, e: Bytes)
    requires c != QUOTE && ReadQuoted(e) == BadField([])
    requires c == CR && e != [] && e[0] == LF ==> ReadQuoted(e[1..]) == BadField([])
    ensures ReadQuoted([c] + e) == BadField([])
  {
    var b := [c] + e;
    assert b[1..] == e;
    assert e != [] ==> b[2..] == e[1..];
  }

  lemma UnclosedQuote(e: Bytes)
    requires ReadQuoted(e) == BadField([])
    ensures ReadQuoted([QUOTE, QUOTE] + e) == BadField([])
  {
    assert ([QUOTE, QUOTE] + e)[1..] == [QUOTE] + e && ([QUOTE] + e)[1..] == e;
  }

  lemma EscapeNext(f: Bytes)
    ensures f != [] && f[0] == LF ==> Escape(f)[1..] == Escape(f[1..])
  {
  }

  /** A field whose quote is never closed is refused, with all that follows. */
  lemma {:induction false} UnclosedIsRefused(f: Bytes)
    ensures ReadQuoted(Escape(f)) == BadField([])
  {
    if f != [] {
      var rest := f[1..];
      UnclosedIsRefused(rest);
      if f[0] == QUOTE {
        UnclosedQuote(Escape(rest));
      } else {
        EscapeStart(rest);
        EscapeNext(rest);
        if rest != [] {
          UnclosedIsRefused(rest[1..]);
        }
        UnclosedByte(f[0], Escape(rest));
      }
    }
  }

  lemma QuotedOutcomeStep(f: Bytes, t: Bytes)
    requires f != []
    ensures QuotedOutcome(f, t) ==
            if |f| >= 2 && f[0] == CR && f[1] == LF then QuotedOutcome(f[1..], t)
            else QuotedOutcome(f[1..], t).Prepend(f[0])
  {
  }

  /** With anything but a comma, a newline or the end of the input behind its closing quote, a field is refused. */
  lemma {:induction false} QuotedFieldExactly(f: Bytes, t: Bytes)
    requires t == [] || t[0] != QUOTE
    ensures ReadQuoted(Escape(f) + ([QUOTE] + t)) == QuotedOutcome(f, t)
  {
    if f == [] {
      assert Escape(f) + ([QUOTE] + t) == [QUOTE] + t;
      QuotedEnd(t);
    } else {
      QuotedFieldExactly(f[1..], t);
      QuotedOutcomeStep(f, t);
      ReadQuotedBody(f, [QUOTE] + t);
    }
  }

  /** So the first byte of any text decides how its first field is read, and its end what becomes of it. */
  lemma FieldExactly(f: Bytes, end: Bytes, t: Bytes)
    requires (end == [] || EndsBare(end[0])) && (t == [] || t[0] != QUOTE)
    ensures IsBareText(f) && !(f + end != [] && (f + end)[0] == QUOTE) ==> ReadField(f + end) == BareOutcome(f, end)
    ensures ReadField([QUOTE] + (Escape(f) + ([QUOTE] + t))) == QuotedOutcome(f, t)
    ensures ReadField([QUOTE] + Escape(f)) == BadField([])
  {
    if IsBareText(f) {
      BareFieldExactly(f, end);
    }
    QuotedFieldExactly(f, t);
    ReadFieldQuoted(Escape(f) + ([QUOTE] + t));
    UnclosedIsRefused(f);
    ReadFieldQuoted(Escape(f));
  }

  // ----- records

  /** The text at which each field of a record starts, and what follows the record. */
  ghost predicate AreFields(texts: seq<Bytes>, record: Record) {
    && |texts| == |record| + 1
    && forall i :: 0 <= i < |record| ==> ReadField(texts[i]) == Field(record[i], i < |record| - 1, texts[i + 1])
  }

  /** The fields before a syntax error, the text of the refused field, and what follows its line. */
  ghost predicate AreFieldsUpToError(texts: seq<Bytes>, record: Record, rest: Bytes) {
    && |texts| == |record| + 1
    && (forall i :: 0 <= i < |record| ==> ReadField(texts[i]) == Field(record[i], true, texts[i + 1]))
    && ReadField(texts[|record|]) == BadField(rest)
  }

  /** A record holds its fields from left to right, and one refused field refuses the record. */
  lemma {:induction false} RecordIsItsFields(b: Bytes) returns (texts: seq<Bytes>, record: Record)
    ensures texts != [] && texts[0] == b
    ensures match ReadFields(b)
            case Fields(read, rest) => read == record && AreFields(texts, record) && texts[|record|] == rest
            case Malformed(rest) => AreFieldsUpToError(texts, record, rest)
            case EndOfInput(_) => false
    decreases |b|
  {
    match ReadField(b)
    case BadField(rest) => texts, record := [b], [];
    case Field(value, false, rest) => texts, record := [b, rest], [value];
    case Field(value, true, rest) =>
      var more, fields := RecordIsItsFields(rest);
      texts, record := [b] + more, [value] + fields;
  }

  /** Blank lines are skipped, and a file that holds nothing else has ended. */
  lemma BlankLinesAreSkipped(b: Bytes)
    ensures ReadRecord([LF] + b) == ReadRecord([CR, LF] + b) == ReadRecord(b)
    ensures ReadRecord([]) == ReadRecord([CR]) == EndOfInput([])
    ensures b != [] && b != [CR] && b[0] != LF && !(|b| > 1 && b[0] == CR && b[1] == LF) ==>
              ReadRecord(b) == ReadFields(b)
  {
    assert ([LF] + b)[1..] == b && ([CR, LF] + b)[2..] == b;
  }
}
