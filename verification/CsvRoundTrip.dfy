/** What the reader makes of a file the writer produced, and exactly when it is the same file. */
module CsvRoundTrip {
  import opened GoValues
  import opened CsvTypes
  import opened CsvGrammar
  import opened CsvReader
  import CsvCell
  import CsvWriter
  import CsvLimits

  // ----- one cell

  lemma {:induction false} UnixCommutesWithEncode(cell: Bytes)
    ensures Unix(CsvCell.Encode(cell)) == CsvCell.Encode(Unix(cell))
    ensures CsvCell.Decode(Unix(CsvCell.Encode(cell))) == Unix(cell)
  {
    var guarded := [APOSTROPHE] + cell;
    assert guarded[1..] == cell;
    assert Unix(guarded) == [APOSTROPHE] + Unix(cell);
    if cell != [] {
      assert Unix(cell) != [] && (Unix(cell)[0] == cell[0] || (cell[0] == CR && Unix(cell)[0] == LF));
    }
    CsvCell.EncodeIsSafeAndReversible(Unix(cell));
  }

  lemma UnixCommutesWithEncodeAll(record: Record)
    ensures CsvCell.DecodeAll(UnixAll(CsvCell.EncodeAll(record))) == UnixAll(record)
    ensures IsBlank(CsvCell.EncodeAll(record)) <==> IsBlank(record)
  {
    forall i | 0 <= i < |record|
      ensures CsvCell.DecodeAll(UnixAll(CsvCell.EncodeAll(record)))[i] == UnixAll(record)[i]
    {
      CsvCell.AllAt(record, i);
      UnixAllAt(record, i);
      UnixAllAt(CsvCell.EncodeAll(record), i);
      CsvCell.AllAt(UnixAll(CsvCell.EncodeAll(record)), i);
      UnixCommutesWithEncode(record[i]);
    }
  }

  /** A guarded key never comes back as it was: the reader does not decode header keys. */
  lemma {:induction false} PrefixedUnixDiffers(c: byte, key: Bytes)
    requires c != CR
    ensures [c] + Unix(key) != key
  {
    if [c] + Unix(key) == key {
      var rest := key[1..];
      assert key == [c] + rest;
      assert Unix(key) == [c] + Unix(rest);
      assert rest == ([c] + Unix(key))[1..] == Unix(key);
      PrefixedUnixDiffers(c, rest);
    }
  }

  predicate KeySurvives(key: Bytes) {
    CsvCell.Encode(key) == key && !HasCrlf(key)
  }

  lemma KeySurvivesExactly(key: Bytes)
    ensures Unix(CsvCell.Encode(key)) == key <==> KeySurvives(key)
    ensures TrimBom(Unix(CsvCell.Encode(key))) == key <==> KeySurvives(key) && !(BOM <= key)
  {
    UnixShortensExactlyWithCrlf(key);
    if CsvCell.Encode(key) != key {
      PrefixedUnixDiffers(APOSTROPHE, key);
      UnixCommutesWithEncode(key);
      assert ([APOSTROPHE] + key)[1..] == key;
      assert Unix([APOSTROPHE] + key)[0] == APOSTROPHE;
    } else if HasCrlf(key) {
      assert |TrimBom(Unix(key))| < |key|;
    }
  }

  // ----- the rows

  predicate Fits(row: Record, policy: Policy) {
    forall i :: 0 <= i < |row| ==> |Unix(CsvCell.Encode(row[i]))| <= policy.maxFieldBytes
  }

  predicate Rectangular(rows: seq<Record>, width: nat) {
    rows == [] || (|rows[0]| == width && Rectangular(rows[1..], width))
  }

  /** What reading makes of one row: its cells guarded, then CR LF in them folded to LF, then judged. */
  function OutcomeOf(header: Record, policy: Policy, row: Record, line: nat): Outcome
    requires line > 0
  {
    Judge(header, policy, line, line - 1, UnixAll(CsvCell.EncodeAll(row)))
  }

  /** The rows as they come back, starting at a line: blank ones are gone, the others are judged. */
  function RowsRead(header: Record, policy: Policy, rows: seq<Record>, line: nat): (r: Rows)
    requires line > 0
    ensures r.Length() <= |rows|
  {
    if rows == [] then Stop(Finished)
    else if IsBlank(rows[0]) then RowsRead(header, policy, rows[1..], line)
    else
      var outcome := OutcomeOf(header, policy, rows[0], line);
      if outcome.IsStop() then Stop(outcome)
      else More(outcome, RowsRead(header, policy, rows[1..], line + 1))
  }

  /** The rows as they were written, numbered from a line, and then the end of the file. */
  function RowsWritten(header: Record, rows: seq<Record>, line: nat): (r: Rows)
    requires Rectangular(rows, |header|)
    ensures r.Length() == |rows|
  {
    if rows == [] then Stop(Finished)
    else More(Row(line, CellsOf(header, rows[0])), RowsWritten(header, rows[1..], line + 1))
  }

  /** A reader within the byte limit that stands at the start of the text of the rows. */
  ghost predicate AtRows(r: Reader, rows: seq<Record>) {
    && r.Valid()
    && r.rest == CsvWriter.FileText(rows)
    && r.total <= r.policy.maxBytes
    && r.nextLine == r.rowsRead + 2
    && r.header != [] && Rectangular(rows, |r.header|)
  }

  lemma ReadFirst(r: Reader, rows: seq<Record>)
    requires AtRows(r, rows) && rows != []
    ensures IsBlank(rows[0]) ==> |CsvWriter.FileText(rows[1..])| <= |r.rest|
                                 && ReadRecord(r.rest) == ReadRecord(CsvWriter.FileText(rows[1..]))
    ensures !IsBlank(rows[0]) ==>
              ReadRecord(r.rest) == Fields(UnixAll(CsvCell.EncodeAll(rows[0])), CsvWriter.FileText(rows[1..]))
  {
    UnixCommutesWithEncodeAll(rows[0]);
    ReadRecordOfWritten(CsvCell.EncodeAll(rows[0]), CsvWriter.FileText(rows[1..]));
  }

  lemma StepIgnoresRest(r: Reader, rest: Bytes, next: ReadResult)
    requires r.Valid() && |rest| <= r.total && |next.rest| <= r.total
    ensures StepOn(r, next) == StepOn(r.(rest := rest), next)
  {
  }

  lemma SameStepSameRows(r: Reader, r': Reader)
    requires r.Valid() && r'.Valid() && Step(r) == Step(r')
    ensures ReadAll(r) == ReadAll(r')
  {
  }

  lemma SkipBlank(r: Reader, rows: seq<Record>) returns (next: Reader)
    requires AtRows(r, rows) && rows != [] && IsBlank(rows[0])
    ensures AtRows(next, rows[1..])
    ensures next.header == r.header && next.policy == r.policy && next.nextLine == r.nextLine
    ensures ReadAll(r) == ReadAll(next)
  {
    next := r.(rest := CsvWriter.FileText(rows[1..]));
    ReadFirst(r, rows);
    StepIgnoresRest(r, next.rest, ReadRecord(r.rest));
    SameStepSameRows(r, next);
  }

  lemma StepOnFields(r: Reader, record: Record, rest: Bytes)
    requires r.Valid() && r.total <= r.policy.maxBytes && |rest| <= r.total
    ensures var (after, outcome) := StepOn(r, Fields(record, rest));
            && outcome == Judge(r.header, r.policy, r.nextLine, r.rowsRead + 1, record)
            && after == r.(rest := rest, pulled := after.pulled, rowsRead := r.rowsRead + 1, nextLine := r.nextLine + 1)
  {
  }

  /** What a call returned, and what later calls return unless it was the last. */
  function Then(outcome: Outcome, rest: Rows): Rows {
    if outcome.IsStop() then Stop(outcome) else More(outcome, rest)
  }

  lemma StepToRow(r: Reader, rows: seq<Record>) returns (next: Reader)
    requires AtRows(r, rows) && rows != [] && !IsBlank(rows[0])
    ensures AtRows(next, rows[1..]) && Step(r) == (next, OutcomeOf(r.header, r.policy, rows[0], r.nextLine))
    ensures next.header == r.header && next.policy == r.policy && next.nextLine == r.nextLine + 1
  {
    ReadFirst(r, rows);
    StepOnFields(r, UnixAll(CsvCell.EncodeAll(rows[0])), CsvWriter.FileText(rows[1..]));
    next := Step(r).0;
  }

  lemma ReadAllStep(r: Reader, next: Reader, outcome: Outcome)
    requires r.Valid() && Step(r) == (next, outcome)
    ensures ReadAll(r) == Then(outcome, ReadAll(next))
  {
  }

  lemma ReadNone(r: Reader)
    requires AtRows(r, [])
    ensures ReadAll(r) == Stop(Finished)
  {
    assert ReadRecord(r.rest) == EndOfInput([]);
  }

  lemma RowsReadOfRow(header: Record, policy: Policy, rows: seq<Record>, line: nat)
    requires rows != [] && line > 0 && !IsBlank(rows[0])
    ensures RowsRead(header, policy, rows, line) ==
            Then(OutcomeOf(header, policy, rows[0], line), RowsRead(header, policy, rows[1..], line + 1))
  {
  }

  lemma RowsReadOfBlank(header: Record, policy: Policy, rows: seq<Record>, line: nat)
    requires rows != [] && line > 0 && IsBlank(rows[0])
    ensures RowsRead(header, policy, rows, line) == RowsRead(header, policy, rows[1..], line)
  {
  }

  /** Reading from here on returns what the rows become. */
  ghost predicate ReadsRows(r: Reader, rows: seq<Record>)
    requires r.Valid() && r.nextLine > 0
  {
    ReadAll(r) == RowsRead(r.header, r.policy, rows, r.nextLine)
  }

  lemma ReadsAfterBlank(r: Reader, rows: seq<Record>) returns (next: Reader)
    requires AtRows(r, rows) && rows != [] && IsBlank(rows[0])
    ensures AtRows(next, rows[1..]) && next.nextLine > 0
    ensures ReadsRows(next, rows[1..]) ==> ReadsRows(r, rows)
  {
    next := SkipBlank(r, rows);
    RowsReadOfBlank(r.header, r.policy, rows, r.nextLine);
  }

  lemma ReadsThen(r: Reader, rows: seq<Record>, next: Reader)
    requires r.Valid() && next.Valid() && r.nextLine > 0 && rows != [] && !IsBlank(rows[0])
    requires Step(r) == (next, OutcomeOf(r.header, r.policy, rows[0], r.nextLine))
    requires next.header == r.header && next.policy == r.policy && next.nextLine == r.nextLine + 1
    ensures ReadsRows(next, rows[1..]) ==> ReadsRows(r, rows)
  {
    ReadAllStep(r, next, OutcomeOf(r.header, r.policy, rows[0], r.nextLine));
    RowsReadOfRow(r.header, r.policy, rows, r.nextLine);
  }

  lemma ReadsAfterRow(r: Reader, rows: seq<Record>) returns (next: Reader)
    requires AtRows(r, rows) && rows != [] && !IsBlank(rows[0])
    ensures AtRows(next, rows[1..]) && next.nextLine > 0
    ensures ReadsRows(next, rows[1..]) ==> ReadsRows(r, rows)
  {
    next := StepToRow(r, rows);
    ReadsThen(r, rows, next);
  }

  /** Reading the text of rows returns what each of them becomes, up to the first that is too long. */
  lemma {:induction false} ReadRows(r: Reader, rows: seq<Record>)
    requires AtRows(r, rows)
    ensures ReadAll(r) == RowsRead(r.header, r.policy, rows, r.nextLine)
    decreases |rows|
  {
    if rows == [] {
      ReadNone(r);
    } else if IsBlank(rows[0]) {
      var next := ReadsAfterBlank(r, rows);
      ReadRows(next, rows[1..]);
      assert ReadsRows(next, rows[1..]);
    } else {
      var next := ReadsAfterRow(r, rows);
      ReadRows(next, rows[1..]);
      assert ReadsRows(next, rows[1..]);
    }
  }

  // ----- the rows survive exactly when no cell is folded, dropped or too long

  predicate RowSurvives(row: Record, policy: Policy) {
    && !IsBlank(row)
    && forall i :: 0 <= i < |row| ==> !HasCrlf(row[i]) && |CsvCell.Encode(row[i])| <= policy.maxFieldBytes
  }

  /** The cells of distinct keys, taken apart again. */
  lemma LastCell(header: Record, values: Record, n: nat)
    requires 0 < n <= |header| == |values|
    requires forall i, j :: 0 <= i < j < |header| ==> header[i] != header[j]
    ensures var cells := CellsUpTo(header, values, n);
            var key := header[n - 1];
            key in cells && cells[key].raw == values[n - 1] && CellsUpTo(header, values, n - 1) == cells - {key}
  {
    CellKeys(header, values, n - 1);
    assert header[n - 1] !in CellsUpTo(header, values, n - 1);
  }

  lemma {:induction false} CellsDetermineValues(header: Record, a: Record, b: Record, n: nat)
    requires n <= |header| && |a| == |b| == |header|
    requires forall i, j :: 0 <= i < j < |header| ==> header[i] != header[j]
    requires CellsUpTo(header, a, n) == CellsUpTo(header, b, n)
    ensures forall i :: 0 <= i < n ==> a[i] == b[i]
  {
    if n > 0 {
      LastCell(header, a, n);
      LastCell(header, b, n);
      CellsDetermineValues(header, a, b, n - 1);
    }
  }

  lemma {:induction false} CellKeys(header: Record, values: Record, n: nat)
    requires n <= |header| && n <= |values|
    ensures CellsUpTo(header, values, n).Keys == set i | 0 <= i < n :: header[i]
  {
    if n > 0 {
      CellKeys(header, values, n - 1);
    }
  }

  lemma WrittenCellAt(row: Record, i: nat)
    requires i < |row|
    ensures UnixAll(CsvCell.EncodeAll(row))[i] == Unix(CsvCell.Encode(row[i]))
  {
    CsvCell.AllAt(row, i);
    UnixAllAt(CsvCell.EncodeAll(row), i);
  }

  lemma JudgeWritten(header: Record, policy: Policy, row: Record, line: nat)
    requires 0 < line <= policy.maxRows + 1 && |row| == |header|
    ensures var outcome := OutcomeOf(header, policy, row, line);
            if Fits(row, policy) then outcome == Row(line, CellsOf(header, UnixAll(row)))
            else outcome.Stopped?
  {
    UnixCommutesWithEncodeAll(row);
    var record := UnixAll(CsvCell.EncodeAll(row));
    forall i | 0 <= i < |record| ensures record[i] == Unix(CsvCell.Encode(row[i])) {
      WrittenCellAt(row, i);
    }
    assert CsvWriter.FirstTooLong(record, policy.maxFieldBytes).None? <==> Fits(row, policy);
  }

  lemma RowSurvivesExactly(header: Record, row: Record, policy: Policy)
    requires |row| == |header|
    requires forall i, j :: 0 <= i < j < |header| ==> header[i] != header[j]
    ensures RowSurvives(row, policy) <==>
            !IsBlank(row) && Fits(row, policy) && CellsOf(header, UnixAll(row)) == CellsOf(header, row)
  {
    forall i | 0 <= i < |row|
      ensures !HasCrlf(row[i]) <==> Unix(row[i]) == row[i]
      ensures !HasCrlf(row[i]) ==> Unix(CsvCell.Encode(row[i])) == CsvCell.Encode(row[i])
    {
      UnixShortensExactlyWithCrlf(row[i]);
      UnixCommutesWithEncode(row[i]);
    }
    forall i | 0 <= i < |row| ensures UnixAll(row)[i] == Unix(row[i]) {
      UnixAllAt(row, i);
    }
    if CellsOf(header, UnixAll(row)) == CellsOf(header, row) {
      CellsDetermineValues(header, UnixAll(row), row, |header|);
    }
    if forall i :: 0 <= i < |row| ==> !HasCrlf(row[i]) {
      assert UnixAll(row) == row;
    }
  }

  predicate AllSurvive(rows: seq<Record>, policy: Policy) {
    forall i :: 0 <= i < |rows| ==> RowSurvives(rows[i], policy)
  }

  lemma AllSurviveTail(rows: seq<Record>, policy: Policy)
    requires rows != []
    ensures AllSurvive(rows, policy) <==> RowSurvives(rows[0], policy) && AllSurvive(rows[1..], policy)
  {
    assert forall i :: 0 < i < |rows| ==> rows[i] == rows[1..][i - 1];
  }

  lemma {:induction false} RowsSurviveExactly(header: Record, rows: seq<Record>, policy: Policy, line: nat)
    requires forall i, j :: 0 <= i < j < |header| ==> header[i] != header[j]
    requires Rectangular(rows, |header|) && 0 < line && line - 1 + |rows| <= policy.maxRows + 1
    ensures AllSurvive(rows, policy) <==> RowsRead(header, policy, rows, line) == RowsWritten(header, rows, line)
  {
    if rows != [] {
      AllSurviveTail(rows, policy);
      RowSurvivesExactly(header, rows[0], policy);
      JudgeWritten(header, policy, rows[0], line);
      if IsBlank(rows[0]) {
        assert RowsRead(header, policy, rows, line).Length() < RowsWritten(header, rows, line).Length();
      } else {
        RowsSurviveExactly(header, rows[1..], policy, line + 1);
      }
    }
  }

  // ----- the header survives exactly when its keys are accepted fixed points of the guard

  predicate HeaderSurvives(header: Record, accepts: Bytes -> bool)
    requires header != []
  {
    && !IsBlank(header)
    && !(BOM <= header[0])
    && forall i :: 0 <= i < |header| ==> KeySurvives(header[i]) && !IsForbidden(header[i]) && accepts(header[i])
  }

  lemma TrimFirstPointwise(came: Record, header: Record)
    requires |came| == |header| > 0
    ensures TrimFirst(came) == header <==>
            TrimBom(came[0]) == header[0] && forall i :: 1 <= i < |header| ==> came[i] == header[i]
  {
  }

  lemma HeaderReadExactly(header: Record)
    requires header != []
    ensures TrimFirst(UnixAll(CsvCell.EncodeAll(header))) == header <==>
            !(BOM <= header[0]) && forall i :: 0 <= i < |header| ==> KeySurvives(header[i])
  {
    var came := UnixAll(CsvCell.EncodeAll(header));
    TrimFirstPointwise(came, header);
    forall i | 0 <= i < |header|
      ensures came[i] == header[i] <==> KeySurvives(header[i])
    {
      WrittenCellAt(header, i);
      KeySurvivesExactly(header[i]);
    }
    KeySurvivesExactly(header[0]);
    WrittenCellAt(header, 0);
  }

  /** What a caller gets from a file: the header and what Next returns, unless the header is refused. */
  datatype Contents = Unreadable | Contents(header: Record, rows: Rows)

  function ReadBack(text: Bytes, ahead: nat -> nat, accepts: Accepts, policy: Policy): Contents {
    match Open(Limited(text, policy), ahead, accepts, policy)
    case Refused(_, _) => Unreadable
    case Opened(r) => Contents(r.header, ReadAll(r))
  }

  /** A file that CSVWriter closes without an error: NewCSVWriter and every WriteRow accepted it. */
  ghost predicate Written(header: Record, rows: seq<Record>, policy: Policy) {
    && policy.Valid()
    && CsvWriter.HeaderOk(header, policy)
    && |rows| <= policy.maxRows
    && (forall i :: 0 <= i < |rows| ==> CsvWriter.RowError(rows[i], i, |header|, policy).None?)
    && |CsvWriter.FileText([header] + rows)| <= policy.maxBytes
  }

  lemma {:induction false} RowsAreRectangular(rows: seq<Record>, width: nat)
    requires forall i :: 0 <= i < |rows| ==> |rows[i]| == width
    ensures Rectangular(rows, width)
  {
    if rows != [] {
      RowsAreRectangular(rows[1..], width);
    }
  }

  lemma WrittenShape(header: Record, rows: seq<Record>, policy: Policy)
    requires Written(header, rows, policy)
    ensures Rectangular(rows, |header|)
    ensures forall i, j :: 0 <= i < j < |header| ==> header[i] != header[j]
    ensures CsvWriter.FileText([header] + rows) ==
            WriteRecord(CsvCell.EncodeAll(header)) + CsvWriter.FileText(rows)
  {
    forall i, j | 0 <= i < j < |header| ensures header[i] != header[j] {
      assert CsvWriter.KeyOk(header, j, policy);
      assert header[i] in header[..j];
    }
    assert ([header] + rows)[1..] == rows;
    forall i | 0 <= i < |rows| ensures |rows[i]| == |header| {
      assert CsvWriter.RowError(rows[i], i, |header|, policy).None?;
    }
    RowsAreRectangular(rows, |header|);
  }

  lemma OpenWritten(header: Record, rows: seq<Record>, ahead: nat -> nat, accepts: Accepts, policy: Policy)
    requires Written(header, rows, policy) && policy.maxBytes < MAX_INT64 && !IsBlank(header)
    ensures var text := CsvWriter.FileText([header] + rows);
            var read := TrimFirst(UnixAll(CsvCell.EncodeAll(header)));
            var start := Open(text, ahead, accepts, policy);
            && Limited(text, policy) == text
            && (start.Opened? <==> HeaderProblem(read, 0, accepts, policy).None?)
            && (start.Opened? ==>
                  && start.reader.header == read && start.reader.policy == policy
                  && AtRows(start.reader, rows) && start.reader.nextLine == 2)
  {
    WrittenShape(header, rows, policy);
    CsvLimits.LimitedMeaning(CsvWriter.FileText([header] + rows), policy);
    UnixCommutesWithEncodeAll(header);
    ReadRecordOfWritten(CsvCell.EncodeAll(header), CsvWriter.FileText(rows));
  }

  lemma HeaderAccepted(header: Record, accepts: Accepts, policy: Policy)
    requires CsvWriter.HeaderOk(header, policy) && accepts.Some?
    ensures HeaderProblem(header, 0, accepts, policy).None? <==>
            forall i :: 0 <= i < |header| ==> !IsForbidden(header[i]) && accepts.value(header[i])
  {
    forall i | 0 <= i < |header|
      ensures KeyProblem(header, i, accepts, policy).None? <==>
              !IsForbidden(header[i]) && accepts.value(header[i])
    {
      assert CsvWriter.KeyOk(header, i, policy);
    }
  }

  lemma HeaderSurvivesExactly(header: Record, accepts: Accepts, policy: Policy)
    requires CsvWriter.HeaderOk(header, policy) && accepts.Some? && !IsBlank(header)
    ensures HeaderSurvives(header, accepts.value) <==>
            TrimFirst(UnixAll(CsvCell.EncodeAll(header))) == header
            && HeaderProblem(header, 0, accepts, policy).None?
  {
    HeaderReadExactly(header);
    HeaderAccepted(header, accepts, policy);
  }

  /**
   * Under a one-column blank header the reader takes the first row that is not blank for the
   * header, so it cannot return as many rows as were written.
   */
  lemma {:induction false} BlankHeaderLosesRows(
    rows: seq<Record>, text: Bytes, ahead: nat -> nat, accepts: Accepts, policy: Policy)
    requires policy.Valid() && |rows| <= policy.maxRows && |text| <= policy.maxBytes && Rectangular(rows, 1)
    requires ReadRecord(text) == ReadRecord(CsvWriter.FileText(rows))
    requires |CsvWriter.FileText(rows)| <= |text|
    ensures var start := Open(text, ahead, accepts, policy);
            start.Opened? ==> ReadAll(start.reader).Length() < |rows|
    decreases |rows|
  {
    if rows == [] {
      assert ReadRecord(text) == EndOfInput([]);
    } else {
      UnixCommutesWithEncodeAll(rows[0]);
      ReadRecordOfWritten(CsvCell.EncodeAll(rows[0]), CsvWriter.FileText(rows[1..]));
      if IsBlank(rows[0]) {
        BlankHeaderLosesRows(rows[1..], text, ahead, accepts, policy);
      } else {
        var start := Open(text, ahead, accepts, policy);
        if start.Opened? {
          ReadRows(start.reader, rows[1..]);
        }
      }
    }
  }

  lemma BlankHeaderReadsBackWrong(
    header: Record, rows: seq<Record>, ahead: nat -> nat, accepts: Accepts, policy: Policy)
    requires Written(header, rows, policy) && policy.maxBytes < MAX_INT64 && IsBlank(header)
    ensures var back := ReadBack(CsvWriter.FileText([header] + rows), ahead, accepts, policy);
            back.Contents? ==> back.rows.Length() < |rows|
  {
    WrittenShape(header, rows, policy);
    var text := CsvWriter.FileText([header] + rows);
    CsvLimits.LimitedMeaning(text, policy);
    UnixCommutesWithEncodeAll(header);
    ReadRecordOfWritten(CsvCell.EncodeAll(header), CsvWriter.FileText(rows));
    BlankHeaderLosesRows(rows, text, ahead, accepts, policy);
  }

  lemma ReadBackOfWritten(header: Record, rows: seq<Record>, ahead: nat -> nat, accepts: Accepts, policy: Policy)
    requires Written(header, rows, policy) && policy.maxBytes < MAX_INT64 && !IsBlank(header)
    ensures Rectangular(rows, |header|)
    ensures var read := TrimFirst(UnixAll(CsvCell.EncodeAll(header)));
            ReadBack(CsvWriter.FileText([header] + rows), ahead, accepts, policy) ==
            if HeaderProblem(read, 0, accepts, policy).None? then Contents(read, RowsRead(read, policy, rows, 2))
            else Unreadable
  {
    WrittenShape(header, rows, policy);
    OpenWritten(header, rows, ahead, accepts, policy);
    var start := Open(CsvWriter.FileText([header] + rows), ahead, accepts, policy);
    if start.Opened? {
      ReadRows(start.reader, rows);
    }
  }

  /**
   * The round trip. A file that CSVWriter closed without an error reads back as the same header
   * and the same rows, row i numbered i + 2, exactly when the header consists of accepted fixed
   * points of the guard and every row survives.
   */
  lemma RoundTripExactly(header: Record, rows: seq<Record>, ahead: nat -> nat, accepts: Accepts, policy: Policy)
    requires Written(header, rows, policy) && policy.maxBytes < MAX_INT64 && accepts.Some?
    ensures Rectangular(rows, |header|)
    ensures ReadBack(CsvWriter.FileText([header] + rows), ahead, accepts, policy)
            == Contents(header, RowsWritten(header, rows, 2))
            <==>
            HeaderSurvives(header, accepts.value)
            && AllSurvive(rows, policy)
  {
    WrittenShape(header, rows, policy);
    if IsBlank(header) {
      BlankHeaderReadsBackWrong(header, rows, ahead, accepts, policy);
    } else {
      ReadBackOfWritten(header, rows, ahead, accepts, policy);
      HeaderSurvivesExactly(header, accepts, policy);
      RowsSurviveExactly(header, rows, policy, 2);
    }
  }

  /** At the largest int64 the reader sees an empty file, so no file at all reads back. */
  lemma NothingReadsBackAtMaxInt(text: Bytes, ahead: nat -> nat, accepts: Accepts, policy: Policy)
    requires policy.maxBytes == MAX_INT64
    ensures ReadBack(text, ahead, accepts, policy) == Unreadable
  {
    assert policy.ReadLimit() < 0;
    assert ReadRecord([]) == EndOfInput([]);
  }
}
