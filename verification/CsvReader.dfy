/** The streaming reader: header checks, one record at a time, and the policy limits. */
module CsvReader {
  import opened GoValues
  import opened CsvTypes
  import CsvCell
  import CsvGrammar
  import CsvWriter

  const BOM: Bytes := [0xEF, 0xBB, 0xBF]

  function TrimBom(key: Bytes): Bytes {
    if BOM <= key then key[|BOM|..] else key
  }

  function TrimFirst(header: Record): (r: Record)
    ensures |r| == |header|
    ensures header != [] ==> r[0] == TrimBom(header[0])
    ensures forall i :: 1 <= i < |r| ==> r[i] == header[i]
  {
    if header == [] then [] else [TrimBom(header[0])] + header[1..]
  }

  /** A byte order mark in front of the first key is dropped, once, and nothing else changes. */
  lemma TrimFirstExactly(first: Bytes, others: Record)
    ensures TrimFirst([[0xEF, 0xBB, 0xBF] + first] + others) == [first] + others
    ensures !(|first| >= 3 && first[0] == 0xEF && first[1] == 0xBB && first[2] == 0xBF) ==>
              TrimFirst([first] + others) == [first] + others
  {
    assert ([0xEF, 0xBB, 0xBF] + first)[|BOM|..] == first;
    assert ([first] + others)[1..] == others && ([[0xEF, 0xBB, 0xBF] + first] + others)[1..] == others;
    assert BOM <= [0xEF, 0xBB, 0xBF] + first;
  }

  /** The bytes of an ASCII text. */
  predicate Spells(key: Bytes, text: string) {
    |key| == |text| && forall i :: 0 <= i < |key| ==> key[i] as int == text[i] as int
  }

  /** Headers that every kind of file refuses, because they name secrets. */
  predicate IsForbidden(key: Bytes) {
    || Spells(key, "password")
    || Spells(key, "password_hash")
    || Spells(key, "mfa_secret")
    || Spells(key, "token")
    || Spells(key, "recovery_code")
  }

  /** The rule for header keys; None when any vocabulary is allowed. */
  type Accepts = Option<Bytes -> bool>

  /** What is wrong with key k, given the keys before it. */
  function KeyProblem(header: Record, k: nat, accepts: Accepts, policy: Policy): Option<ErrorCode>
    requires k < |header|
  {
    var key := header[k];
    if |key| > policy.maxFieldBytes then Some(FieldTooLarge)
    else if accepts.Some? && (IsForbidden(key) || !accepts.value(key) || key in header[..k]) then
      Some(InvalidHeader)
    else None
  }

  /** The error of the first key from k on that has a problem. */
  function HeaderProblem(header: Record, k: nat, accepts: Accepts, policy: Policy): (e: Option<CsvError>)
    requires k <= |header|
    ensures e.None? <==> forall j :: k <= j < |header| ==> KeyProblem(header, j, accepts, policy).None?
    decreases |header| - k
  {
    if k == |header| then None
    else match KeyProblem(header, k, accepts, policy)
      case Some(code) => Some(CsvError(1, Key(header[k]), code))
      case None => HeaderProblem(header, k + 1, accepts, policy)
  }

  datatype Cell = Cell(present: bool, raw: Bytes)

  /** The cells of the first n columns by key; a repeated key keeps its last cell. */
  function CellsUpTo(header: Record, values: Record, n: nat): map<Bytes, Cell>
    requires n <= |header| && n <= |values|
  {
    if n == 0 then map[] else CellsUpTo(header, values, n - 1)[header[n - 1] := Cell(true, values[n - 1])]
  }

  function CellsOf(header: Record, values: Record): map<Bytes, Cell>
    requires |header| == |values|
  {
    CellsUpTo(header, values, |header|)
  }

  datatype Outcome =
    | Row(number: nat, cells: map<Bytes, Cell>)
    | Rejected(err: CsvError)
    | Stopped(err: CsvError)
    | Finished
  {
    predicate IsStop() {
      Stopped? || Finished?
    }
  }

  /** The part of an input that io.LimitedReader lets through. */
  function Limited(input: Bytes, policy: Policy): (b: Bytes)
    ensures b <= input
  {
    var n := policy.ReadLimit();
    if n <= 0 then [] else if |input| <= n then input else input[..n]
  }

  /**
   * The number of bytes pulled once the parser has consumed some: buffered reading may run
   * ahead by any amount, decided by how the input arrives.
   */
  function Pull(pulled: nat, consumed: nat, total: nat, ahead: nat -> nat): (n: nat)
    requires consumed <= total && pulled <= total
    ensures pulled <= n <= total && consumed <= n
  {
    var wanted := if ahead(consumed) <= total then ahead(consumed) else total;
    if wanted < pulled || wanted < consumed then (if pulled < consumed then consumed else pulled) else wanted
  }

  /** The state of a reader over a limited stream of the given length. */
  datatype Reader = Reader(
    header: Record,
    policy: Policy,
    total: nat,
    ahead: nat -> nat,
    rest: Bytes,
    pulled: nat,
    rowsRead: nat,
    nextLine: nat)
  {
    ghost predicate Valid() {
      |rest| <= total && pulled <= total
    }
  }

  datatype OpenResult = Opened(reader: Reader) | Refused(err: CsvError, pulled: nat)

  /** newCSVReader on the bytes the limit lets through. */
  function Open(stream: Bytes, ahead: nat -> nat, accepts: Accepts, policy: Policy): (r: OpenResult)
    ensures r.Opened? ==> r.reader.Valid() && r.reader.total == |stream| && r.reader.header != []
    ensures r.Refused? ==> r.pulled <= |stream|
  {
    var first := CsvGrammar.ReadRecord(stream);
    var pulled := Pull(0, |stream| - |first.rest|, |stream|, ahead);
    if pulled > policy.maxBytes then Refused(CsvError(1, NoColumn, CsvTooLarge), pulled)
    else if !first.Fields? then Refused(CsvError(1, NoColumn, InvalidCsv), pulled)
    else
      var header := TrimFirst(first.record);
      match HeaderProblem(header, 0, accepts, policy)
      case Some(e) => Refused(e, pulled)
      case None => Opened(Reader(header, policy, |stream|, ahead, first.rest, pulled, 0, 2))
  }

  /** What becomes of the record read as data row `rowsRead` on line `line`. */
  function Judge(header: Record, policy: Policy, line: nat, rowsRead: nat, record: Record): Outcome {
    if rowsRead > policy.maxRows then Stopped(CsvError(line, NoColumn, TooManyRows))
    else match CsvWriter.FirstTooLong(record, policy.maxFieldBytes)
      case Some(i) =>
        Stopped(CsvError(line, if i < |header| then Key(header[i]) else NoColumn, FieldTooLarge))
      case None =>
        if |record| != |header| then Rejected(CsvError(line, NoColumn, InvalidColumnCount))
        else Row(line, CellsOf(header, CsvCell.DecodeAll(record)))
  }

  /** What Next makes of one call of csv.Reader.Read: the state it leaves and what it returns. */
  function StepOn(r: Reader, next: CsvGrammar.ReadResult): (s: (Reader, Outcome))
    requires r.Valid() && |next.rest| <= r.total
    ensures s.0.Valid() && s.0.rest == next.rest && s.0.total == r.total && r.pulled <= s.0.pulled
    ensures !s.1.IsStop() ==> next.Fields?
  {
    var line := r.nextLine;
    var pulled := Pull(r.pulled, r.total - |next.rest|, r.total, r.ahead);
    var read := r.(rest := next.rest, pulled := pulled);
    if pulled > r.policy.maxBytes then (read, Stopped(CsvError(line, NoColumn, CsvTooLarge)))
    else match next
      case EndOfInput(_) => (read, Finished)
      case Malformed(_) => (read, Stopped(CsvError(line, NoColumn, InvalidCsv)))
      case Fields(record, _) =>
        (read.(rowsRead := r.rowsRead + 1, nextLine := line + 1),
         Judge(r.header, r.policy, line, r.rowsRead + 1, record))
  }

  /** One call of Next. */
  function Step(r: Reader): (s: (Reader, Outcome))
    requires r.Valid()
    ensures s.0.Valid() && s.0.total == r.total && r.pulled <= s.0.pulled
    ensures !s.1.IsStop() ==> |s.0.rest| < |r.rest|
  {
    StepOn(r, CsvGrammar.ReadRecord(r.rest))
  }

  /** What a reader returns, call after call, up to its stop. */
  datatype Rows = Stop(outcome: Outcome) | More(row: Outcome, rest: Rows)
  {
    function Final(): Outcome {
      match this
      case Stop(outcome) => outcome
      case More(_, rest) => rest.Final()
    }

    function Length(): nat {
      match this
      case Stop(_) => 0
      case More(_, rest) => 1 + rest.Length()
    }
  }

  // ----- what a call of Next tells, without the reader's own functions

  /** The cells of a row by key, decoded; of columns with one key the last counts. */
  ghost predicate HoldsCells(cells: map<Bytes, Cell>, header: Record, record: Record) {
    && |header| == |record|
    && (forall key :: key in cells ==> key in header)
    && (forall i :: 0 <= i < |header| ==> HoldsCell(cells, header, record, i))
  }

  ghost predicate HoldsCell(cells: map<Bytes, Cell>, header: Record, record: Record, i: nat)
    requires i < |header| == |record|
  {
    && header[i] in cells
    && (header[i] !in header[i + 1..] ==> cells[header[i]] == Cell(true, CsvCell.Decode(record[i])))
  }

  ghost predicate IsFirstTooLong(record: Record, policy: Policy, i: nat) {
    i < |record| && |record[i]| > policy.maxFieldBytes
    && forall j :: 0 <= j < i ==> |record[j]| <= policy.maxFieldBytes
  }

  /** A record tells of the row limit, the field limit and the column count, in that order. */
  ghost predicate TellsRecord(header: Record, policy: Policy, line: nat, rows: nat, record: Record, outcome: Outcome) {
    if rows > policy.maxRows then outcome == Stopped(CsvError(line, NoColumn, TooManyRows))
    else if exists i :: 0 <= i < |record| && |record[i]| > policy.maxFieldBytes then
      exists i: nat :: IsFirstTooLong(record, policy, i)
        && outcome == Stopped(CsvError(line, if i < |header| then Key(header[i]) else NoColumn, FieldTooLarge))
    else if |record| != |header| then outcome == Rejected(CsvError(line, NoColumn, InvalidColumnCount))
    else outcome.Row? && outcome.number == line && HoldsCells(outcome.cells, header, record)
  }

  /** The byte limit comes first, then the end of the input, syntax errors and the record. */
  ghost predicate TellsNext(r: Reader, pulled: nat, outcome: Outcome) {
    var next := CsvGrammar.ReadRecord(r.rest);
    if pulled > r.policy.maxBytes then outcome == Stopped(CsvError(r.nextLine, NoColumn, CsvTooLarge))
    else if next.EndOfInput? then outcome == Finished && r.total <= r.policy.maxBytes
    else if next.Malformed? then outcome == Stopped(CsvError(r.nextLine, NoColumn, InvalidCsv))
    else TellsRecord(r.header, r.policy, r.nextLine, r.rowsRead + 1, next.record, outcome)
  }

  lemma {:induction false} CellsHold(header: Record, values: Record, n: nat, i: nat)
    requires i < n <= |header| && n <= |values|
    ensures header[i] in CellsUpTo(header, values, n)
    ensures header[i] !in header[i + 1..n] ==> CellsUpTo(header, values, n)[header[i]] == Cell(true, values[i])
  {
    if i < n - 1 {
      CellsHold(header, values, n - 1, i);
      assert header[i + 1..n] == header[i + 1..n - 1] + [header[n - 1]];
    }
  }

  lemma {:induction false} CellsHoldKeys(header: Record, values: Record, n: nat, key: Bytes)
    requires n <= |header| && n <= |values| && key in CellsUpTo(header, values, n)
    ensures key in header
  {
    if key != header[n - 1] {
      CellsHoldKeys(header, values, n - 1, key);
    }
  }

  lemma CellOfHolds(header: Record, record: Record, i: nat)
    requires i < |header| == |record|
    ensures HoldsCell(CellsOf(header, CsvCell.DecodeAll(record)), header, record, i)
  {
    CellsHold(header, CsvCell.DecodeAll(record), |header|, i);
    CsvCell.AllAt(record, i);
    assert header[i + 1..|header|] == header[i + 1..];
  }

  lemma CellsOfHold(header: Record, record: Record)
    requires |header| == |record|
    ensures HoldsCells(CellsOf(header, CsvCell.DecodeAll(record)), header, record)
  {
    var values := CsvCell.DecodeAll(record);
    forall i | 0 <= i < |header| ensures HoldsCell(CellsOf(header, values), header, record, i) {
      CellOfHolds(header, record, i);
    }
    forall key | key in CellsOf(header, values) ensures key in header {
      CellsHoldKeys(header, values, |header|, key);
    }
  }

  lemma JudgeTells(header: Record, policy: Policy, line: nat, rows: nat, record: Record)
    ensures TellsRecord(header, policy, line, rows, record, Judge(header, policy, line, rows, record))
  {
    if rows <= policy.maxRows {
      var first := CsvWriter.FirstTooLong(record, policy.maxFieldBytes);
      if first.Some? {
        assert IsFirstTooLong(record, policy, first.value);
      } else if |record| == |header| {
        CellsOfHold(header, record);
      }
    }
  }

  lemma StepTells(r: Reader)
    requires r.Valid()
    ensures TellsNext(r, Step(r).0.pulled, Step(r).1)
    ensures r.total - |Step(r).0.rest| <= Step(r).0.pulled
  {
    var next := CsvGrammar.ReadRecord(r.rest);
    if next.Fields? {
      JudgeTells(r.header, r.policy, r.nextLine, r.rowsRead + 1, next.record);
    }
  }

  /** A reader run to its stop. */
  function ReadAll(r: Reader): (all: Rows)
    requires r.Valid()
    decreases |r.rest|
  {
    var (next, outcome) := Step(r);
    if outcome.IsStop() then Stop(outcome) else More(outcome, ReadAll(next))
  }

  /** An io.Reader: its bytes, how far buffered reads run ahead, and how much has been pulled. */
  class Input {
    const data: Bytes
    const ahead: nat -> nat
    var pulled: nat

    constructor (data: Bytes, ahead: nat -> nat)
      ensures this.data == data && this.ahead == ahead && pulled == 0
    {
      this.data := data;
      this.ahead := ahead;
      pulled := 0;
    }
  }

  class CsvReader {
    const input: Input
    const stream: Bytes
    const header: Record
    const policy: Policy
    var rest: Bytes
    var rowsRead: nat
    var nextLine: nat

    ghost predicate Valid()
      reads this, input
    {
      |rest| <= |stream| && input.pulled <= |stream|
    }

    ghost function View(): Reader
      reads this, input
    {
      Reader(header, policy, |stream|, input.ahead, rest, input.pulled, rowsRead, nextLine)
    }

    constructor (input: Input, stream: Bytes, header: Record, policy: Policy, rest: Bytes)
      ensures this.input == input && this.stream == stream && this.header == header && this.policy == policy
      ensures this.rest == rest && rowsRead == 0 && nextLine == 2
    {
      this.input, this.stream, this.header, this.policy := input, stream, header, policy;
      this.rest, rowsRead, nextLine := rest, 0, 2;
    }

    /** Reads one record; the limits apply to whatever was read, the column count to this row only. */
    method Next() returns (outcome: Outcome)
      requires Valid()
      modifies this, input
      ensures Valid()
      ensures (View(), outcome) == Step(old(View()))
      ensures TellsNext(old(View()), input.pulled, outcome)
      ensures !outcome.Stopped? ==> |stream| - |rest| <= input.pulled <= policy.maxBytes
      ensures outcome == Finished ==> |stream| <= policy.maxBytes
    {
      StepTells(View());
      var line := nextLine;
      var next := CsvGrammar.ReadRecord(rest);
      rest := next.rest;
      input.pulled := Pull(input.pulled, |stream| - |rest|, |stream|, input.ahead);
      if input.pulled > policy.maxBytes {
        return Stopped(CsvError(line, NoColumn, CsvTooLarge));
      }
      if next.EndOfInput? {
        return Finished;
      }
      if next.Malformed? {
        return Stopped(CsvError(line, NoColumn, InvalidCsv));
      }
      var record := next.record;
      nextLine := nextLine + 1;
      rowsRead := rowsRead + 1;
      outcome := JudgeRecord(header, policy, line, rowsRead, record);
    }
  }

  /** The checks on a record in the order Next makes them, and the row it becomes. */
  method JudgeRecord(header: Record, policy: Policy, line: nat, rowsRead: nat, record: Record)
    returns (outcome: Outcome)
    ensures outcome == Judge(header, policy, line, rowsRead, record)
  {
    if rowsRead > policy.maxRows {
      return Stopped(CsvError(line, NoColumn, TooManyRows));
    }
    var tooLong := CsvWriter.FindTooLong(record, policy.maxFieldBytes);
    if tooLong.Some? {
      var column := if tooLong.value < |header| then Key(header[tooLong.value]) else NoColumn;
      return Stopped(CsvError(line, column, FieldTooLarge));
    }
    if |record| != |header| {
      return Rejected(CsvError(line, NoColumn, InvalidColumnCount));
    }
    var cells := BuildCells(header, record);
    return Row(line, cells);
  }

  method BuildCells(header: Record, record: Record) returns (cells: map<Bytes, Cell>)
    requires |header| == |record|
    ensures cells == CellsOf(header, CsvCell.DecodeAll(record))
  {
    cells := map[];
    ghost var values := CsvCell.DecodeAll(record);
    for i := 0 to |header|
      invariant cells == CellsUpTo(header, values, i)
    {
      CsvCell.AllAt(record, i);
      cells := cells[header[i] := Cell(true, CsvCell.Decode(record[i]))];
    }
  }

  /** The bytes of password, password_hash, mfa_secret, token and recovery_code. */
  ghost predicate IsSecretKey(key: Bytes) {
    || key == [112, 97, 115, 115, 119, 111, 114, 100]
    || key == [112, 97, 115, 115, 119, 111, 114, 100, 95, 104, 97, 115, 104]
    || key == [109, 102, 97, 95, 115, 101, 99, 114, 101, 116]
    || key == [116, 111, 107, 101, 110]
    || key == [114, 101, 99, 111, 118, 101, 114, 121, 95, 99, 111, 100, 101]
  }

  lemma SpelledOut(key: Bytes, text: string, bytes: Bytes)
    requires |text| == |bytes| && forall i :: 0 <= i < |text| ==> text[i] as int == bytes[i] as int
    ensures Spells(key, text) <==> key == bytes
  {
  }

  /** Forbidden are exactly these five keys. */
  lemma ForbiddenExactly(key: Bytes)
    ensures IsForbidden(key) <==> IsSecretKey(key)
  {
    SpelledOut(key, "password", [112, 97, 115, 115, 119, 111, 114, 100]);
    SpelledOut(key, "password_hash", [112, 97, 115, 115, 119, 111, 114, 100, 95, 104, 97, 115, 104]);
    SpelledOut(key, "mfa_secret", [109, 102, 97, 95, 115, 101, 99, 114, 101, 116]);
    SpelledOut(key, "token", [116, 111, 107, 101, 110]);
    SpelledOut(key, "recovery_code", [114, 101, 99, 111, 118, 101, 114, 121, 95, 99, 111, 100, 101]);
  }

  /** A key within the field limit that the acceptance rule, if there is one, takes and has not met before. */
  ghost predicate KeyAccepted(header: Record, k: nat, accepts: Accepts, policy: Policy)
    requires k < |header|
  {
    && |header[k]| <= policy.maxFieldBytes
    && (accepts.Some? ==>
          accepts.value(header[k]) && header[k] !in header[..k] && !IsForbidden(header[k]))
  }

  ghost predicate AcceptedUpTo(header: Record, k: nat, accepts: Accepts, policy: Policy)
    requires k <= |header|
  {
    forall j :: 0 <= j < k ==> KeyAccepted(header, j, accepts, policy)
  }

  /** The error of the first key that is not accepted. */
  ghost predicate IsHeaderError(header: Record, accepts: Accepts, policy: Policy, err: CsvError) {
    exists k: nat :: IsErrorOfKey(header, k, accepts, policy, err)
  }

  ghost predicate IsErrorOfKey(header: Record, k: nat, accepts: Accepts, policy: Policy, err: CsvError) {
    && k < |header| && !KeyAccepted(header, k, accepts, policy) && AcceptedUpTo(header, k, accepts, policy)
    && err == CsvError(1, Key(header[k]), if |header[k]| > policy.maxFieldBytes then FieldTooLarge else InvalidHeader)
  }

  lemma KeyProblemMeans(header: Record, k: nat, accepts: Accepts, policy: Policy)
    requires k < |header|
    ensures KeyProblem(header, k, accepts, policy) ==
            if KeyAccepted(header, k, accepts, policy) then None
            else Some(if |header[k]| > policy.maxFieldBytes then FieldTooLarge else InvalidHeader)
  {
  }

  lemma NextKey(header: Record, k: nat, accepts: Accepts, policy: Policy)
    requires k < |header| && AcceptedUpTo(header, k, accepts, policy)
    ensures if KeyAccepted(header, k, accepts, policy) then AcceptedUpTo(header, k + 1, accepts, policy)
            else IsErrorOfKey(header, k, accepts, policy, CsvError(1, Key(header[k]),
                                if |header[k]| > policy.maxFieldBytes then FieldTooLarge else InvalidHeader))
  {
  }

  /** A header has the problem of its first key that is not accepted, and none without such a key. */
  lemma {:induction false} HeaderProblemIsFirst(header: Record, k: nat, accepts: Accepts, policy: Policy)
    requires k <= |header| && AcceptedUpTo(header, k, accepts, policy)
    ensures var e := HeaderProblem(header, k, accepts, policy);
            if e.Some? then IsHeaderError(header, accepts, policy, e.value)
            else AcceptedUpTo(header, |header|, accepts, policy)
    decreases |header| - k
  {
    if k < |header| {
      KeyProblemMeans(header, k, accepts, policy);
      NextKey(header, k, accepts, policy);
      if KeyAccepted(header, k, accepts, policy) {
        HeaderProblemIsFirst(header, k + 1, accepts, policy);
      }
    }
  }

  /** The loop over the header keys, with the set of keys already seen. */
  method CheckHeader(header: Record, accepts: Accepts, policy: Policy) returns (err: Option<CsvError>)
    ensures err == HeaderProblem(header, 0, accepts, policy)
    ensures err.None? <==> forall k :: 0 <= k < |header| ==> KeyAccepted(header, k, accepts, policy)
    ensures err.Some? ==> IsHeaderError(header, accepts, policy, err.value)
  {
    HeaderProblemIsFirst(header, 0, accepts, policy);
    var seen: set<Bytes> := {};
    for i := 0 to |header|
      invariant HeaderProblem(header, 0, accepts, policy) == HeaderProblem(header, i, accepts, policy)
      invariant accepts.Some? ==> forall key :: key in seen <==> key in header[..i]
    {
      var key := header[i];
      if |key| > policy.maxFieldBytes {
        return Some(CsvError(1, Key(key), FieldTooLarge));
      }
      if accepts.Some? {
        if IsForbidden(key) || !accepts.value(key) || key in seen {
          return Some(CsvError(1, Key(key), InvalidHeader));
        }
        seen := seen + {key};
        assert header[..i + 1] == header[..i] + [key];
      }
    }
    return None;
  }

  /** newCSVReader: with no acceptance rule only the limits of the header are checked. */
  method OpenReader(input: Input, accepts: Accepts, policy: Policy)
    returns (reader: CsvReader?, err: Option<CsvError>)
    requires input.pulled == 0
    modifies input
    ensures match Open(Limited(input.data, policy), input.ahead, accepts, policy)
            case Opened(r) =>
              reader != null && err == None && fresh(reader) && reader.input == input
              && reader.Valid() && reader.View() == r && reader.stream == Limited(input.data, policy)
            case Refused(e, pulled) => reader == null && err == Some(e) && input.pulled == pulled
    ensures var stream := Limited(input.data, policy);
            var first := CsvGrammar.ReadRecord(stream);
            && |stream| - |first.rest| <= input.pulled <= |stream|
            && (input.pulled > policy.maxBytes ==> err == Some(CsvError(1, NoColumn, CsvTooLarge)))
            && (input.pulled <= policy.maxBytes && !first.Fields? ==> err == Some(CsvError(1, NoColumn, InvalidCsv)))
            && (input.pulled <= policy.maxBytes && first.Fields? && err.Some? ==>
                  IsHeaderError(TrimFirst(first.record), accepts, policy, err.value))
            && (reader != null ==> input.pulled <= policy.maxBytes && reader.header == TrimFirst(first.record)
                                   && reader.nextLine == 2 && reader.rowsRead == 0)
  {
    var stream := Limited(input.data, policy);
    var first := CsvGrammar.ReadRecord(stream);
    input.pulled := Pull(0, |stream| - |first.rest|, |stream|, input.ahead);
    if input.pulled > policy.maxBytes {
      return null, Some(CsvError(1, NoColumn, CsvTooLarge));
    }
    if !first.Fields? || |first.record| == 0 {
      return null, Some(CsvError(1, NoColumn, InvalidCsv));
    }
    var header := TrimFirst(first.record);
    err := CheckHeader(header, accepts, policy);
    if err.Some? {
      return null, err;
    }
    reader := new CsvReader(input, stream, header, policy, first.rest);
    err := None;
  }

  /** NewCSVReader: an unusable policy or a missing acceptance rule is refused before any read. */
  method NewCsvReader(input: Input, accepts: Accepts, policy: Policy)
    returns (reader: CsvReader?, err: Option<CsvError>)
    requires input.pulled == 0
    modifies input
    ensures err == Some(PolicyError) <==>
            policy.maxRows <= 0 || policy.maxBytes <= 0 || policy.maxFieldBytes <= 0 || accepts.None?
    ensures !policy.Valid() || accepts.None? ==> reader == null && err == Some(PolicyError) && input.pulled == 0
    ensures policy.Valid() && accepts.Some? ==>
              match Open(Limited(input.data, policy), input.ahead, accepts, policy)
              case Opened(r) =>
                reader != null && err == None && fresh(reader) && reader.input == input
                && reader.Valid() && reader.View() == r
              case Refused(e, _) => reader == null && err == Some(e)
  {
    if !policy.Valid() || accepts.None? {
      return null, Some(PolicyError);
    }
    reader, err := OpenReader(input, accepts, policy);
  }
}
