/** A whole file written through CSVWriter and read through CSVReader. */
module CsvFiles {
  import opened GoValues
  import opened CsvTypes
  import opened CsvReader
  import opened CsvRoundTrip
  import CsvWriter

  lemma {:induction false} FileTextGrows(records: seq<Record>, more: seq<Record>)
    ensures |CsvWriter.FileText(records)| <= |CsvWriter.FileText(records + more)|
  {
    if records == [] {
      assert records + more == more;
    } else {
      assert (records + more)[1..] == records[1..] + more;
      FileTextGrows(records[1..], more);
    }
  }

  ghost predicate RowsAccepted(header: Record, rows: seq<Record>, n: nat, policy: Policy) {
    n <= |rows| && n <= policy.maxRows
    && forall j :: 0 <= j < n ==> CsvWriter.RowError(rows[j], j, |header|, policy).None?
  }

  lemma NotWritten(header: Record, rows: seq<Record>, i: nat, policy: Policy)
    requires i < |rows|
    requires CsvWriter.RowError(rows[i], i, |header|, policy).Some?
             || |CsvWriter.FileText([header] + rows[..i + 1])| > policy.maxBytes
    ensures !Written(header, rows, policy)
  {
    assert [header] + rows == [header] + rows[..i + 1] + rows[i + 1..];
    FileTextGrows([header] + rows[..i + 1], rows[i + 1..]);
  }

  lemma OneMoreRow(header: Record, rows: seq<Record>, i: nat)
    requires i < |rows|
    ensures [header] + rows[..i] + [rows[i]] == [header] + rows[..i + 1]
  {
  }

  /** Every row after the header, until one is refused. */
  method WriteRows(w: CsvWriter.CsvWriter, header: Record, rows: seq<Record>) returns (err: Option<CsvError>)
    requires w.Valid() && !w.failed && w.records == [header] && w.rows == 0 && w.headerLen == |header|
    modifies w, w.bounded, w.bounded.w
    ensures w.Valid()
    ensures err.None? ==> w.records == [header] + rows && RowsAccepted(header, rows, |rows|, w.policy)
    ensures err.Some? ==> !Written(header, rows, w.policy)
  {
    for i := 0 to |rows|
      invariant w.Valid() && !w.failed && w.rows == i
      invariant w.records == [header] + rows[..i]
      invariant RowsAccepted(header, rows, i, w.policy)
    {
      OneMoreRow(header, rows, i);
      err := w.WriteRow(rows[i]);
      if err.Some? {
        NotWritten(header, rows, i, w.policy);
        return;
      }
    }
    assert rows[..|rows|] == rows;
    return None;
  }

  /** Writing a header and rows and closing succeeds exactly for the files the policy admits. */
  method WriteFile(header: Record, rows: seq<Record>, policy: Policy) returns (text: Bytes, err: Option<CsvError>)
    ensures err.None? <==> Written(header, rows, policy)
    ensures err.None? ==> text == CsvWriter.FileText([header] + rows)
  {
    var sink := new CsvWriter.Sink();
    var w, refused := CsvWriter.NewCsvWriter(sink, header, policy);
    if w == null {
      FileTextGrows([header], rows);
      return [], refused;
    }
    var rowErr := WriteRows(w, header, rows);
    if rowErr.Some? {
      return [], rowErr;
    }
    err := w.Close();
    text := sink.data;
  }

  /** Reading a whole file: the header, and what Next returns call after call; nothing under an unusable policy. */
  method ReadFile(text: Bytes, ahead: nat -> nat, accepts: Bytes -> bool, policy: Policy)
    returns (header: Option<Record>, outcomes: seq<Outcome>)
    ensures !policy.Valid() ==> header == None && outcomes == []
    ensures policy.Valid() ==>
              match ReadBack(text, ahead, Some(accepts), policy)
              case Unreadable => header == None
              case Contents(h, rows) => header == Some(h) && outcomes == AsSeq(rows)
  {
    var input := new Input(text, ahead);
    var reader, refused := NewCsvReader(input, Some(accepts), policy);
    if reader == null {
      return None, [];
    }
    header := Some(reader.header);
    outcomes := NextUntilStop(reader);
  }

  /** The loop a caller of Next runs. */
  method NextUntilStop(reader: CsvReader) returns (outcomes: seq<Outcome>)
    requires reader.Valid()
    modifies reader, reader.input
    ensures outcomes == AsSeq(old(ReadAll(reader.View())))
    decreases |reader.rest|
  {
    ghost var all := AsSeq(ReadAll(reader.View()));
    var outcome := reader.Next();
    outcomes := [];
    while !outcome.IsStop()
      invariant reader.Valid()
      invariant all == outcomes + Pending(outcome, reader.View())
      decreases !outcome.IsStop(), |reader.rest|
    {
      PendingStep(outcomes, outcome, reader.View());
      outcomes := outcomes + [outcome];
      outcome := reader.Next();
    }
    outcomes := outcomes + [outcome];
  }

  /** What is still to come when Next has just returned an outcome. */
  ghost function Pending(outcome: Outcome, r: Reader): seq<Outcome>
    requires r.Valid()
  {
    if outcome.IsStop() then [outcome] else [outcome] + AsSeq(ReadAll(r))
  }

  lemma AllIsPending(r: Reader)
    requires r.Valid()
    ensures AsSeq(ReadAll(r)) == Pending(Step(r).1, Step(r).0)
  {
  }

  lemma PendingStep(outcomes: seq<Outcome>, outcome: Outcome, r: Reader)
    requires r.Valid() && !outcome.IsStop()
    ensures outcomes + Pending(outcome, r) == outcomes + [outcome] + Pending(Step(r).1, Step(r).0)
  {
    AllIsPending(r);
    Associate(outcomes, [outcome], AsSeq(ReadAll(r)));
  }

  lemma Associate(a: seq<Outcome>, b: seq<Outcome>, c: seq<Outcome>)
    ensures a + (b + c) == a + b + c
  {
  }

  function AsSeq(rows: Rows): seq<Outcome> {
    match rows
    case Stop(outcome) => [outcome]
    case More(row, rest) => [row] + AsSeq(rest)
  }
}
