/** The streaming writer: cell guard, record grammar, buffering and the byte limit together. */
module CsvWriter {
  import opened GoValues
  import opened CsvTypes
  import CsvCell
  import CsvGrammar

  /** The text of a list of records, the header first. */
  function FileText(records: seq<Record>): Bytes {
    if records == [] then []
    else CsvGrammar.WriteRecord(CsvCell.EncodeAll(records[0])) + FileText(records[1..])
  }

  lemma {:induction false} FileTextAppend(records: seq<Record>, record: Record)
    ensures FileText(records + [record]) ==
            FileText(records) + CsvGrammar.WriteRecord(CsvCell.EncodeAll(record))
  {
    if records == [] {
      assert FileText([record]) == CsvGrammar.WriteRecord(CsvCell.EncodeAll(record)) + FileText([record][1..]);
    } else {
      assert (records + [record])[1..] == records[1..] + [record];
      FileTextAppend(records[1..], record);
    }
  }

  /** The first field longer than the limit, if any. */
  function FirstTooLong(record: Record, max: int): (r: Option<nat>)
    ensures r.None? <==> forall i :: 0 <= i < |record| ==> |record[i]| <= max
    ensures r.Some? ==> r.value < |record| && |record[r.value]| > max
                        && forall i :: 0 <= i < r.value ==> |record[i]| <= max
  {
    if record == [] then None
    else if |record[0]| > max then Some(0)
    else
      var rest := FirstTooLong(record[1..], max);
      assert forall i :: 1 <= i < |record| ==> record[i] == record[1..][i - 1];
      assert rest.Some? ==> record[1..][rest.value] == record[rest.value + 1];
      if rest.None? then None else Some(rest.value + 1)
  }

  /** The loop over the fields of a record that finds it. */
  method FindTooLong(record: Record, max: int) returns (r: Option<nat>)
    ensures r == FirstTooLong(record, max)
  {
    for i := 0 to |record|
      invariant forall j :: 0 <= j < i ==> |record[j]| <= max
    {
      if |record[i]| > max {
        return Some(i);
      }
    }
    return None;
  }

  ghost predicate KeyOk(header: Record, k: nat, policy: Policy)
    requires k < |header|
  {
    |header[k]| <= policy.maxFieldBytes && header[k] !in header[..k]
  }

  ghost predicate HeaderOk(header: Record, policy: Policy) {
    header != [] && forall k :: 0 <= k < |header| ==> KeyOk(header, k, policy)
  }

  /** The refusal of the first key that is too long or repeats an earlier one. */
  ghost predicate IsHeaderError(header: Record, policy: Policy, err: CsvError) {
    if header == [] then err == CsvError(1, NoColumn, InvalidHeader)
    else exists k ::
      && 0 <= k < |header|
      && !KeyOk(header, k, policy)
      && (forall j :: 0 <= j < k ==> KeyOk(header, j, policy))
      && err == CsvError(1, Key(header[k]),
                         if |header[k]| > policy.maxFieldBytes then FieldTooLarge else InvalidHeader)
  }

  /** What WriteRow refuses before it writes anything. */
  function RowError(record: Record, rows: nat, headerLen: nat, policy: Policy): Option<CsvError> {
    if |record| != headerLen then Some(CsvError(rows + 2, NoColumn, InvalidColumnCount))
    else if rows >= policy.maxRows then Some(CsvError(rows + 2, NoColumn, TooManyRows))
    else match FirstTooLong(record, policy.maxFieldBytes)
      case Some(i) => Some(CsvError(rows + 2, Index(i), FieldTooLarge))
      case None => None
  }

  /** The refusal of the first field over the limit, at its position. */
  ghost predicate RefusesField(record: Record, policy: Policy, rows: nat, err: CsvError) {
    exists k: nat ::
      && k < |record| && |record[k]| > policy.maxFieldBytes
      && (forall j :: 0 <= j < k ==> |record[j]| <= policy.maxFieldBytes)
      && err == CsvError(rows + 2, Index(k), FieldTooLarge)
  }

  method CheckRow(record: Record, rows: nat, headerLen: nat, policy: Policy) returns (err: Option<CsvError>)
    ensures err == RowError(record, rows, headerLen, policy)
    ensures err.None? <==>
            && |record| == headerLen && rows < policy.maxRows
            && forall i :: 0 <= i < |record| ==> |record[i]| <= policy.maxFieldBytes
    ensures err == Some(CsvError(rows + 2, NoColumn, InvalidColumnCount)) <==> |record| != headerLen
    ensures err == Some(CsvError(rows + 2, NoColumn, TooManyRows)) <==> |record| == headerLen && rows >= policy.maxRows
    ensures err.Some? && |record| == headerLen && rows < policy.maxRows ==>
              RefusesField(record, policy, rows, err.value)
  {
    if |record| != headerLen {
      return Some(CsvError(rows + 2, NoColumn, InvalidColumnCount));
    }
    if rows >= policy.maxRows {
      return Some(CsvError(rows + 2, NoColumn, TooManyRows));
    }
    var tooLong := FindTooLong(record, policy.maxFieldBytes);
    if tooLong.Some? {
      return Some(CsvError(rows + 2, Index(tooLong.value), FieldTooLarge));
    }
    return None;
  }

  const TooLarge := CsvError(0, NoColumn, CsvTooLarge)

  /** The caller's output; its writes do not fail. */
  class Sink {
    var data: Bytes

    constructor ()
      ensures data == []
    {
      data := [];
    }
  }

  /** policyWriter: refuses a write that would pass the byte limit, whole. */
  class PolicyWriter {
    const w: Sink
    const max: int
    var written: nat

    constructor (w: Sink, max: int)
      ensures this.w == w && this.max == max && written == 0
    {
      this.w := w;
      this.max := max;
      written := 0;
    }

    method Write(p: Bytes) returns (ok: bool)
      modifies this, w
      ensures ok == (old(written) + |p| <= max)
      ensures w.data == old(w.data) + (if ok then p else [])
      ensures written == old(written) + (if ok then |p| else 0)
    {
      ok := |p| <= max - written;
      if ok {
        w.data := w.data + p;
        written := written + |p|;
      }
    }
  }

  /** The size of the buffer that csv.Writer writes through. */
  const BUFFER_SIZE := 4096

  class CsvWriter {
    const bounded: PolicyWriter
    const headerLen: nat
    const policy: Policy
    var buffer: Bytes
    var failed: bool
    var rows: nat

    ghost const base: Bytes
    ghost var flushed: Bytes
    ghost var records: seq<Record>

    ghost predicate Valid()
      reads this, bounded, bounded.w
    {
      && policy.Valid()
      && bounded.max == policy.maxBytes
      && bounded.w.data == base + flushed
      && bounded.written == |flushed| <= policy.maxBytes
      && |buffer| <= BUFFER_SIZE
      && headerLen > 0
      && (!failed ==> flushed + buffer == FileText(records) && |records| == rows + 1)
      && (failed ==> flushed <= FileText(records) && |FileText(records)| > policy.maxBytes)
    }

    constructor (output: Sink, headerLen: nat, policy: Policy)
      requires policy.Valid() && headerLen > 0
      ensures fresh(bounded) && bounded.w == output && this.policy == policy && this.headerLen == headerLen
      ensures bounded.max == policy.maxBytes && bounded.written == 0
      ensures base == output.data && flushed == [] && buffer == [] && !failed && records == [] && rows == 0
    {
      this.headerLen := headerLen;
      this.policy := policy;
      bounded := new PolicyWriter(output, policy.maxBytes);
      base, flushed, buffer, failed, records, rows := output.data, [], [], false, [], 0;
    }

    /** bufio.Writer.Flush. */
    method Flush()
      requires !failed && bounded.written == |flushed| && bounded.w.data == base + flushed
      modifies this`flushed, this`buffer, this`failed, bounded, bounded.w
      ensures failed == (|old(flushed)| + |old(buffer)| > bounded.max)
      ensures !failed ==> flushed == old(flushed) + old(buffer) && buffer == []
      ensures failed ==> flushed == old(flushed) && buffer == old(buffer)
      ensures bounded.written == |flushed| && bounded.w.data == base + flushed
    {
      var ok := bounded.Write(buffer);
      if ok {
        assert base + flushed + buffer == base + (flushed + buffer);
        flushed := flushed + buffer;
        buffer := [];
      } else {
        failed := true;
      }
    }

    /** Appends to the buffer, flushing whenever it is full; an error sticks. */
    method Push(p: Bytes, ghost text: Bytes)
      requires bounded.max == policy.maxBytes
      requires bounded.w.data == base + flushed && bounded.written == |flushed| <= policy.maxBytes
      requires |buffer| <= BUFFER_SIZE
      requires !failed ==> flushed + buffer == text
      requires failed ==> flushed <= text && |text| > policy.maxBytes
      modifies this`flushed, this`buffer, this`failed, bounded, bounded.w
      ensures bounded.w.data == base + flushed && bounded.written == |flushed| <= policy.maxBytes
      ensures |buffer| <= BUFFER_SIZE
      ensures old(failed) ==> failed
      ensures !failed ==> flushed + buffer == text + p
      ensures failed ==> flushed <= text + p && |text + p| > policy.maxBytes
    {
      var i := 0;
      while i < |p| && !failed
        invariant 0 <= i <= |p|
        invariant bounded.w.data == base + flushed && bounded.written == |flushed| <= policy.maxBytes
        invariant |buffer| <= BUFFER_SIZE
        invariant old(failed) ==> failed
        invariant !failed ==> flushed + buffer == text + p[..i]
        invariant failed ==> flushed <= text + p && |text + p| > policy.maxBytes
        decreases |p| - i, !failed
      {
        if |buffer| == BUFFER_SIZE {
          assert flushed <= flushed + buffer == text + p[..i] <= text + p;
          Flush();
        }
        if !failed {
          assert flushed + (buffer + [p[i]]) == (flushed + buffer) + [p[i]];
          assert text + p[..i] + [p[i]] == text + p[..i + 1];
          buffer := buffer + [p[i]];
          i := i + 1;
        }
      }
      if !failed {
        assert p[..i] == p;
      }
    }

    method WriteRecord(record: Record) returns (ok: bool)
      requires bounded.max == policy.maxBytes && policy.Valid()
      requires bounded.w.data == base + flushed && bounded.written == |flushed| <= policy.maxBytes
      requires |buffer| <= BUFFER_SIZE
      requires !failed ==> flushed + buffer == FileText(records)
      requires failed ==> flushed <= FileText(records) && |FileText(records)| > policy.maxBytes
      modifies this`flushed, this`buffer, this`failed, this`records, bounded, bounded.w
      ensures records == old(records) + [record]
      ensures bounded.w.data == base + flushed && bounded.written == |flushed| <= policy.maxBytes
      ensures |buffer| <= BUFFER_SIZE
      ensures ok == !failed && (old(failed) ==> failed)
      ensures !failed ==> flushed + buffer == FileText(records)
      ensures failed ==> flushed <= FileText(records) && |FileText(records)| > policy.maxBytes
    {
      var encoded: Record := [];
      for i := 0 to |record|
        invariant |encoded| == i
        invariant forall j :: 0 <= j < i ==> encoded[j] == CsvCell.Encode(record[j])
      {
        encoded := encoded + [CsvCell.Encode(record[i])];
      }
      forall j | 0 <= j < |record| ensures encoded[j] == CsvCell.EncodeAll(record)[j] {
        CsvCell.AllAt(record, j);
      }
      assert encoded == CsvCell.EncodeAll(record);
      FileTextAppend(records, record);
      Push(CsvGrammar.WriteRecord(encoded), FileText(records));
      records := records + [record];
      ok := !failed;
    }

    /**
     * Refuses a row of the wrong shape or past a limit without writing; otherwise the row joins
     * the file, unless the file no longer fits.
     */
    method WriteRow(record: Record) returns (err: Option<CsvError>)
      requires Valid()
      modifies this, bounded, bounded.w
      ensures Valid()
      ensures var refused := RowError(record, old(rows), headerLen, policy);
              if refused.Some? then
                err == refused && records == old(records) && rows == old(rows) && failed == old(failed)
                && bounded.w.data == old(bounded.w.data)
              else
                && records == old(records) + [record]
                && (err.None? <==> !failed)
                && (err.None? ==> rows == old(rows) + 1 && !old(failed))
                && (err.Some? ==> err.value == CsvError(0, Key([]), CsvTooLarge) && rows == old(rows))
    {
      err := CheckRow(record, rows, headerLen, policy);
      if err.Some? {
        return;
      }
      var ok := WriteRecord(record);
      if !ok {
        return Some(TooLarge);
      }
      rows := rows + 1;
      return None;
    }

    /** Close succeeds exactly when the whole file fits, and then the output holds the whole file. */
    method Close() returns (err: Option<CsvError>)
      requires Valid()
      modifies this`flushed, this`buffer, this`failed, bounded, bounded.w
      ensures Valid()
      ensures err.None? <==> |FileText(records)| <= policy.maxBytes
      ensures err.None? ==> bounded.w.data == base + FileText(records) && |records| == rows + 1
      ensures err.Some? ==>
                err.value == CsvError(0, Key([]), CsvTooLarge) && |bounded.w.data| - |base| <= policy.maxBytes
    {
      if !failed {
        Flush();
      }
      if failed {
        return Some(TooLarge);
      }
      assert flushed + [] == flushed;
      return None;
    }
  }

  /** NewCSVWriter: checks the policy and the header, then writes the header. */
  method NewCsvWriter(output: Sink, header: Record, policy: Policy)
    returns (w: CsvWriter?, err: Option<CsvError>)
    modifies output
    ensures err.None? <==> w != null
    ensures err == Some(PolicyError) <==> policy.maxRows <= 0 || policy.maxBytes <= 0 || policy.maxFieldBytes <= 0
    ensures !policy.Valid() ==> err == Some(PolicyError)
    ensures policy.Valid() && !HeaderOk(header, policy) ==> err.Some? && IsHeaderError(header, policy, err.value)
    ensures err.Some? && err.value != TooLarge ==> output.data == old(output.data)
    ensures w != null ==>
              && HeaderOk(header, policy) && policy.Valid()
              && fresh(w) && fresh(w.bounded) && w.bounded.w == output && w.base == old(output.data)
              && w.Valid() && !w.failed && w.records == [header] && w.rows == 0
              && w.headerLen == |header| && w.policy == policy
    ensures policy.Valid() && HeaderOk(header, policy) && w == null ==>
              err == Some(TooLarge) && |FileText([header])| > policy.maxBytes
  {
    if !policy.Valid() {
      return null, Some(PolicyError);
    }
    if |header| == 0 {
      return null, Some(CsvError(1, NoColumn, InvalidHeader));
    }
    var seen: set<Bytes> := {};
    for i := 0 to |header|
      invariant forall k :: 0 <= k < i ==> KeyOk(header, k, policy)
      invariant forall key :: key in seen <==> key in header[..i]
    {
      var key := header[i];
      if |key| > policy.maxFieldBytes {
        assert !KeyOk(header, i, policy);
        return null, Some(CsvError(1, Key(key), FieldTooLarge));
      }
      if key in seen {
        assert !KeyOk(header, i, policy);
        return null, Some(CsvError(1, Key(key), InvalidHeader));
      }
      seen := seen + {key};
      assert header[..i + 1] == header[..i] + [key];
    }
    var writer := new CsvWriter(output, |header|, policy);
    var ok := writer.WriteRecord(header);
    assert writer.records == [header];
    if !ok {
      return null, Some(TooLarge);
    }
    return writer, None;
  }
}
