/** The limit check of an upload, the copy that checks while it copies, and what both guarantee. */
module CsvLimits {
  import opened GoValues
  import opened CsvTypes
  import opened CsvReader
  import CsvGrammar
  import CsvWriter

  /** A whole file read to the reader's stop; a refused header is a stop as well. */
  function ReadFile(stream: Bytes, ahead: nat -> nat, accepts: Accepts, policy: Policy): Rows {
    match Open(stream, ahead, accepts, policy)
    case Refused(e, _) => Stop(Stopped(e))
    case Opened(r) => ReadAll(r)
  }

  /** The transfer-policy error of a stop, if it is one. */
  function LimitError(stop: Outcome): Option<CsvError> {
    if stop.Stopped? && stop.err.CsvError? && stop.err.code.ExceedsTransferPolicy() then Some(stop.err) else None
  }

  /** What CheckCSVLimits returns for a whole input. */
  function CheckError(data: Bytes, ahead: nat -> nat, policy: Policy): Option<CsvError> {
    if !policy.Valid() then Some(PolicyError)
    else LimitError(ReadFile(Limited(data, policy), ahead, None, policy).Final())
  }

  lemma CheckErrorIsLimit(data: Bytes, ahead: nat -> nat, policy: Policy)
    ensures var err := CheckError(data, ahead, policy);
            && (err == Some(PolicyError) <==> policy.maxRows <= 0 || policy.maxBytes <= 0 || policy.maxFieldBytes <= 0)
            && (err.Some? && err.value != PolicyError ==>
                  err.value.code == CsvTooLarge || err.value.code == TooManyRows || err.value.code == FieldTooLarge)
  {
  }

  /** CheckCSVLimits: reads to the stop, and reports the stop only if it is a transfer limit. */
  method CheckCsvLimits(input: Input, policy: Policy) returns (err: Option<CsvError>)
    requires input.pulled == 0
    modifies input
    ensures err == CheckError(input.data, input.ahead, policy)
    ensures err == Some(PolicyError) <==> policy.maxRows <= 0 || policy.maxBytes <= 0 || policy.maxFieldBytes <= 0
    ensures err.Some? && err.value != PolicyError ==>
              err.value.code == CsvTooLarge || err.value.code == TooManyRows || err.value.code == FieldTooLarge
    ensures !policy.Valid() ==> input.pulled == 0
    ensures input.pulled <= |Limited(input.data, policy)|
  {
    CheckErrorIsLimit(input.data, input.ahead, policy);
    if !policy.Valid() {
      return Some(PolicyError);
    }
    var reader, refused := OpenReader(input, None, policy);
    if reader == null {
      return LimitError(Stopped(refused.value));
    }
    ghost var final := ReadAll(reader.View()).Final();
    var outcome := reader.Next();
    while !outcome.IsStop()
      invariant reader.Valid() && reader.input == input && reader.stream == Limited(input.data, policy)
      invariant final == if outcome.IsStop() then outcome else ReadAll(reader.View()).Final()
      decreases !outcome.IsStop(), |reader.rest|
    {
      outcome := reader.Next();
    }
    return LimitError(outcome);
  }

  lemma {:induction false} HeaderProblemWithoutVocabulary(header: Record, k: nat, accepts: Accepts, policy: Policy)
    requires k <= |header| && accepts.Some?
    ensures var check := HeaderProblem(header, k, None, policy);
            var read := HeaderProblem(header, k, accepts, policy);
            && (read.Some? ==> read.value.CsvError? && (read.value.code == InvalidHeader || read == check))
            && (read.None? ==> check.None?)
    decreases |header| - k
  {
    if k < |header| {
      HeaderProblemWithoutVocabulary(header, k + 1, accepts, policy);
    }
  }

  /** The error of a header outside the vocabulary of the file's kind. */
  predicate IsHeaderRefusal(stop: Outcome) {
    stop.Stopped? && stop.err.CsvError? && stop.err.row == 1 && stop.err.code == InvalidHeader
  }

  /**
   * The check and the accepting reader see the same limits: unless the reader refuses the
   * header's vocabulary, both return the same rows and stop alike on the same bytes.
   */
  lemma CheckAgreesWithReader(stream: Bytes, ahead: nat -> nat, accepts: Accepts, policy: Policy)
    requires accepts.Some?
    ensures var check := ReadFile(stream, ahead, None, policy);
            var read := ReadFile(stream, ahead, accepts, policy);
            && (!IsHeaderRefusal(read.Final()) ==> read == check)
            && (LimitError(check.Final()).None? ==> LimitError(read.Final()).None?)
            && (LimitError(check.Final()).Some? ==> read == check || IsHeaderRefusal(read.Final()))
  {
    var first := CsvGrammar.ReadRecord(stream);
    if first.Fields? {
      HeaderProblemRow(TrimFirst(first.record), 0, accepts, policy);
      HeaderProblemWithoutVocabulary(TrimFirst(first.record), 0, accepts, policy);
    }
  }

  lemma {:induction false} HeaderProblemRow(header: Record, k: nat, accepts: Accepts, policy: Policy)
    requires k <= |header|
    ensures var e := HeaderProblem(header, k, accepts, policy);
            e.Some? ==> e.value.CsvError? && e.value.row == 1
    decreases |header| - k
  {
    if k < |header| {
      HeaderProblemRow(header, k + 1, accepts, policy);
    }
  }

  /** What CopyCSVWithinPolicy returns. */
  function CopyError(data: Bytes, ahead: nat -> nat, policy: Policy): Option<CsvError> {
    var checked := CheckError(data, ahead, policy);
    if checked.Some? then checked
    else if |Limited(data, policy)| > policy.maxBytes then Some(CsvError(0, NoColumn, CsvTooLarge))
    else None
  }

  lemma LimitedMeaning(data: Bytes, policy: Policy)
    requires policy.Valid()
    ensures policy.maxBytes < MAX_INT64 && |data| <= policy.maxBytes ==> Limited(data, policy) == data
    ensures policy.maxBytes < MAX_INT64 && |data| > policy.maxBytes ==>
              |Limited(data, policy)| == policy.maxBytes + 1
    ensures policy.maxBytes == MAX_INT64 ==> Limited(data, policy) == []
  {
  }

  /**
   * Copies while checking. Whatever happens the output grows by a prefix of the input of at most
   * one byte more than the limit; without an error it grows by all the limit lets through.
   */
  method CopyCsvWithinPolicy(output: CsvWriter.Sink, input: Input, policy: Policy)
    returns (err: Option<CsvError>, ghost copied: nat)
    requires input.pulled == 0
    modifies output, input
    ensures err == CopyError(input.data, input.ahead, policy)
    ensures copied <= |Limited(input.data, policy)| && (policy.Valid() ==> copied <= policy.maxBytes + 1)
    ensures output.data == old(output.data) + Limited(input.data, policy)[..copied]
    ensures err.None? ==> copied == |Limited(input.data, policy)| <= policy.maxBytes
  {
    var checked := CheckCsvLimits(input, policy);
    if policy.Valid() {
      LimitedMeaning(input.data, policy);
    }
    err, copied := CopyRest(output, input, Limited(input.data, policy), checked, policy.maxBytes);
  }

  /** The copy after the check: TeeReader has passed on what was pulled, io.Copy passes on the rest. */
  method CopyRest(output: CsvWriter.Sink, input: Input, stream: Bytes, checked: Option<CsvError>, max: int)
    returns (err: Option<CsvError>, ghost copied: nat)
    requires input.pulled <= |stream|
    modifies output, input
    ensures err == if checked.Some? then checked
                   else if |stream| > max then Some(CsvError(0, NoColumn, CsvTooLarge)) else None
    ensures copied == if checked.Some? then old(input.pulled) else |stream|
    ensures output.data == old(output.data) + stream[..copied]
  {
    output.data := output.data + stream[..input.pulled];
    copied := input.pulled;
    if checked.Some? {
      return checked, copied;
    }
    output.data := output.data + stream[input.pulled..];
    assert stream[..copied] + stream[copied..] == stream == stream[..|stream|];
    input.pulled, copied := |stream|, |stream|;
    err := if |stream| > max then Some(CsvError(0, NoColumn, CsvTooLarge)) else None;
  }

  /** A copy without an error is the whole file, within the limit, for every limit below the largest int64. */
  lemma CopyIsWholeFile(data: Bytes, ahead: nat -> nat, policy: Policy)
    requires policy.maxBytes < MAX_INT64
    requires CopyError(data, ahead, policy).None?
    ensures Limited(data, policy) == data && |data| <= policy.maxBytes
  {
    LimitedMeaning(data, policy);
  }

  /**
   * At the largest int64 the byte limit plus one wraps to a negative number and nothing is
   * read: the copy of every file succeeds and is empty. So the promise holds for all files
   * exactly when the limit is smaller.
   */
  lemma CopyIsWholeFileExactlyBelowMaxInt(policy: Policy)
    requires policy.Valid()
    ensures policy.maxBytes < MAX_INT64 <==>
            forall data: Bytes, ahead: nat -> nat | CopyError(data, ahead, policy).None? ::
              Limited(data, policy) == data
  {
    if policy.maxBytes < MAX_INT64 {
      forall data: Bytes, ahead: nat -> nat | CopyError(data, ahead, policy).None?
        ensures Limited(data, policy) == data
      {
        CopyIsWholeFile(data, ahead, policy);
      }
    } else {
      var data: Bytes := [97];
      var ahead: nat -> nat := n => n;
      LimitedMeaning(data, policy);
      assert CsvGrammar.ReadRecord([]) == CsvGrammar.EndOfInput([]);
      assert CopyError(data, ahead, policy).None?;
    }
  }

  // ----- what the limits mean, without a reader

  predicate FieldsWithin(record: Record, policy: Policy) {
    forall i :: 0 <= i < |record| ==> |record[i]| <= policy.maxFieldBytes
  }

  /** The rows up to the end or the first syntax error are within the limits, some having been read already. */
  predicate RowsWithin(b: Bytes, rows: nat, policy: Policy)
    decreases |b|
  {
    var next := CsvGrammar.ReadRecord(b);
    next.Fields? ==>
      rows + 1 <= policy.maxRows && FieldsWithin(next.record, policy) && RowsWithin(next.rest, rows + 1, policy)
  }

  predicate FileWithin(b: Bytes, policy: Policy) {
    var first := CsvGrammar.ReadRecord(b);
    first.Fields? ==> FieldsWithin(TrimFirst(first.record), policy) && RowsWithin(first.rest, 0, policy)
  }

  /** What one call of Next makes of the limits, within the byte limit. */
  lemma StepWithin(r: Reader)
    requires r.Valid() && r.total <= r.policy.maxBytes
    ensures var next := CsvGrammar.ReadRecord(r.rest);
            var (after, outcome) := Step(r);
            && (!next.Fields? ==> outcome.IsStop() && LimitError(outcome).None?)
            && (next.Fields? ==>
                  after.rest == next.rest && after.rowsRead == r.rowsRead + 1 && after.policy == r.policy)
            && (next.Fields? && r.rowsRead + 1 <= r.policy.maxRows && FieldsWithin(next.record, r.policy) ==>
                  !outcome.IsStop())
            && (next.Fields? && !(r.rowsRead + 1 <= r.policy.maxRows && FieldsWithin(next.record, r.policy)) ==>
                  outcome.IsStop() && LimitError(outcome).Some?)
  {
  }

  lemma {:induction false} ReadAllWithin(r: Reader)
    requires r.Valid() && r.total <= r.policy.maxBytes
    ensures LimitError(ReadAll(r).Final()).None? <==> RowsWithin(r.rest, r.rowsRead, r.policy)
    decreases |r.rest|
  {
    StepWithin(r);
    var (after, outcome) := Step(r);
    if !outcome.IsStop() {
      ReadAllWithin(after);
    }
  }

  lemma HeaderWithin(header: Record, policy: Policy)
    ensures HeaderProblem(header, 0, None, policy).None? <==> FieldsWithin(header, policy)
    ensures HeaderProblem(header, 0, None, policy).Some? ==>
              LimitError(Stopped(HeaderProblem(header, 0, None, policy).value)).Some?
  {
    forall i | 0 <= i < |header|
      ensures KeyProblem(header, i, None, policy).None? <==> |header[i]| <= policy.maxFieldBytes
    {
    }
    HeaderProblemIsLimit(header, 0, policy);
  }

  lemma {:induction false} HeaderProblemIsLimit(header: Record, k: nat, policy: Policy)
    requires k <= |header|
    ensures var e := HeaderProblem(header, k, None, policy);
            e.Some? ==> LimitError(Stopped(e.value)).Some?
    decreases |header| - k
  {
    if k < |header| {
      HeaderProblemIsLimit(header, k + 1, policy);
    }
  }

  /** For a file within the byte limit the check passes exactly when its rows and fields are within theirs. */
  lemma CheckPassesExactly(data: Bytes, ahead: nat -> nat, policy: Policy)
    requires policy.Valid() && policy.maxBytes < MAX_INT64 && |data| <= policy.maxBytes
    ensures CheckError(data, ahead, policy).None? <==> FileWithin(data, policy)
  {
    LimitedMeaning(data, policy);
    var first := CsvGrammar.ReadRecord(data);
    if first.Fields? {
      HeaderWithin(TrimFirst(first.record), policy);
      var start := Open(data, ahead, None, policy);
      if start.Opened? {
        ReadAllWithin(start.reader);
      }
    }
  }

  /** The copy succeeds exactly for files within all the limits, however the input arrives. */
  lemma CopySucceedsExactly(data: Bytes, ahead: nat -> nat, policy: Policy)
    requires policy.Valid() && policy.maxBytes < MAX_INT64
    ensures CopyError(data, ahead, policy).None? <==> |data| <= policy.maxBytes && FileWithin(data, policy)
  {
    LimitedMeaning(data, policy);
    if |data| <= policy.maxBytes {
      CheckPassesExactly(data, ahead, policy);
    }
  }
}
