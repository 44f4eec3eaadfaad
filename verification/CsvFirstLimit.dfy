/** Which limit of the transfer policy a file passes first, told from its records alone. */
module CsvFirstLimit {
  import opened GoValues
  import opened CsvTypes
  import opened CsvGrammar
  import opened CsvReader
  import opened CsvLimits

  // ----- the records of a stream, without a reader

  /** What is left of a stream after k reads. */
  function RestAfter(b: Bytes, k: nat): (rest: Bytes)
    ensures |rest| <= |b|
  {
    if k == 0 then b else ReadRecord(RestAfter(b, k - 1)).rest
  }

  /** The result of read k; the header is read 0. */
  function ReadAt(b: Bytes, k: nat): ReadResult {
    ReadRecord(RestAfter(b, k))
  }

  /** The bytes pulled by the end of read k, for a given arrival of the input. */
  function PulledAt(b: Bytes, ahead: nat -> nat, k: nat): (n: nat)
    ensures |b| - |ReadAt(b, k).rest| <= n <= |b|
  {
    Pull(if k == 0 then 0 else PulledAt(b, ahead, k - 1), |b| - |ReadAt(b, k).rest|, |b|, ahead)
  }

  /** All reads before k have returned records. */
  ghost predicate Reaches(b: Bytes, k: nat) {
    forall j :: 0 <= j < k ==> ReadAt(b, j).Fields?
  }

  /** The limit that read k passes: bytes before rows before fields. */
  function LimitAt(b: Bytes, ahead: nat -> nat, policy: Policy, k: nat): Option<ErrorCode> {
    var read := ReadAt(b, k);
    if PulledAt(b, ahead, k) > policy.maxBytes then Some(CsvTooLarge)
    else if !read.Fields? then None
    else if k > policy.maxRows then Some(TooManyRows)
    else if !FieldsWithin(if k == 0 then TrimFirst(read.record) else read.record, policy) then Some(FieldTooLarge)
    else None
  }

  /** Read k passes a limit, and no read before it does. */
  ghost predicate IsFirstLimit(b: Bytes, ahead: nat -> nat, policy: Policy, k: nat) {
    Reaches(b, k) && LimitAt(b, ahead, policy, k).Some? && forall j :: 0 <= j < k ==> LimitAt(b, ahead, policy, j).None?
  }

  // ----- the reader finds the first limit

  /** The reader before the read of data row k. */
  ghost predicate IsBefore(r: Reader, b: Bytes, ahead: nat -> nat, policy: Policy, k: nat) {
    && k > 0 && r.policy == policy && r.total == |b| && r.ahead == ahead && r.rest == RestAfter(b, k)
    && r.pulled == PulledAt(b, ahead, k - 1) && r.rowsRead == k - 1 && r.nextLine == k + 1
  }

  lemma StepFindsLimit(r: Reader, b: Bytes, ahead: nat -> nat, policy: Policy, k: nat)
    requires IsBefore(r, b, ahead, policy, k) && policy.Valid()
    ensures r.Valid()
    ensures var (next, outcome) := Step(r);
            var limit := LimitAt(b, ahead, policy, k);
            if limit.Some? then
              outcome.Stopped? && outcome.err.CsvError? && outcome.err.code == limit.value && outcome.err.row == k + 1
            else if !ReadAt(b, k).Fields? then outcome.IsStop() && LimitError(outcome).None?
            else !outcome.IsStop() && IsBefore(next, b, ahead, policy, k + 1)
  {
  }

  /** A stop that reports the limit that read i is the first to pass, or none if no read passes one. */
  ghost predicate Finds(stop: Outcome, b: Bytes, ahead: nat -> nat, policy: Policy, i: nat) {
    var found := LimitError(stop);
    if found.Some? then
      IsFirstLimit(b, ahead, policy, i) && found.value.row == i + 1
      && found.value.code == LimitAt(b, ahead, policy, i).value
    else forall j :: 0 <= j && Reaches(b, j) ==> LimitAt(b, ahead, policy, j).None?
  }

  lemma FinalOfStep(r: Reader)
    requires r.Valid()
    ensures ReadAll(r).Final() == if Step(r).1.IsStop() then Step(r).1 else ReadAll(Step(r).0).Final()
  {
  }

  lemma StopFinds(stop: Outcome, b: Bytes, ahead: nat -> nat, policy: Policy, k: nat)
    requires Reaches(b, k) && forall j :: 0 <= j < k ==> LimitAt(b, ahead, policy, j).None?
    requires var limit := LimitAt(b, ahead, policy, k);
             if limit.Some? then
               stop.Stopped? && stop.err.CsvError? && stop.err.code == limit.value && stop.err.row == k + 1
             else !ReadAt(b, k).Fields? && LimitError(stop).None?
    ensures Finds(stop, b, ahead, policy, k)
  {
    if LimitAt(b, ahead, policy, k).None? {
      forall j | k < j ensures !Reaches(b, j) {
        assert !ReadAt(b, k).Fields?;
      }
    }
  }

  /** The reader before the read of data row k, with no limit passed so far. */
  ghost predicate IsWithin(r: Reader, b: Bytes, ahead: nat -> nat, policy: Policy, k: nat) {
    && IsBefore(r, b, ahead, policy, k) && policy.Valid() && Reaches(b, k)
    && forall j :: 0 <= j < k ==> LimitAt(b, ahead, policy, j).None?
  }

  lemma StepFindsOrGoesOn(r: Reader, b: Bytes, ahead: nat -> nat, policy: Policy, k: nat)
    requires IsWithin(r, b, ahead, policy, k)
    ensures r.Valid()
    ensures var (next, outcome) := Step(r);
            if outcome.IsStop() then Finds(outcome, b, ahead, policy, k)
            else IsWithin(next, b, ahead, policy, k + 1)
  {
    StepFindsLimit(r, b, ahead, policy, k);
    if Step(r).1.IsStop() {
      StopFinds(Step(r).1, b, ahead, policy, k);
    }
  }

  lemma {:induction false} ReadAllFindsLimit(r: Reader, b: Bytes, ahead: nat -> nat, policy: Policy, k: nat)
    returns (i: nat)
    requires r.Valid() && IsWithin(r, b, ahead, policy, k)
    ensures Finds(ReadAll(r).Final(), b, ahead, policy, i)
    decreases |r.rest|
  {
    StepFindsOrGoesOn(r, b, ahead, policy, k);
    FinalOfStep(r);
    var (next, outcome) := Step(r);
    i := k;
    if !outcome.IsStop() {
      i := ReadAllFindsLimit(next, b, ahead, policy, k + 1);
    }
  }

  lemma OpenFindsLimit(b: Bytes, ahead: nat -> nat, policy: Policy)
    requires policy.Valid()
    ensures var start, limit := Open(b, ahead, None, policy), LimitAt(b, ahead, policy, 0);
            if limit.Some? then
              start.Refused? && start.err.CsvError? && start.err.code == limit.value && start.err.row == 1
            else if !ReadAt(b, 0).Fields? then start.Refused? && LimitError(Stopped(start.err)).None?
            else start.Opened? && IsBefore(start.reader, b, ahead, policy, 1)
  {
    if ReadAt(b, 0).Fields? {
      HeaderWithin(TrimFirst(ReadAt(b, 0).record), policy);
      HeaderProblemIsFirst(TrimFirst(ReadAt(b, 0).record), 0, None, policy);
    }
  }

  /**
   * The check reports a limit exactly when some read that is reached passes one, and then the first:
   * its line and its code, for every arrival of the input.
   */
  lemma CheckReportsFirstLimit(data: Bytes, ahead: nat -> nat, policy: Policy) returns (k: nat)
    requires policy.Valid()
    ensures var b, found := Limited(data, policy), CheckError(data, ahead, policy);
            if found.Some? then
              IsFirstLimit(b, ahead, policy, k) && found.value.CsvError?
              && found.value.row == k + 1 && found.value.code == LimitAt(b, ahead, policy, k).value
            else forall j :: 0 <= j && Reaches(b, j) ==> LimitAt(b, ahead, policy, j).None?
  {
    var b := Limited(data, policy);
    OpenFindsLimit(b, ahead, policy);
    var start := Open(b, ahead, None, policy);
    if start.Opened? {
      k := ReadAllFindsLimit(start.reader, b, ahead, policy, 1);
    } else {
      k := 0;
      StopFinds(Stopped(start.err), b, ahead, policy, 0);
    }
  }

  // ----- files beyond the byte limit

  lemma {:induction false} EndIsReached(b: Bytes, k: nat) returns (end: nat)
    requires Reaches(b, k) && forall j :: 0 <= j && Reaches(b, j) ==> !ReadAt(b, j).Malformed?
    ensures Reaches(b, end) && ReadAt(b, end).EndOfInput?
    decreases |RestAfter(b, k)|
  {
    if ReadAt(b, k).EndOfInput? {
      end := k;
    } else {
      end := EndIsReached(b, k + 1);
    }
  }

  /** A file beyond the byte limit, cut there without a syntax error, never passes the check. */
  lemma OverlongFileIsReported(data: Bytes, ahead: nat -> nat, policy: Policy)
    requires policy.Valid() && policy.maxBytes < MAX_INT64 && |data| > policy.maxBytes
    requires forall j :: 0 <= j && Reaches(Limited(data, policy), j) ==> !ReadAt(Limited(data, policy), j).Malformed?
    ensures var found := CheckError(data, ahead, policy);
            && found.Some? && found.value.CsvError?
            && (found.value.code == CsvTooLarge || found.value.code == TooManyRows || found.value.code == FieldTooLarge)
  {
    var b := Limited(data, policy);
    LimitedMeaning(data, policy);
    var k := CheckReportsFirstLimit(data, ahead, policy);
    var end := EndIsReached(b, 0);
    assert PulledAt(b, ahead, end) > policy.maxBytes;
    assert LimitAt(b, ahead, policy, end) == Some(CsvTooLarge);
  }

  lemma {:induction false} OverlongNeverFinishes(r: Reader)
    requires r.Valid() && r.total > r.policy.maxBytes
    ensures ReadAll(r).Final() != Finished
    decreases |r.rest|
  {
    StepTells(r);
    if !Step(r).1.IsStop() {
      OverlongNeverFinishes(Step(r).0);
    }
  }

  /** No reader, whatever header keys it accepts, reads a file beyond the byte limit to a regular end. */
  lemma OverlongFileNeverFinishes(data: Bytes, ahead: nat -> nat, accepts: Accepts, policy: Policy)
    requires policy.Valid() && policy.maxBytes < MAX_INT64 && |data| > policy.maxBytes
    ensures ReadFile(Limited(data, policy), ahead, accepts, policy).Final() != Finished
  {
    LimitedMeaning(data, policy);
    var start := Open(Limited(data, policy), ahead, accepts, policy);
    if start.Opened? {
      OverlongNeverFinishes(start.reader);
    }
  }
}
