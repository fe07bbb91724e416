/**
The polling loops of code_update_utils.py: `wait_for_activation_state_change` and the loop of `verify_image_upload`.

A REST read either fails or yields a value; the stream of outcomes is arbitrary.
*/
module Polling {

  datatype Reading = Fails | Reads(value: string)

  type Readings = nat -> Reading

  // ----- wait_for_activation_state_change -----

  const MAX_UNCHANGED := 60
  const READ_FAIL_THRESHOLD := 3

  /** How the wait ends: normally, or with one of the two test failures. */
  datatype End = Changed | ReadErrors | TimedOut

  /** The number of the first n reads that find the initial state. */
  function Unchanged(readings: Readings, initial: string, n: nat): nat {
    if n == 0 then 0
    else Unchanged(readings, initial, n - 1) + if readings(n - 1) == Reads(initial) then 1 else 0
  }

  /** The number of failures among the first n reads. */
  function Failures(readings: Readings, n: nat): (f: nat)
    ensures f <= n
  {
    if n == 0 then 0 else Failures(readings, n - 1) + if readings(n - 1).Fails? then 1 else 0
  }

  predicate Differs(readings: Readings, initial: string, i: nat) {
    readings(i).Reads? && readings(i).value != initial
  }

  predicate ThirdFailureInARow(readings: Readings, i: nat) {
    i >= 2 && readings(i).Fails? && readings(i - 1).Fails? && readings(i - 2).Fails?
  }

  predicate SixtiethUnchanged(readings: Readings, initial: string, i: nat) {
    readings(i) == Reads(initial) && Unchanged(readings, initial, i + 1) == 60
  }

  datatype Verdict = Undecided | Decided(end: End)

  /** What the i-th read decides, judged by the reads up to it alone. */
  function VerdictAt(readings: Readings, initial: string, i: nat): Verdict {
    if Differs(readings, initial, i) then Decided(Changed)
    else if ThirdFailureInARow(readings, i) then Decided(ReadErrors)
    else if SixtiethUnchanged(readings, initial, i) then Decided(TimedOut)
    else Undecided
  }

  ghost predicate UndecidedBefore(readings: Readings, initial: string, n: nat) {
    forall i: nat :: i < n ==> VerdictAt(readings, initial, i) == Undecided
  }

  lemma FirstVerdictIsTheOnlyOne(readings: Readings, initial: string, i: nat)
    requires VerdictAt(readings, initial, i).Decided? && UndecidedBefore(readings, initial, i)
    ensures VerdictAt(readings, initial, i) == Decided(Changed) <==>
            exists j: nat :: Differs(readings, initial, j) && UndecidedBefore(readings, initial, j)
  {
    if exists j: nat :: Differs(readings, initial, j) && UndecidedBefore(readings, initial, j) {
      var j: nat :| Differs(readings, initial, j) && UndecidedBefore(readings, initial, j);
      assert VerdictAt(readings, initial, j) == Decided(Changed);
      assert !(i < j) && !(j < i);
    }
  }

  /** On every stream the wait ends, after at most 180 reads and 4200 seconds of sleep, with the first verdict of the
      stream; it returns normally exactly when a read of a different state comes before any other verdict.  It sleeps
      ten seconds after each unchanged read, and thirty after each failed one but the last. */
  method WaitForStateChange(readings: Readings, initial: string) returns (end: End, readCount: nat, slept: nat)
    ensures 1 <= readCount <= 180 && slept <= 4200
    ensures slept == 10 * Unchanged(readings, initial, readCount)
                     + 30 * (Failures(readings, readCount) - if end == ReadErrors then 1 else 0)
    ensures VerdictAt(readings, initial, readCount - 1) == Decided(end)
    ensures UndecidedBefore(readings, initial, readCount - 1)
    ensures end == Changed <==> exists i: nat :: Differs(readings, initial, i) && UndecidedBefore(readings, initial, i)
  {
    end, readCount, slept := PollState(readings, initial);
    FirstVerdictIsTheOnlyOne(readings, initial, readCount - 1);
  }

  /** The failures in a row that the last read ends, and what came before them. */
  ghost predicate FailedInARow(readings: Readings, readCount: nat, failures: nat) {
    && failures <= readCount
    && (forall i: nat :: readCount - failures <= i < readCount ==> readings(i).Fails?)
    && (readCount > failures ==> readings(readCount - failures - 1).Reads?)
  }

  /** The loop. */
  method PollState(readings: Readings, initial: string) returns (end: End, readCount: nat, slept: nat)
    ensures 1 <= readCount <= 180 && slept <= 4200
    ensures slept == 10 * Unchanged(readings, initial, readCount)
                     + 30 * (Failures(readings, readCount) - if end == ReadErrors then 1 else 0)
    ensures VerdictAt(readings, initial, readCount - 1) == Decided(end)
    ensures UndecidedBefore(readings, initial, readCount - 1)
  {
    var retry, numReadErrors := 0, 0;
    readCount, slept := 0, 0;
    while retry < MAX_UNCHANGED
      invariant retry == Unchanged(readings, initial, readCount) <= MAX_UNCHANGED
      invariant numReadErrors <= 2 && readCount <= 3 * retry + numReadErrors
      invariant FailedInARow(readings, readCount, numReadErrors)
      invariant retry < MAX_UNCHANGED ==> UndecidedBefore(readings, initial, readCount)
      invariant retry == MAX_UNCHANGED ==>
                  && numReadErrors == 0 && readCount > 0 && UndecidedBefore(readings, initial, readCount - 1)
                  && VerdictAt(readings, initial, readCount - 1) == Decided(TimedOut)
      invariant readCount == retry + Failures(readings, readCount)
      invariant slept == 10 * retry + 30 * (readCount - retry)
      decreases MAX_UNCHANGED - retry, 3 - numReadErrors
    {
      var reading := readings(readCount);
      readCount := readCount + 1;
      if reading.Fails? {
        numReadErrors := numReadErrors + 1;
        if numReadErrors >= READ_FAIL_THRESHOLD {
          return ReadErrors, readCount, slept;
        }
        slept := slept + 30;
        continue;
      }
      numReadErrors := 0;
      if reading.value == initial {
        slept := slept + 10;
        retry := retry + 1;
      } else {
        return Changed, readCount, slept;
      }
    }
    end := TimedOut;
  }

  // ----- verify_image_upload -----

  const READY := "xyz.openbmc_project.Software.Activation.Activations.Ready"
  const INVALID := "xyz.openbmc_project.Software.Activation.Activations.Invalid"
  const ACTIVE := "xyz.openbmc_project.Software.Activation.Activations.Active"
  const REST_FAIL_LIMIT := 6

  /** The read finds one of the activation states waited for. */
  predicate Settled(readings: Readings, i: nat) {
    || readings(i) == Reads("xyz.openbmc_project.Software.Activation.Activations.Ready")
    || readings(i) == Reads("xyz.openbmc_project.Software.Activation.Activations.Invalid")
    || readings(i) == Reads("xyz.openbmc_project.Software.Activation.Activations.Active")
  }

  predicate SixthFailureInARow(readings: Readings, i: nat) {
    i >= 5 && forall j: nat :: i - 5 <= j <= i ==> readings(j).Fails?
  }

  ghost predicate NeitherBefore(readings: Readings, n: nat) {
    forall i: nat :: i < n ==> !Settled(readings, i) && !SixthFailureInARow(readings, i)
  }

  /** One of the first 2 * timeout reads finds a settled state, before six failures in a row. */
  ghost predicate Uploaded(readings: Readings, timeout: int) {
    exists i: nat :: i < 2 * timeout && Settled(readings, i) && NeitherBefore(readings, i)
  }

  /** The polling loop; `timeout` is in minutes, two iterations each. */
  method VerifyImageUpload(readings: Readings, timeout: int) returns (uploaded: bool, readCount: nat)
    ensures uploaded <==> Uploaded(readings, timeout)
    ensures readCount <= if timeout < 0 then 0 else 2 * timeout
    // It stops at the first settled read and at the sixth failure in a row, and otherwise reads 2 * timeout times.
    ensures readCount > 0 ==> NeitherBefore(readings, readCount - 1)
    ensures uploaded ==> readCount > 0 && Settled(readings, readCount - 1)
    ensures !uploaded ==>
              || readCount == (if timeout < 0 then 0 else 2 * timeout)
              || (readCount > 0 && SixthFailureInARow(readings, readCount - 1))
  {
    var restFailCount := 0;
    readCount := 0;
    while readCount < timeout * 2
      invariant readCount <= if timeout < 0 then 0 else 2 * timeout
      invariant 0 <= restFailCount <= readCount && restFailCount < REST_FAIL_LIMIT
      invariant forall i: nat :: readCount - restFailCount <= i < readCount ==> readings(i).Fails?
      invariant readCount > restFailCount ==> readings(readCount - restFailCount - 1).Reads?
      invariant NeitherBefore(readings, readCount)
    {
      var reading := readings(readCount);
      readCount := readCount + 1;
      if reading.Fails? {
        restFailCount := restFailCount + 1;
        if restFailCount >= REST_FAIL_LIMIT {
          assert SixthFailureInARow(readings, readCount - 1);
          return false, readCount;
        }
        assert !SixthFailureInARow(readings, readCount - 1) by {
          if readCount > 5 {
            assert readings(readCount - 1 - restFailCount).Reads?;
          }
        }
        continue;
      }
      restFailCount := 0;
      if reading.value == READY || reading.value == INVALID || reading.value == ACTIVE {
        assert Settled(readings, readCount - 1);
        return true, readCount;
      }
    }
    uploaded := false;
  }

  /** What the documentation promises: failed reads do not use up the 2 * timeout state checks. */
  predicate WithinDocumentedBudget(readings: Readings, timeout: int, i: nat) {
    i - Failures(readings, i) < 2 * timeout
  }

  /** With i the first settled read, the loop succeeds exactly when it is among the first 2 * timeout reads of either
      kind. */
  lemma UploadedExactly(readings: Readings, timeout: int, i: nat)
    requires Settled(readings, i) && NeitherBefore(readings, i)
    ensures Uploaded(readings, timeout) <==> i < 2 * timeout
  {
    if Uploaded(readings, timeout) {
      var j: nat :| j < 2 * timeout && Settled(readings, j) && NeitherBefore(readings, j);
      assert !(i < j) && !(j < i);
    }
  }

  /** The promise is that a state settled within the documented budget is seen, whatever the timeout.  With i the
      first settled read, it is kept exactly when the failed reads before it do not delay it into a later pair of
      reads, that is, a later minute; what the loop sees is always within the budget. */
  lemma BudgetExactly(readings: Readings, i: nat)
    requires Settled(readings, i) && NeitherBefore(readings, i)
    ensures (forall timeout: int :: WithinDocumentedBudget(readings, timeout, i) ==> Uploaded(readings, timeout))
            <==> i / 2 == (i - Failures(readings, i)) / 2
    ensures forall timeout: int :: Uploaded(readings, timeout) ==> WithinDocumentedBudget(readings, timeout, i)
  {
    forall timeout: int
      ensures Uploaded(readings, timeout) <==> i < 2 * timeout
    {
      UploadedExactly(readings, timeout, i);
    }
    var checks := i - Failures(readings, i);
    if i / 2 != checks / 2 {
      assert WithinDocumentedBudget(readings, checks / 2 + 1, i) && !Uploaded(readings, checks / 2 + 1);
    }
  }

  /** One failed read is enough to break the promise: with a timeout of one minute a state settled at the second check
      is missed. */
  lemma FailedReadUsesUpBudget()
    ensures var readings: Readings := (i: nat) => if i == 0 then Fails else if i == 1 then Reads("") else Reads(READY);
            && WithinDocumentedBudget(readings, 1, 2)
            && Settled(readings, 2) && NeitherBefore(readings, 2) && !Uploaded(readings, 1)
  {
    var readings: Readings := (i: nat) => if i == 0 then Fails else if i == 1 then Reads("") else Reads(READY);
    assert Failures(readings, 2) == Failures(readings, 1) == 1;
    assert READY != "" && INVALID != "" && ACTIVE != "";
  }
}
