/** The scheduler inside `save_event_and_progress`: one graded attempt
    updates the word's counters, last-seen time and due time, and yields
    the event row that is appended to the log. Times are whole seconds. */
module Scheduler {
  import opened Wrappers
  import opened Progress

  /** Delay after the first error: 2 minutes. */
  const FirstErrorInterval: nat := 2 * 60
  /** Extra delay for every error after the first: 8 minutes. */
  const NextErrorGrowth: nat := 8 * 60
  /** Delay after a success, whatever the history: 10 minutes. */
  const FirstSuccessInterval: nat := 10 * 60

  /** The delay after a failure that brought the word to `errors` errors:
      `2min + 8min * max(0, errors - 1)`. */
  function ErrorInterval(errors: nat): (d: nat)
    ensures d >= FirstErrorInterval
  {
    FirstErrorInterval + NextErrorGrowth * (if errors >= 1 then errors - 1 else 0)
  }

  /** The failure delay never shrinks as errors accumulate and grows by
      exactly 8 minutes per extra error from the first error on. */
  lemma ErrorIntervalMonotone(a: nat, b: nat)
    ensures a <= b ==> ErrorInterval(a) <= ErrorInterval(b)
    ensures a >= 1 ==> ErrorInterval(a + 1) == ErrorInterval(a) + NextErrorGrowth
  {
  }

  /** The due instant after an attempt at `now` that left `errors` errors. */
  function DueAfter(ok: bool, errors: nat, now: int): (due: int)
    ensures due > now
    ensures ok ==> due == now + FirstSuccessInterval
    ensures !ok ==> due == now + ErrorInterval(errors)
  {
    if ok then now + FirstSuccessInterval else now + ErrorInterval(errors)
  }

  /** The row appended to the event log after an attempt. */
  datatype AttemptEvent = AttemptEvent(
    timestamp: string,
    classCode: string,
    username: string,
    word: string,
    success: bool,
    errors: nat,
    successCount: nat,
    lastSeen: Value,
    nextDue: Value)

  /** The new progress map and the event describing the attempt. */
  datatype Outcome = Outcome(progress: ProgressMap, event: AttemptEvent)

  /** `save_event_and_progress` without the transport: on success the
      success counter goes up and the word is due in 10 minutes; on failure
      the error counter goes up and the delay follows the error count.
      Either way the last-seen time is `now`, no counter goes down, no other
      word changes, and the event carries the word's new record. */
  function SaveEventAndProgress(p: ProgressMap, classCode: string, username: string,
                                word: string, ok: bool, now: int, iso: IsoCodec): (r: Outcome)
    ensures r.progress.Keys == p.Keys + {word}
    ensures forall k :: k in p && k != word ==> r.progress[k] == p[k]
    ensures ok ==> (r.progress[word].success == Lookup(p, word).success + 1 &&
                    r.progress[word].errors == Lookup(p, word).errors)
    ensures !ok ==> (r.progress[word].errors == Lookup(p, word).errors + 1 &&
                     r.progress[word].success == Lookup(p, word).success)
    ensures r.progress[word].lastSeen == Str(iso.format(now))
    ensures r.progress[word].nextDue == Str(iso.format(DueAfter(ok, r.progress[word].errors, now)))
    ensures r.event.timestamp == iso.format(now) && r.event.word == word && r.event.success == ok
    ensures r.event.classCode == classCode && r.event.username == username
    ensures r.event.errors == r.progress[word].errors && r.event.successCount == r.progress[word].success
    ensures r.event.lastSeen == r.progress[word].lastSeen && r.event.nextDue == r.progress[word].nextDue
  {
    var q := EnsureWord(p, word);
    var rec := q[word];
    var counted := if ok then rec.(success := rec.success + 1) else rec.(errors := rec.errors + 1);
    var due := if ok then now + FirstSuccessInterval else now + ErrorInterval(counted.errors);
    var seen := q[word := counted.(lastSeen := Str(iso.format(now)))];
    var after := SetDue(seen, word, Some(due), iso);
    var rec' := after[word];
    Outcome(after, AttemptEvent(iso.format(now), classCode, username, word, ok,
                                rec'.errors, rec'.success, rec'.lastSeen, rec'.nextDue))
  }

  /** Reading the due date back gives the scheduled instant, which is
      strictly later than the attempt. */
  lemma DueIsInFuture(p: ProgressMap, classCode: string, username: string,
                      word: string, ok: bool, now: int, iso: IsoCodec)
    requires Canonical(iso)
    ensures var r := SaveEventAndProgress(p, classCode, username, word, ok, now, iso);
      GetDue(r.progress, word, iso) == Some(DueAfter(ok, r.progress[word].errors, now))
    ensures var r := SaveEventAndProgress(p, classCode, username, word, ok, now, iso);
      GetDue(r.progress, word, iso).Some? && GetDue(r.progress, word, iso).value > now
  {
    var r := SaveEventAndProgress(p, classCode, username, word, ok, now, iso);
    var due := DueAfter(ok, r.progress[word].errors, now);
    var q := r.progress[word := r.progress[word].(nextDue := Null)];
    assert r.progress == SetDue(q, word, Some(due), iso);
    GetDueAfterSetDue(q, word, Some(due), iso);
  }

  /** Two failures in a row: the second waits exactly 8 minutes longer than
      the first, counted from its own attempt time. */
  lemma RepeatedFailureBacksOff(p: ProgressMap, classCode: string, username: string,
                                word: string, t1: int, t2: int, iso: IsoCodec)
    requires Canonical(iso)
    ensures var r1 := SaveEventAndProgress(p, classCode, username, word, false, t1, iso);
      var r2 := SaveEventAndProgress(r1.progress, classCode, username, word, false, t2, iso);
      GetDue(r1.progress, word, iso).Some? && GetDue(r2.progress, word, iso).Some? &&
      GetDue(r2.progress, word, iso).value - t2 == GetDue(r1.progress, word, iso).value - t1 + NextErrorGrowth
  {
    var r1 := SaveEventAndProgress(p, classCode, username, word, false, t1, iso);
    var r2 := SaveEventAndProgress(r1.progress, classCode, username, word, false, t2, iso);
    DueIsInFuture(p, classCode, username, word, false, t1, iso);
    DueIsInFuture(r1.progress, classCode, username, word, false, t2, iso);
    var e1 := r1.progress[word].errors;
    assert r2.progress[word].errors == e1 + 1;
    ErrorIntervalMonotone(e1, e1 + 1);
  }
}
