/** Rebuilding the progress map from the event rows of one student, as
    `cloud_load_progress` does once the rows have been fetched, and the fact
    that replaying the rows a session wrote reproduces that session's map. */
module EventLog {
  import opened Wrappers
  import opened PyText
  import opened Progress
  import opened Scheduler

  /** One row of the event sheet, reduced to the columns the loader reads.
      A missing column reads as `None` (`row.get(key)`), except the word,
      whose default is the empty string, hence its `Option`. */
  datatype Row = Row(word: Option<Value>, success: Value, lastSeen: Value, timestamp: Value, nextDue: Value)

  /** Python's `str(v)`. */
  function PyStr(v: Value): string {
    match v
    case Null => "None"
    case Str(s) => s
    case Int(i) => IntToDecimal(i)
    case Bool(b) => if b then "True" else "False"
  }

  /** `str(row.get("word", "")).strip()`: the word a row is about. Only a
      string cell can carry surrounding white space; the text of any other
      cell is already stripped (`WordTextStripped`). */
  function RowWord(row: Row): string {
    match row.word
    case None => ""
    case Some(Str(s)) => Strip(s)
    case Some(v) => PyStr(v)
  }

  /** The text of the word cell, before stripping. */
  function WordText(row: Row): string {
    match row.word case Some(v) => PyStr(v) case None => ""
  }

  /** `RowWord` is exactly `str(row.get("word", "")).strip()`. */
  lemma WordTextStripped(row: Row)
    ensures RowWord(row) == Strip(WordText(row))
  {
    match row.word
    case None =>
    case Some(Str(s)) =>
    case Some(Null) => AlreadyStripped(PyStr(Null));
    case Some(Bool(b)) => AlreadyStripped(PyStr(Bool(b)));
    case Some(Int(i)) =>
      var t := PyStr(Int(i));
      if i < 0 {
        assert t[0] == '-';
      }
      AlreadyStripped(t);
  }

  /** The texts accepted as a success. */
  const SuccessTexts: seq<string> := ["true", "1", "yes"]

  /** `str(row.get("success")).lower() in ("true", "1", "yes")`. */
  predicate SuccessFlag(row: Row) {
    Lower(PyStr(row.success)) in SuccessTexts
  }

  lemma LowerTrue()
    ensures Lower("True") == "true" && Lower("False") != "true" && Lower("None")[0] == 'n'
  {
    assert Lower("True")[0] == 't' && Lower("True")[1] == 'r';
    assert Lower("True")[2] == 'u' && Lower("True")[3] == 'e';
    assert Lower("False")[0] == 'f';
  }

  /** Lower-casing leaves digits and the minus sign alone. */
  lemma LowerDecimal(i: int)
    ensures Lower(IntToDecimal(i)) == IntToDecimal(i)
  {
    var d := IntToDecimal(i);
    forall k | 0 <= k < |d|
      ensures Lower(d)[k] == d[k]
    {
      if i < 0 && k > 0 {
        assert d[k] == NatToDecimal(-i)[k - 1];
      }
    }
  }

  /** Which cell values count as a success: the boolean `True`, the integer
      1, and strings that lower-case to `true`, `1` or `yes`; never `None`. */
  lemma {:induction false} SuccessFlagCases(row: Row)
    ensures SuccessFlag(row) <==> match row.success
      case Null => false
      case Bool(b) => b
      case Int(i) => i == 1
      case Str(s) => Lower(s) in SuccessTexts
  {
    LowerTrue();
    match row.success
    case Null =>
    case Bool(b) =>
    case Str(s) =>
    case Int(i) =>
      var d := IntToDecimal(i);
      LowerDecimal(i);
      if i < 0 {
        assert d[0] == '-';
      } else {
        assert IsDigit(d[0]);
        if d == "1" {
          assert |NatToDecimal(i)| == 1;
          assert [DigitChar(i)] == "1";
        }
      }
  }

  /** `row.get("last_seen") or row.get("timestamp") or None`. */
  function RowLastSeen(row: Row): (v: Value)
    ensures Truthy(row.lastSeen) ==> v == row.lastSeen
    ensures !Truthy(row.lastSeen) && Truthy(row.timestamp) ==> v == row.timestamp
    ensures !Truthy(row.lastSeen) && !Truthy(row.timestamp) ==> v == Null
  {
    if Truthy(row.lastSeen) then row.lastSeen else OrNull(row.timestamp)
  }

  /** The record update for one row about `w`: the record (fresh if new)
      counts one more success or error and takes the given dates. */
  function Upsert(prog: ProgressMap, w: string, ok: bool, lastSeen: Value, nextDue: Value): (r: ProgressMap)
    ensures r.Keys == prog.Keys + {w}
    ensures forall k :: k in prog && k != w ==> r[k] == prog[k]
    ensures r[w].success == Lookup(prog, w).success + (if ok then 1 else 0)
    ensures r[w].errors == Lookup(prog, w).errors + (if ok then 0 else 1)
    ensures r[w].lastSeen == lastSeen && r[w].nextDue == nextDue
  {
    var rec := Lookup(prog, w);
    var counted := if ok then rec.(success := rec.success + 1) else rec.(errors := rec.errors + 1);
    prog[w := counted.(lastSeen := lastSeen, nextDue := nextDue)]
  }

  /** One iteration of the row loop: rows without a word are skipped;
      otherwise the word's record is updated from the row. */
  function ApplyRow(prog: ProgressMap, row: Row): ProgressMap {
    var w := RowWord(row);
    if w == [] then prog else Upsert(prog, w, SuccessFlag(row), RowLastSeen(row), OrNull(row.nextDue))
  }

  /** The row loop of `cloud_load_progress`, from an empty map, in row order. */
  function Replay(rows: seq<Row>): ProgressMap
    decreases |rows|
  {
    if rows == [] then map[]
    else ApplyRow(Replay(rows[..|rows| - 1]), rows[|rows| - 1])
  }

  /** Number of rows about `w`. */
  function RowCount(rows: seq<Row>, w: string): nat
    decreases |rows|
  {
    if rows == [] then 0
    else RowCount(rows[..|rows| - 1], w) + (if RowWord(rows[|rows| - 1]) == w then 1 else 0)
  }

  /** Number of successful rows about `w`. */
  function SuccessRows(rows: seq<Row>, w: string): nat
    decreases |rows|
  {
    if rows == [] then 0
    else
      var last := rows[|rows| - 1];
      SuccessRows(rows[..|rows| - 1], w) + (if RowWord(last) == w && SuccessFlag(last) then 1 else 0)
  }

  /** The last row about `w`, if any. */
  function LastRowFor(rows: seq<Row>, w: string): Option<Row>
    decreases |rows|
  {
    if rows == [] then None
    else if RowWord(rows[|rows| - 1]) == w then Some(rows[|rows| - 1])
    else LastRowFor(rows[..|rows| - 1], w)
  }

  /** What the rebuilt record of `w` must be, read off the rows directly. */
  predicate Summarizes(prog: ProgressMap, rows: seq<Row>, w: string) {
    && (w in prog <==> w != [] && RowCount(rows, w) > 0)
    && (w in prog ==>
         && prog[w].success == SuccessRows(rows, w)
         && prog[w].errors + prog[w].success == RowCount(rows, w)
         && LastRowFor(rows, w).Some?
         && prog[w].lastSeen == RowLastSeen(LastRowFor(rows, w).value)
         && prog[w].nextDue == OrNull(LastRowFor(rows, w).value.nextDue))
  }

  /** The rebuilt map has a record exactly for the non-empty words some row
      is about; its success count is the number of successful rows, success
      plus errors is the number of rows, and both dates come from the word's
      last row (an empty due value giving `None`). */
  lemma {:induction false} ReplaySummarizes(rows: seq<Row>)
    ensures forall w :: Summarizes(Replay(rows), rows, w)
    decreases |rows|
  {
    if rows != [] {
      var init := rows[..|rows| - 1];
      ReplaySummarizes(init);
      forall w
        ensures Summarizes(Replay(rows), rows, w)
      {
        ReplayStep(rows, w);
      }
    }
  }

  /** Successful rows about `w` are among the rows about `w`. */
  lemma {:induction false} SuccessRowsBounded(rows: seq<Row>, w: string)
    ensures SuccessRows(rows, w) <= RowCount(rows, w)
    decreases |rows|
  {
    if rows != [] {
      SuccessRowsBounded(rows[..|rows| - 1], w);
    }
  }

  /** A row about another word changes nothing the summary of `w` reads. */
  lemma StepOtherWord(rows: seq<Row>, w: string)
    requires rows != [] && RowWord(rows[|rows| - 1]) != w
    ensures var init := rows[..|rows| - 1];
      && RowCount(rows, w) == RowCount(init, w)
      && SuccessRows(rows, w) == SuccessRows(init, w)
      && LastRowFor(rows, w) == LastRowFor(init, w)
      && (w in Replay(rows) <==> w in Replay(init))
      && (w in Replay(init) ==> Replay(rows)[w] == Replay(init)[w])
  {
  }

  /** A row about `w` counts once more and supplies the dates. */
  lemma StepSameWord(rows: seq<Row>, w: string)
    requires rows != [] && RowWord(rows[|rows| - 1]) == w && w != []
    ensures var init := rows[..|rows| - 1];
      var last := rows[|rows| - 1];
      && RowCount(rows, w) == RowCount(init, w) + 1
      && SuccessRows(rows, w) == SuccessRows(init, w) + (if SuccessFlag(last) then 1 else 0)
      && LastRowFor(rows, w) == Some(last)
      && w in Replay(rows)
      && Replay(rows)[w].success == Lookup(Replay(init), w).success + (if SuccessFlag(last) then 1 else 0)
      && Replay(rows)[w].errors == Lookup(Replay(init), w).errors + (if SuccessFlag(last) then 0 else 1)
      && Replay(rows)[w].lastSeen == RowLastSeen(last)
      && Replay(rows)[w].nextDue == OrNull(last.nextDue)
  {
  }

  /** The record a new row about `w` starts from agrees with the rows so far,
      whether or not `w` had a record yet. */
  lemma CountsBefore(rows: seq<Row>, w: string)
    requires w != [] && Summarizes(Replay(rows), rows, w)
    ensures Lookup(Replay(rows), w).success == SuccessRows(rows, w)
    ensures Lookup(Replay(rows), w).errors + Lookup(Replay(rows), w).success == RowCount(rows, w)
  {
    SuccessRowsBounded(rows, w);
  }

  /** One more row keeps `Summarizes` for every word. */
  lemma ReplayStep(rows: seq<Row>, w: string)
    requires rows != [] && Summarizes(Replay(rows[..|rows| - 1]), rows[..|rows| - 1], w)
    ensures Summarizes(Replay(rows), rows, w)
  {
    var init := rows[..|rows| - 1];
    var last := rows[|rows| - 1];
    var prog, prog' := Replay(init), Replay(rows);
    assert Summarizes(prog, init, w);
    if RowWord(last) != w {
      StepOtherWord(rows, w);
      assert w in prog' <==> w != [] && RowCount(rows, w) > 0;
      if w in prog' {
        assert prog'[w] == prog[w];
        assert LastRowFor(rows, w) == LastRowFor(init, w);
      }
    } else if w == [] {
      assert prog' == prog;
      assert w !in prog';
    } else {
      StepSameWord(rows, w);
      CountsBefore(init, w);
      assert w in prog';
      assert RowCount(rows, w) > 0;
      assert prog'[w].success == SuccessRows(rows, w);
      assert prog'[w].errors + prog'[w].success == RowCount(rows, w);
      assert LastRowFor(rows, w) == Some(last);
      assert prog'[w].lastSeen == RowLastSeen(LastRowFor(rows, w).value);
      assert prog'[w].nextDue == OrNull(LastRowFor(rows, w).value.nextDue);
    }
  }

  /** The keys of a rebuilt map are stripped, non-empty words. */
  lemma ReplayKeysStripped(rows: seq<Row>, w: string)
    requires w in Replay(rows)
    ensures w != [] && Stripped(w)
  {
    ReplaySummarizes(rows);
    assert Summarizes(Replay(rows), rows, w);
    LastRowWord(rows, w);
    var last := LastRowFor(rows, w).value;
    WordTextStripped(last);
    StripIdempotent(WordText(last));
  }

  lemma {:induction false} LastRowWord(rows: seq<Row>, w: string)
    requires LastRowFor(rows, w).Some?
    ensures RowWord(LastRowFor(rows, w).value) == w
    decreases |rows|
  {
    if RowWord(rows[|rows| - 1]) != w {
      LastRowWord(rows[..|rows| - 1], w);
    }
  }

  /** The event as a sheet row; the class code, user name and the two
      counters are written too but not read back by the loader. */
  function EventRow(e: AttemptEvent): Row {
    Row(Some(Str(e.word)), Bool(e.success), e.lastSeen, Str(e.timestamp), e.nextDue)
  }

  function EventRows(es: seq<AttemptEvent>): (rows: seq<Row>)
    ensures |rows| == |es|
    ensures forall i :: 0 <= i < |es| ==> rows[i] == EventRow(es[i])
  {
    seq(|es|, i requires 0 <= i < |es| => EventRow(es[i]))
  }

  lemma EventRowsSnoc(es: seq<AttemptEvent>, e: AttemptEvent)
    ensures EventRows(es + [e]) == EventRows(es) + [EventRow(e)]
  {
    assert forall i :: 0 <= i < |es| ==> (es + [e])[i] == es[i];
  }

  /** Replaying one more row is one more loop iteration. */
  lemma ReplaySnoc(rows: seq<Row>, row: Row)
    ensures Replay(rows + [row]) == ApplyRow(Replay(rows), row)
  {
    var full := rows + [row];
    assert full[..|full| - 1] == rows;
    assert full[|full| - 1] == row;
  }

  lemma SnocAssoc<T>(a: seq<T>, b: seq<T>, x: T)
    ensures a + (b + [x]) == (a + b) + [x]
  {
  }

  /** One graded answer of the drill. */
  datatype Attempt = Attempt(word: string, ok: bool, now: int)

  /** The progress map after a run of attempts and the events they logged. */
  datatype Drilled = Drilled(progress: ProgressMap, events: seq<AttemptEvent>)

  /** Calling `save_event_and_progress` for each attempt in turn. */
  function Drill(p: ProgressMap, classCode: string, username: string,
                 attempts: seq<Attempt>, iso: IsoCodec): (d: Drilled)
    ensures |d.events| == |attempts|
    decreases |attempts|
  {
    if attempts == [] then Drilled(p, [])
    else
      var before := Drill(p, classCode, username, attempts[..|attempts| - 1], iso);
      var a := attempts[|attempts| - 1];
      var o := SaveEventAndProgress(before.progress, classCode, username, a.word, a.ok, a.now, iso);
      Drilled(o.progress, before.events + [o.event])
  }

  /** The word, outcome and dates read back from an event row are the
      event's own, given stripped words and non-empty ISO text. */
  lemma ReadEventRow(e: AttemptEvent)
    requires e.word != [] && Stripped(e.word)
    requires e.lastSeen.Str? && e.lastSeen.s != [] && e.nextDue.Str? && e.nextDue.s != []
    ensures RowWord(EventRow(e)) == e.word
    ensures SuccessFlag(EventRow(e)) == e.success
    ensures RowLastSeen(EventRow(e)) == e.lastSeen
    ensures OrNull(EventRow(e).nextDue) == e.nextDue
  {
    var row := EventRow(e);
    AlreadyStripped(e.word);
    SuccessFlagCases(row);
  }

  /** The live update is the same record update a row would make. */
  lemma SaveIsUpsert(p: ProgressMap, classCode: string, username: string,
                     word: string, ok: bool, now: int, iso: IsoCodec)
    ensures var o := SaveEventAndProgress(p, classCode, username, word, ok, now, iso);
      o.progress == Upsert(p, word, ok, o.event.lastSeen, o.event.nextDue)
  {
  }

  /** Folding one logged event into a map gives what the live update gave. */
  lemma ReplayOneEvent(p: ProgressMap, classCode: string, username: string,
                       word: string, ok: bool, now: int, iso: IsoCodec)
    requires Canonical(iso)
    requires word != [] && Stripped(word)
    ensures var o := SaveEventAndProgress(p, classCode, username, word, ok, now, iso);
      ApplyRow(p, EventRow(o.event)) == o.progress
  {
    var o := SaveEventAndProgress(p, classCode, username, word, ok, now, iso);
    var e := o.event;
    var due := DueAfter(ok, o.progress[word].errors, now);
    assert iso.format(now) != [] && iso.format(due) != [];
    ReadEventRow(e);
    SaveIsUpsert(p, classCode, username, word, ok, now, iso);
  }

  /** Event replay determinism: loading progress from the log after a run of
      attempts gives exactly the map the session held live, provided every
      attempted word is non-empty and has no surrounding white space. The
      session keys a record by the answer as stored, the loader by the
      stripped word, so without that proviso the two maps differ
      (`UnstrippedWordNotReproduced`). */
  lemma {:induction false} ReplayReproducesLive(rows: seq<Row>, classCode: string, username: string,
                                                attempts: seq<Attempt>, iso: IsoCodec)
    requires Canonical(iso)
    requires forall i :: 0 <= i < |attempts| ==> attempts[i].word != [] && Stripped(attempts[i].word)
    ensures var d := Drill(Replay(rows), classCode, username, attempts, iso);
      Replay(rows + EventRows(d.events)) == d.progress
    decreases |attempts|
  {
    var d := Drill(Replay(rows), classCode, username, attempts, iso);
    if attempts == [] {
      assert rows + EventRows(d.events) == rows;
    } else {
      var init := attempts[..|attempts| - 1];
      var a := attempts[|attempts| - 1];
      var before := Drill(Replay(rows), classCode, username, init, iso);
      ReplayReproducesLive(rows, classCode, username, init, iso);
      var o := SaveEventAndProgress(before.progress, classCode, username, a.word, a.ok, a.now, iso);
      assert d.events == before.events + [o.event];
      var log := rows + EventRows(before.events);
      var row := EventRow(o.event);
      EventRowsSnoc(before.events, o.event);
      SnocAssoc(rows, EventRows(before.events), row);
      assert rows + EventRows(d.events) == log + [row];
      ReplayOneEvent(before.progress, classCode, username, a.word, a.ok, a.now, iso);
      ReplaySnoc(log, row);
    }
  }

  /** A padded answer is where the live map and the reloaded one part ways:
      one failed attempt at `" " + w` is recorded live under that padded
      word, but the loader strips it and rebuilds a record for `w` instead. */
  lemma UnstrippedWordNotReproduced(w: string, classCode: string, username: string, iso: IsoCodec)
    requires w != [] && Stripped(w)
    ensures var d := Drill(map[], classCode, username, [Attempt(" " + w, false, 0)], iso);
      " " + w in d.progress && " " + w !in Replay(EventRows(d.events))
      && Replay(EventRows(d.events)) != d.progress
  {
    var padded := " " + w;
    var o := SaveEventAndProgress(map[], classCode, username, padded, false, 0, iso);
    DrillOne(map[], classCode, username, Attempt(padded, false, 0), iso);
    StripOneLeadingSpace(w);
    EventReplaysStripped(o.event);
    assert |padded| == |w| + 1;
  }

  /** Replaying the row of a single event keys the record by the event's
      word stripped, whatever the live update keyed it by. */
  lemma EventReplaysStripped(e: AttemptEvent)
    requires Strip(e.word) != []
    ensures Replay(EventRows([e])).Keys == {Strip(e.word)}
  {
    var row := EventRow(e);
    assert EventRows([e]) == [row];
    assert RowWord(row) == Strip(e.word);
    ReplayOneRow(row);
  }

  /** Replaying a single row gives a record for its word alone, or nothing
      when the row has no word. */
  lemma ReplayOneRow(row: Row)
    ensures Replay([row]).Keys == if RowWord(row) == [] then {} else {RowWord(row)}
  {
    assert [row][..0] == [];
    assert Replay([row]) == ApplyRow(map[], row);
  }

  /** A run of one attempt is one call of the live update. */
  lemma DrillOne(p: ProgressMap, classCode: string, username: string, a: Attempt, iso: IsoCodec)
    ensures var o := SaveEventAndProgress(p, classCode, username, a.word, a.ok, a.now, iso);
      Drill(p, classCode, username, [a], iso) == Drilled(o.progress, [o.event])
  {
    assert [a][..0] == [];
  }
}
