/** The review selector `pick_review`: every word failed more often than
    answered correctly and whose due time has come, in some random order. */
module Review {
  import opened Wrappers
  import opened Progress
  import opened Scheduler

  /** A record qualifies for review: strictly more errors than successes,
      and no due date or one not later than `now`. */
  predicate IsOverdue(rec: WordRecord, now: int, parse: string -> Option<int>) {
    var due := DueOf(rec.nextDue, parse);
    rec.errors > rec.success && (due.None? || due.value <= now)
  }

  /** The words of `p` that qualify for review at `now`. */
  function Candidates(p: ProgressMap, now: int, iso: IsoCodec): set<string> {
    set w | w in p && IsOverdue(p[w], now, iso.parse)
  }

  /** No element occurs twice. */
  predicate Distinct<T(==)>(s: seq<T>) {
    forall i, j :: 0 <= i < j < |s| ==> s[i] != s[j]
  }

  /** A sequence without repetitions has as many elements as its set. */
  lemma {:induction false} DistinctCardinality<T>(s: seq<T>)
    requires Distinct(s)
    ensures |set x | x in s| == |s|
  {
    if s != [] {
      var t := s[..|s| - 1];
      assert Distinct(t);
      DistinctCardinality(t);
      var last := s[|s| - 1];
      assert (set x | x in s) == (set x | x in t) + {last};
      assert last !in t;
    }
  }

  /** `pick_review`: the candidates as a list without repetitions, in the
      arbitrary order in which they are drawn from the map, which stands for
      `random.shuffle`. Ties never qualify, and neither does a word whose
      due date is later than `now`. */
  method PickReview(p: ProgressMap, now: int, iso: IsoCodec) returns (r: seq<string>)
    ensures Distinct(r)
    ensures forall w :: w in r <==> w in Candidates(p, now, iso)
    ensures |r| == |Candidates(p, now, iso)|
    ensures forall w :: w in r ==> w in p && p[w].errors > p[w].success
    ensures forall w :: w in p && GetDue(p, w, iso).Some? && GetDue(p, w, iso).value > now ==> w !in r
  {
    var todo := p.Keys;
    r := [];
    while todo != {}
      invariant todo <= p.Keys
      invariant Distinct(r)
      invariant forall w :: w in r <==> w in p.Keys - todo && IsOverdue(p[w], now, iso.parse)
      decreases todo
    {
      var w :| w in todo;
      if IsOverdue(p[w], now, iso.parse) {
        r := r + [w];
      }
      todo := todo - {w};
    }
    DistinctCardinality(r);
    assert (set x | x in r) == Candidates(p, now, iso);
  }

  /** How often each element occurs in a sequence without repetitions. */
  lemma {:induction false} DistinctMultiplicity<T>(s: seq<T>, x: T)
    requires Distinct(s)
    ensures multiset(s)[x] == (if x in s then 1 else 0)
  {
    if s != [] {
      var t := s[..|s| - 1];
      assert s == t + [s[|s| - 1]];
      assert Distinct(t);
      DistinctMultiplicity(t, x);
    }
  }

  /** Any two results `PickReview` may return are permutations of each other:
      the shuffle decides the order and nothing else. */
  lemma ReviewOrderOnlyDiffers(a: seq<string>, b: seq<string>)
    requires Distinct(a) && Distinct(b)
    requires forall w :: w in a <==> w in b
    ensures multiset(a) == multiset(b)
  {
    forall x
      ensures multiset(a)[x] == multiset(b)[x]
    {
      DistinctMultiplicity(a, x);
      DistinctMultiplicity(b, x);
    }
  }

  /** Once a word qualifies it keeps qualifying as time goes on, until an
      attempt changes its record. */
  lemma CandidatesGrowWithTime(p: ProgressMap, t1: int, t2: int, iso: IsoCodec)
    requires t1 <= t2
    ensures Candidates(p, t1, iso) <= Candidates(p, t2, iso)
  {
  }

  /** After an attempt the word is served for review exactly when it has
      more errors than successes and the scheduled delay has passed. */
  lemma ServedOnceDue(p: ProgressMap, classCode: string, username: string,
                      word: string, ok: bool, now: int, t: int, iso: IsoCodec)
    requires Canonical(iso)
    ensures var r := SaveEventAndProgress(p, classCode, username, word, ok, now, iso);
      var rec := r.progress[word];
      word in Candidates(r.progress, t, iso) <==> rec.errors > rec.success && DueAfter(ok, rec.errors, now) <= t
  {
    DueIsInFuture(p, classCode, username, word, ok, now, iso);
  }

  /** A word just attempted is not served again at the same instant, and the
      attempt does not change whether any other word qualifies. */
  lemma AttemptedWordNotDueYet(p: ProgressMap, classCode: string, username: string,
                               word: string, ok: bool, now: int, t: int, iso: IsoCodec)
    requires Canonical(iso)
    ensures var r := SaveEventAndProgress(p, classCode, username, word, ok, now, iso);
      word !in Candidates(r.progress, now, iso)
    ensures var r := SaveEventAndProgress(p, classCode, username, word, ok, now, iso);
      forall k :: k != word ==> (k in Candidates(r.progress, t, iso) <==> k in Candidates(p, t, iso))
  {
    DueIsInFuture(p, classCode, username, word, ok, now, iso);
  }
}
