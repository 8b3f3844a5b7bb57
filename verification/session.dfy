/** The grading step of the drill and the worked example of one word's
    history, tying the masking engine, the scheduler and the selector together. */
module Session {
  import opened PyText
  import opened Masking
  import opened Progress
  import opened Scheduler
  import opened Review

  /** The check button: `guess.strip().lower() == answer.lower()`. Only the
      guess is stripped; the answer is compared as stored. */
  predicate Grade(guess: string, answer: string) {
    Lower(Strip(guess)) == Lower(answer)
  }

  /** The answer typed with surrounding white space, in any letter case the
      lower-casing folds, is accepted. */
  lemma GradeAcceptsPaddedAnswer(pre: string, guess: string, post: string, answer: string)
    requires AllSpace(pre) && AllSpace(post)
    requires Stripped(guess) && Lower(guess) == Lower(answer)
    ensures Grade(pre + guess + post, answer)
  {
    StripPadded(pre, guess, post);
  }

  /** An answer stored with leading or trailing white space is never
      accepted, whatever the guess: the guess is stripped, the answer is not. */
  lemma UnstrippedAnswerNeverAccepted(guess: string, answer: string)
    requires !Stripped(answer)
    ensures !Grade(guess, answer)
  {
    StripIdempotent(guess);
    LowerKeepsStripped(Strip(guess));
    LowerKeepsStripped(answer);
  }

  /** The worked example's mask: "корова" is shown as "к_р_ва". */
  lemma KorovaMask()
    ensures MaskFirstTwoVowels("корова") == "к_р_ва"
  {
    var w := "корова";
    var m := MaskFirstTwoVowels(w);
    assert w[..1] == "к" && w[..3] == "кор" && w[..5] == "коров";
    assert VowelCount("к") == 0;
    assert VowelCount("р") == 0 && VowelCount("ор") == 1 && VowelCount("кор") == 1;
    assert VowelCount("в") == 0 && VowelCount("ов") == 1 && VowelCount("ров") == 1;
    assert VowelCount("оров") == 2 && VowelCount("коров") == 2;
    assert m == "к_р_ва";
  }

  /** The worked example's guess "карова" is graded wrong. */
  lemma KorovaGuess()
    ensures !Grade("карова", "корова")
  {
    var g := "карова";
    AlreadyStripped(g);
    assert Lower(g)[1] != Lower("корова")[1];
  }

  /** The worked example's history, for any new word: the first failure
      schedules it 2 minutes later, the second 10 minutes later; a success
      afterwards keeps 2 errors against 1 success and schedules it 10 minutes
      later, so from then on it is served for review exactly once that delay
      has passed. */
  lemma FailFailSucceed(p: ProgressMap, classCode: string, username: string, w: string,
                        iso: IsoCodec, t0: int, t1: int, t2: int)
    requires Canonical(iso)
    requires w !in p
    ensures var r1 := SaveEventAndProgress(p, classCode, username, w, false, t0, iso);
      var r2 := SaveEventAndProgress(r1.progress, classCode, username, w, false, t1, iso);
      var r3 := SaveEventAndProgress(r2.progress, classCode, username, w, true, t2, iso);
      && r1.progress[w].errors == 1 && r1.progress[w].nextDue == Str(iso.format(t0 + 2 * 60))
      && r2.progress[w].errors == 2 && r2.progress[w].nextDue == Str(iso.format(t1 + 10 * 60))
      && r3.progress[w].errors == 2 && r3.progress[w].success == 1
      && r3.progress[w].nextDue == Str(iso.format(t2 + 10 * 60))
      && (forall t :: w in Candidates(r3.progress, t, iso) <==> t >= t2 + 10 * 60)
  {
    var r1 := SaveEventAndProgress(p, classCode, username, w, false, t0, iso);
    var r2 := SaveEventAndProgress(r1.progress, classCode, username, w, false, t1, iso);
    var r3 := SaveEventAndProgress(r2.progress, classCode, username, w, true, t2, iso);
    assert ErrorInterval(1) == 2 * 60 && ErrorInterval(2) == 10 * 60;
    forall t ensures w in Candidates(r3.progress, t, iso) <==> t >= t2 + 10 * 60 {
      ServedOnceDue(r2.progress, classCode, username, w, true, t2, t, iso);
    }
  }
}
