# Missing-vowel drill: a Dafny model of its core

`missing_vowel_app.py` is a Streamlit drill for Russian dictionary words. It
shows a word with its first two vowels blanked out and grades the student's
answer. For each (class code, user name) pair it keeps a progress map from
word to counters and dates. A word failed more often than answered correctly
comes back for review once its due time has passed. In cloud mode, every
attempt is appended to an event sheet and the map is rebuilt from those rows.

This project models that core as pure Dafny functions over immutable data:

- `pytext.dfy` (`PyText`): the parts of Python's string library the core
  uses. These are `str.strip()` with Python's white-space set, `str.lower()`
  for ASCII, Latin-1 and Cyrillic letters, `str.replace(x, "")` and `str()`
  of an integer.
- `masking.dfy` (`Masking`): `mask_first_two_vowels`, `masked_for_answer`,
  the hint line, and the hint button's candidate positions with the reveal.
- `progress.dfy` (`Progress`): the word record, the progress map,
  `ensure_word`, `set_due` and `get_due`. Stored values are typed as
  `Value`: `None`, string, integer or boolean.
- `scheduler.dfy` (`Scheduler`): the interval constants and the update
  inside `save_event_and_progress`, which also returns the event row it
  builds.
- `review.dfy` (`Review`): the `pick_review` that is in effect.
- `replay.dfy` (`EventLog`): the row loop of `cloud_load_progress`. It also
  shows that replaying the rows a session wrote rebuilds that session's map.
- `session.dfy` (`Session`): the grading comparison and a worked example of
  one word's history.

Modelling choices:

- Times are integer seconds. `datetime.now()` becomes a parameter `now`.
- ISO-8601 formatting and parsing are an abstract codec `IsoCodec`, made of
  `format` (`isoformat(timespec="seconds")`) and `parse` (`fromisoformat`,
  with `None` where it raises).
- `Progress.Canonical` states the only facts the proofs rely on. The text
  `format` writes is non-empty. It has no surrounding white space. It has no
  `Z`. It parses back to the same instant.
- `random.shuffle` and `random.choice` become a nondeterministic choice
  (`:|`). Their properties therefore hold for every order and every choice.

## Model

| member | source | states |
|---|---|---|
| PyText.Strip | missing_vowel_app.py:72 | `strip()` returns a contiguous slice of its input that neither starts nor ends with white space, and everything cut off on either side is white space |
| PyText.StripPadded | missing_vowel_app.py:258 | stripping a stripped text that has any white space added around it gives back that text |
| PyText.StripIdempotent | missing_vowel_app.py:143 | the result of `strip()` is stripped, so stripping twice equals stripping once |
| PyText.LowerKeepsStripped | missing_vowel_app.py:258 | lower-casing neither creates nor removes surrounding white space |
| Masking.MaskFirstTwoVowels | missing_vowel_app.py:41-48 | same length as the word; a position becomes `_` exactly when it holds a vowel preceded by fewer than two vowels, and every other letter is kept; exactly min(2, number of vowels) positions change; a word without vowels is returned unchanged |
| Masking.FirstMatch | missing_vowel_app.py:51 | finds the first dictionary entry whose answer equals the given answer after lower-casing both; reports none only when no entry matches |
| Masking.MaskedForAnswer | missing_vowel_app.py:50-52 | returns the stored mask of the first case-insensitively matching entry, or, when nothing matches, the default mask of the answer |
| Masking.Hint | missing_vowel_app.py:248 | fails (IndexError) exactly when an unrevealed position lies beyond the mask; otherwise the line has the answer's length, shows revealed letters and letters the mask does not hide, and shows `_` where the mask hides an unrevealed letter |
| Masking.HintOfDefaultMask | missing_vowel_app.py:248 | before any reveal, the hint over the default mask is that mask |
| Masking.HintCandidates | missing_vowel_app.py:252 | fails exactly when a vowel of the answer lies beyond the mask; otherwise it lists, in ascending order, exactly the positions holding a vowel that the mask hides and that are not yet revealed |
| Masking.RevealHint | missing_vowel_app.py:252-254 | fails exactly when the candidate list fails; with no candidate the revealed set is unchanged; otherwise exactly one candidate position is added |
| Masking.RevealShowsVowel | missing_vowel_app.py:248-254 | revealing a candidate turns its `_` in the hint line into the answer's vowel and leaves every other position of the line unchanged |
| Progress.EnsureWord | missing_vowel_app.py:54-56 | the word becomes a key; an absent word gets the fresh record (0, 0, None, None); an existing record and all other words are left alone, so a second call returns its argument unchanged (idempotence) |
| Progress.SetDue | missing_vowel_app.py:58-60 | only the word's due value changes, to the ISO text of the instant or to None; its counters, its last-seen value and every other word are kept |
| Progress.GetDue | missing_vowel_app.py:62-80 | a due instant exists only for a present word whose stored value is a string with non-blank content, and it is the parse of that string stripped and with every `Z` removed; otherwise the result is None |
| Progress.GetDueAfterSetDue | missing_vowel_app.py:58-80 | for a canonical codec, `get_due` returns what `set_due` stored: the same instant, or None after clearing |
| Scheduler.ErrorInterval | missing_vowel_app.py:177 | the delay after a failure is at least the first-error interval of 2 minutes |
| Scheduler.ErrorIntervalMonotone | missing_vowel_app.py:29-31 | the failure delay never shrinks as errors grow, and from the first error on each further error adds exactly 8 minutes |
| Scheduler.DueAfter | missing_vowel_app.py:172-177 | the due instant is strictly later than the attempt: 10 minutes after a success, 2 min + 8 min * max(0, errors - 1) after a failure |
| Scheduler.SaveEventAndProgress | missing_vowel_app.py:169-191 | the attempted word gets a record; a success adds one to the success counter, a failure adds one to the error counter, and the other counter is kept; last-seen becomes the ISO text of now; the due value becomes the ISO text of the scheduled instant; no other word changes; the event row carries the time, class code, user name, word, outcome and the word's new record |
| Scheduler.DueIsInFuture | missing_vowel_app.py:169-179 | after an attempt, `get_due` returns exactly the scheduled instant, which is later than the attempt |
| Scheduler.RepeatedFailureBacksOff | missing_vowel_app.py:176-177 | of two consecutive failures of a word, the second waits exactly 8 minutes longer than the first, each counted from its own attempt |
| Review.PickReview | missing_vowel_app.py:199-209 | returns each qualifying word exactly once, and nothing else: a word qualifies when it has more errors than successes and has no due instant or one not later than now; words with a tie and words due later are excluded |
| Review.ReviewOrderOnlyDiffers | missing_vowel_app.py:208 | any two possible results are permutations of each other: the shuffle decides only the order |
| Review.CandidatesGrowWithTime | missing_vowel_app.py:206 | with the map unchanged, every word that qualifies at one instant also qualifies at any later one |
| Review.ServedOnceDue | missing_vowel_app.py:199-209 | after an attempt, the word is picked for review at a time t exactly when it has more errors than successes and its scheduled due instant is not later than t |
| Review.AttemptedWordNotDueYet | missing_vowel_app.py:199-209 | a word just attempted is not picked at the attempt's instant, and the attempt does not change whether any other word is picked |
| EventLog.WordTextStripped | missing_vowel_app.py:143 | the word the loader reads from a row is `str()` of the cell, stripped, with an empty string for a missing cell |
| EventLog.SuccessFlagCases | missing_vowel_app.py:150 | a row counts as a success exactly when its cell is the boolean True, the integer 1, or a string that lower-cases to "true", "1" or "yes"; a missing cell never does |
| EventLog.RowLastSeen | missing_vowel_app.py:157 | last-seen is the row's last_seen value when truthy, else its timestamp when truthy, else None |
| EventLog.Upsert | missing_vowel_app.py:146-158 | the row's word gets a record (fresh if new), which counts one more success or error and takes the row's dates; no other word changes |
| EventLog.ReplaySummarizes | missing_vowel_app.py:141-160 | the rebuilt map has a record exactly for each non-empty word that some row is about; its success count is the number of successful rows; successes plus errors equal the number of rows; both dates come from the word's last row, with an empty due value giving None |
| EventLog.ReplayKeysStripped | missing_vowel_app.py:143-147 | every word in the rebuilt map is non-empty and stripped |
| EventLog.ReadEventRow | missing_vowel_app.py:181-191 | from a row written for an attempt on a stripped word, the loader reads back the same word, outcome, last-seen and due values |
| EventLog.ReplayReproducesLive | missing_vowel_app.py:141-160 | starting from the map rebuilt from earlier rows, a run of attempts on stripped, non-empty words updates the map live; loading all rows, including the ones those attempts appended, gives exactly that live map |
| EventLog.EventReplaysStripped | missing_vowel_app.py:143-147 | replaying the row of one event rebuilds a record keyed by the event's word stripped, and by nothing else |
| EventLog.UnstrippedWordNotReproduced | missing_vowel_app.py:143 | the loader strips the word while the live update (line 170) keys the record by the answer as stored: for any non-empty stripped word w, one failed attempt at " " + w is recorded live under " " + w, but the reloaded map has no such key and differs from the live one |
| Session.GradeAcceptsPaddedAnswer | missing_vowel_app.py:258 | a guess equal to the answer up to lower-casing is accepted whatever white space surrounds it |
| Session.UnstrippedAnswerNeverAccepted | missing_vowel_app.py:258 | an answer stored with surrounding white space is rejected for every guess, because only the guess is stripped |
| Session.KorovaMask | missing_vowel_app.py:41-48 | "корова" is shown as "к_р_ва" |
| Session.KorovaGuess | missing_vowel_app.py:258 | the guess "карова" for "корова" is graded wrong |
| Session.FailFailSucceed | missing_vowel_app.py:169-209 | for a new word, failing at t0, failing at t1 and then succeeding at t2 leaves errors 1, 2, 2 with due dates t0+2min, t1+10min and t2+10min; after the success (2 errors, 1 success) the word is picked exactly at the times t >= t2+10min |

## Left out

- The Streamlit user interface and session state (lines 212-288) are left out. This covers the sidebar, the word index, the score, the rerun and the teacher's table. The model is only the functions the interface calls. After every graded answer the code advances the word index (line 267), whether the word came from the review list or from the word list.
- The first definition of `pick_review` (lines 82-90) is left out. It is shadowed by the second definition (lines 199-209), which is the one the program calls.
- Google Sheets access (lines 124-139) and the appends of event and result rows (cloud and local) are left out as network and file I/O. Their failure paths are left out too. The replay starts from the rows already fetched.
- Local JSON/CSV persistence (lines 92-121) is left out as file I/O.
- `load_words` (lines 34-39) is left out, because it is CSV reading through pandas. The dictionary is a sequence of (mask, answer) entries that has already been read.
- The integer coercion `int(... or 0)` in `pick_review` (lines 204-205) is not modelled. Counters are natural numbers, which are what the program itself stores.
- Progress.GetDue: the branch for a `datetime` object (lines 67-68) is left out. Values are read from JSON or sheet cells, so a stored value is never a `datetime`. Floats are not modelled and count as non-strings, which gives None, as in the source.
- Progress.Canonical: `isoformat`/`fromisoformat` are abstract. The model uses only the round trip and the shape of their text. Sub-second times are not modelled, because the stored text has whole seconds. Naive and aware datetimes are not distinguished.
- PyText.Lower: it folds only ASCII, Latin-1 and basic Cyrillic capitals (the letters of the word lists). Other scripts and special cases such as the German sharp s are not folded.
- Review.PickReview: the random shuffle is a nondeterministic choice, so the exact distribution of orders is not modelled.
- Masking.RevealHint: `random.choice` is a nondeterministic choice, so which candidate gets revealed is unspecified.
- EventLog.ReplayReproducesLive: it holds only for attempted words that are non-empty and have no surrounding white space. `load_words` (lines 34-39) does not strip the answers, and the live update keys a record by the answer as stored (lines 170 and 265). The loader keys it by the stripped word (line 143). So for a padded answer the reloaded map differs from the live one, as `EventLog.UnstrippedWordNotReproduced` shows.
- EventLog.EventRow: the event sheet is assumed to return every posted cell unchanged. That means the word text, `success` as a boolean, and `last_seen`, `next_due` and `timestamp` as the same ISO strings. The loader's own comments (lines 149 and 156) allow cells to come back as other types. The row loop itself handles any cell type (see `EventLog.SuccessFlagCases` and `EventLog.WordTextStripped`), but `EventLog.ReplayReproducesLive` depends on the transport being lossless.
