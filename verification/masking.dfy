/** The masking engine: the default two-vowel mask, the case-insensitive
    dictionary lookup that prefers a precomputed mask, and the hint line
    with the choice of the next vowel to reveal. */
module Masking {
  import opened Wrappers
  import opened PyText

  /** The placeholder shown instead of a hidden letter. */
  const Blank: char := '_'

  /** The Russian vowels "аеёиоуыэюя", lower and upper case. */
  predicate IsVowel(c: char) {
    || c == 'а' || c == 'е' || c == 'ё' || c == 'и' || c == 'о'
    || c == 'у' || c == 'ы' || c == 'э' || c == 'ю' || c == 'я'
    || c == 'А' || c == 'Е' || c == 'Ё' || c == 'И' || c == 'О'
    || c == 'У' || c == 'Ы' || c == 'Э' || c == 'Ю' || c == 'Я'
  }

  /** Number of vowels in `s`. */
  function VowelCount(s: string): nat
  {
    if s == [] then 0 else (if IsVowel(s[0]) then 1 else 0) + VowelCount(s[1..])
  }

  /** Position `i` of `w` is one of its first two vowel occurrences. */
  predicate Blanked(w: string, i: nat)
    requires i < |w|
  {
    IsVowel(w[i]) && VowelCount(w[..i]) < 2
  }

  /** Number of positions where two equally long strings differ. */
  function Changed(a: string, b: string): nat
    requires |a| == |b|
  {
    if a == [] then 0 else (if a[0] != b[0] then 1 else 0) + Changed(a[1..], b[1..])
  }

  function Min(a: int, b: int): int {
    if a <= b then a else b
  }

  /** The left-to-right scan of the default mask, with `c` vowels already blanked. */
  function MaskFrom(s: string, c: nat): string
  {
    if s == [] then []
    else if IsVowel(s[0]) && c < 2 then [Blank] + MaskFrom(s[1..], c + 1)
    else [s[0]] + MaskFrom(s[1..], c)
  }

  lemma {:induction false} VowelCountPrefix(s: string, i: nat)
    requires 0 < i <= |s|
    ensures VowelCount(s[..i]) == (if IsVowel(s[0]) then 1 else 0) + VowelCount(s[1..][..i - 1])
  {
    assert s[..i][1..] == s[1..][..i - 1];
  }

  /** Position by position, the scan blanks a vowel exactly when fewer than
      two vowels have been blanked before it. */
  lemma {:induction false} MaskFromAt(s: string, c: nat)
    ensures |MaskFrom(s, c)| == |s|
    ensures forall i :: 0 <= i < |s| ==>
      MaskFrom(s, c)[i] == (if IsVowel(s[i]) && c + VowelCount(s[..i]) < 2 then Blank else s[i])
    decreases |s|
  {
    if s != [] {
      var c' := if IsVowel(s[0]) && c < 2 then c + 1 else c;
      MaskFromAt(s[1..], c');
      forall i | 0 <= i < |s|
        ensures MaskFrom(s, c)[i] == (if IsVowel(s[i]) && c + VowelCount(s[..i]) < 2 then Blank else s[i])
      {
        if i > 0 {
          VowelCountPrefix(s, i);
        }
      }
    }
  }

  /** The scan changes exactly `min(2 - c, vowels)` positions. */
  lemma {:induction false} MaskFromChanged(s: string, c: nat)
    requires c <= 2
    ensures |MaskFrom(s, c)| == |s|
    ensures Changed(s, MaskFrom(s, c)) == Min(2 - c, VowelCount(s))
    decreases |s|
  {
    MaskFromAt(s, c);
    if s != [] {
      var c' := if IsVowel(s[0]) && c < 2 then c + 1 else c;
      MaskFromChanged(s[1..], c');
      assert MaskFrom(s, c)[1..] == MaskFrom(s[1..], c');
    }
  }

  /** Strings that differ nowhere are equal. */
  lemma {:induction false} UnchangedIsEqual(a: string, b: string)
    requires |a| == |b| && Changed(a, b) == 0
    ensures a == b
  {
    if a != [] {
      UnchangedIsEqual(a[1..], b[1..]);
      assert a == [a[0]] + a[1..] && b == [b[0]] + b[1..];
    }
  }

  /** `mask_first_two_vowels`: the same word with its first two vowel
      occurrences replaced by `_`. Nothing else changes, exactly
      `min(2, vowels)` positions differ, and a word without vowels comes
      back unchanged. */
  function MaskFirstTwoVowels(w: string): (r: string)
    ensures |r| == |w|
    ensures forall i :: 0 <= i < |w| ==> r[i] == (if Blanked(w, i) then Blank else w[i])
    ensures Changed(w, r) == Min(2, VowelCount(w))
    ensures VowelCount(w) == 0 ==> r == w
  {
    MaskFromAt(w, 0);
    MaskFromChanged(w, 0);
    if VowelCount(w) == 0 then
      UnchangedIsEqual(w, MaskFrom(w, 0));
      MaskFrom(w, 0)
    else
      MaskFrom(w, 0)
  }

  /** One row of the word list: the precomputed mask and the answer. */
  datatype WordEntry = WordEntry(masked: string, answer: string)

  /** The dictionary comparison `answer.lower() == other.lower()`. */
  predicate SameWord(a: string, b: string) {
    Lower(a) == Lower(b)
  }

  /** Entry `j` is the first whose answer matches `answer` case-insensitively. */
  predicate FirstMatchAt(dict: seq<WordEntry>, answer: string, j: nat)
    requires j < |dict|
  {
    SameWord(dict[j].answer, answer) && forall k :: 0 <= k < j ==> !SameWord(dict[k].answer, answer)
  }

  /** Index of the first entry whose answer matches `answer` case-insensitively. */
  function FirstMatch(dict: seq<WordEntry>, answer: string): (r: Option<nat>)
    ensures r.Some? ==> r.value < |dict| && SameWord(dict[r.value].answer, answer)
    ensures r.Some? ==> forall j :: 0 <= j < r.value ==> !SameWord(dict[j].answer, answer)
    ensures r.None? ==> forall j :: 0 <= j < |dict| ==> !SameWord(dict[j].answer, answer)
  {
    if dict == [] then None
    else if SameWord(dict[0].answer, answer) then Some(0)
    else match FirstMatch(dict[1..], answer)
      case Some(k) => Some(k + 1)
      case None => None
  }

  /** `masked_for_answer`: the mask of the first matching dictionary entry,
      verbatim, or the default mask of the answer when nothing matches. */
  function MaskedForAnswer(dict: seq<WordEntry>, answer: string): (r: string)
    ensures forall j :: 0 <= j < |dict| && FirstMatchAt(dict, answer, j) ==> r == dict[j].masked
    ensures (forall j :: 0 <= j < |dict| ==> !SameWord(dict[j].answer, answer)) ==>
      r == MaskFirstTwoVowels(answer)
  {
    match FirstMatch(dict, answer)
    case Some(k) => dict[k].masked
    case None => MaskFirstTwoVowels(answer)
  }

  /** Evaluating the hint at position `i` reads `masked[i]` (and fails) only
      when `i` has not been revealed. */
  predicate HintFails(answer: string, masked: string, revealed: set<int>) {
    exists i :: 0 <= i < |answer| && i !in revealed && i >= |masked|
  }

  /** The hint line: each letter of the answer is shown when it was revealed
      or the mask does not hide it, else `_`. `None` stands for the index
      error raised when the mask is shorter than the answer at an
      unrevealed position. */
  function Hint(answer: string, masked: string, revealed: set<int>): (r: Option<string>)
    ensures r.None? <==> HintFails(answer, masked, revealed)
    ensures r.Some? ==> |r.value| == |answer|
    ensures r.Some? ==> forall i :: 0 <= i < |answer| ==>
      (r.value[i] == answer[i] || r.value[i] == Blank)
    ensures r.Some? ==> forall i :: 0 <= i < |answer| && i in revealed ==> r.value[i] == answer[i]
    ensures r.Some? ==> forall i :: 0 <= i < |answer| && i !in revealed ==>
      i < |masked| && (r.value[i] == answer[i] <== masked[i] != Blank)
      && (masked[i] == Blank ==> r.value[i] == Blank)
  {
    if HintFails(answer, masked, revealed) then None
    else Some(seq(|answer|, i requires 0 <= i < |answer| =>
      if i in revealed || (i < |masked| && masked[i] != Blank) then answer[i] else Blank))
  }

  /** Before any reveal, the hint line over the default mask is the default
      mask itself. */
  lemma HintOfDefaultMask(answer: string)
    ensures Hint(answer, MaskFirstTwoVowels(answer), {}) == Some(MaskFirstTwoVowels(answer))
  {
    var m := MaskFirstTwoVowels(answer);
    var h := Hint(answer, m, {});
    assert h.Some?;
    forall i | 0 <= i < |answer|
      ensures h.value[i] == m[i]
    {
    }
    assert h.value == m;
  }

  /** Positions `lo..` of the hint candidates: vowels of the answer that the
      mask hides and that have not been revealed yet, ascending. `None`
      stands for the index error raised when a vowel lies beyond the mask. */
  function CandidatesFrom(answer: string, masked: string, revealed: set<int>, lo: nat): (r: Option<seq<int>>)
    requires lo <= |answer|
    ensures r.None? <==> exists i :: lo <= i < |answer| && IsVowel(answer[i]) && i >= |masked|
    ensures r.Some? ==> forall i :: i in r.value <==>
      lo <= i < |answer| && IsVowel(answer[i]) && i < |masked| && masked[i] == Blank && i !in revealed
    ensures r.Some? ==> forall j, k :: 0 <= j < k < |r.value| ==> r.value[j] < r.value[k]
    decreases |answer| - lo
  {
    if lo == |answer| then Some([])
    else
      var rest := CandidatesFrom(answer, masked, revealed, lo + 1);
      if !IsVowel(answer[lo]) then rest
      else if lo >= |masked| then None
      else if rest.None? then None
      else if masked[lo] == Blank && lo !in revealed then
        assert forall k :: 0 <= k < |rest.value| ==> rest.value[k] in rest.value;
        Some([lo] + rest.value)
      else rest
  }

  /** The hint-button candidate list: the ascending positions of hidden,
      unrevealed vowels, or `None` for the index error. */
  function HintCandidates(answer: string, masked: string, revealed: set<int>): (r: Option<seq<int>>)
    ensures r.None? <==> exists i :: 0 <= i < |answer| && IsVowel(answer[i]) && i >= |masked|
    ensures r.Some? ==> forall i :: i in r.value <==>
      0 <= i < |answer| && IsVowel(answer[i]) && i < |masked| && masked[i] == Blank && i !in revealed
    ensures r.Some? ==> forall j, k :: 0 <= j < k < |r.value| ==> r.value[j] < r.value[k]
  {
    CandidatesFrom(answer, masked, revealed, 0)
  }

  /** The hint button: reveal some candidate position, or nothing when there
      is none. `random.choice` is any element of the candidate list. */
  method RevealHint(answer: string, masked: string, revealed: set<int>) returns (r: Option<set<int>>)
    ensures r.None? <==> HintCandidates(answer, masked, revealed).None?
    ensures r.Some? && HintCandidates(answer, masked, revealed).value == [] ==> r.value == revealed
    ensures r.Some? && HintCandidates(answer, masked, revealed).value != [] ==>
      exists c :: c in HintCandidates(answer, masked, revealed).value && r.value == revealed + {c}
    ensures r.Some? && HintCandidates(answer, masked, revealed).value != [] ==>
      |r.value| == |revealed| + 1
  {
    var cand := HintCandidates(answer, masked, revealed);
    if cand.None? {
      return None;
    }
    if cand.value == [] {
      return Some(revealed);
    }
    assert cand.value[0] in cand.value;
    var c :| c in cand.value;
    r := Some(revealed + {c});
  }

  /** Revealing a candidate turns exactly its `_` in the hint line into the
      vowel of the answer; every other position of the line stays the same. */
  lemma RevealShowsVowel(answer: string, masked: string, revealed: set<int>, c: int)
    requires HintCandidates(answer, masked, revealed).Some?
    requires c in HintCandidates(answer, masked, revealed).value
    requires Hint(answer, masked, revealed).Some?
    ensures Hint(answer, masked, revealed + {c}).Some?
    ensures Hint(answer, masked, revealed).value[c] == Blank
    ensures Hint(answer, masked, revealed + {c}).value[c] == answer[c]
    ensures IsVowel(Hint(answer, masked, revealed + {c}).value[c])
    ensures forall i :: 0 <= i < |answer| && i != c ==>
      Hint(answer, masked, revealed + {c}).value[i] == Hint(answer, masked, revealed).value[i]
  {
  }
}
