/** The per-student progress map: one record per word, created on first
    use, with the due date stored as text and parsed back on demand. */
module Progress {
  import opened Wrappers
  import opened PyText

  /** A field value as the application sees it in a progress record or in
      a row of the event sheet: `None`, a string, an integer or a boolean. */
  datatype Value = Null | Str(s: string) | Int(i: int) | Bool(b: bool)

  /** Python truthiness, as used by `if not v` and `a or b`. */
  predicate Truthy(v: Value) {
    match v
    case Null => false
    case Str(s) => s != []
    case Int(i) => i != 0
    case Bool(b) => b
  }

  /** `v or None`. */
  function OrNull(v: Value): (r: Value)
    ensures Truthy(v) ==> r == v
    ensures !Truthy(v) ==> r == Null
  {
    if Truthy(v) then v else Null
  }

  /** The two directions of ISO-8601 text for timestamps in whole seconds:
      `format` is `isoformat(timespec="seconds")`, `parse` is
      `datetime.fromisoformat`, with `None` where it raises. */
  datatype IsoCodec = IsoCodec(format: int -> string, parse: string -> Option<int>)

  /** What the application relies on of ISO text it wrote itself: it is
      non-empty, has no surrounding white space and no `Z`, and parses back
      to the same instant. */
  ghost predicate Canonical(iso: IsoCodec) {
    forall t :: iso.format(t) != [] && Stripped(iso.format(t)) && 'Z' !in iso.format(t)
      && iso.parse(iso.format(t)) == Some(t)
  }

  /** The learning state of one word. */
  datatype WordRecord = WordRecord(errors: nat, success: nat, lastSeen: Value, nextDue: Value)

  /** The record `ensure_word` creates: no attempts, no dates. */
  const Fresh: WordRecord := WordRecord(0, 0, Null, Null)

  /** word -> record, for one (class code, user name) pair. */
  type ProgressMap = map<string, WordRecord>

  /** The record of `w`, or the fresh one when `w` has none yet. */
  function Lookup(p: ProgressMap, w: string): WordRecord {
    if w in p then p[w] else Fresh
  }

  /** `ensure_word`: adds the fresh record for an absent word and leaves a
      present word, and every other word, as it was. Since the result holds
      `w`, a second call changes nothing. */
  function EnsureWord(p: ProgressMap, w: string): (r: ProgressMap)
    ensures r.Keys == p.Keys + {w}
    ensures w in p ==> r == p
    ensures w !in p ==> r[w] == Fresh
    ensures forall k :: k in p ==> r[k] == p[k]
  {
    if w in p then p else p[w := Fresh]
  }

  /** The value `set_due` stores: the ISO text of `when`, or `None`. */
  function DueText(when: Option<int>, iso: IsoCodec): Value {
    match when
    case Some(t) => Str(iso.format(t))
    case None => Null
  }

  /** `set_due`: the record of `w` (created if absent) gets the new due
      value; its counters and last-seen value and all other records are kept. */
  function SetDue(p: ProgressMap, w: string, when: Option<int>, iso: IsoCodec): (r: ProgressMap)
    ensures r.Keys == p.Keys + {w}
    ensures forall k :: k in p && k != w ==> r[k] == p[k]
    ensures r[w].errors == Lookup(p, w).errors && r[w].success == Lookup(p, w).success
    ensures r[w].lastSeen == Lookup(p, w).lastSeen
    ensures r[w].nextDue == DueText(when, iso)
  {
    var q := EnsureWord(p, w);
    q[w := q[w].(nextDue := DueText(when, iso))]
  }

  /** The body of `get_due` for a stored value: only a string with some
      non-space content can be due; it is parsed after stripping and after
      dropping every `Z`. */
  function DueOf(v: Value, parse: string -> Option<int>): (r: Option<int>)
    ensures !v.Str? ==> r == None
    ensures v.Str? && Strip(v.s) == [] ==> r == None
    ensures v.Str? && Strip(v.s) != [] ==> r == parse(RemoveAll(Strip(v.s), 'Z'))
  {
    if !Truthy(v) then None
    else match v
      case Str(s) =>
        var t := Strip(s);
        if t == [] then None else parse(RemoveAll(t, 'Z'))
      case _ => None
  }

  /** `get_due`: the due instant of `w`, `None` (due now) when the word is
      missing or its value is empty, blank, numeric, boolean or unparsable. */
  function GetDue(p: ProgressMap, w: string, iso: IsoCodec): (r: Option<int>)
    ensures r.Some? ==> w in p && p[w].nextDue.Str? && Strip(p[w].nextDue.s) != []
    ensures r.Some? ==> r == iso.parse(RemoveAll(Strip(p[w].nextDue.s), 'Z'))
    ensures w in p && p[w].nextDue.Str? && Strip(p[w].nextDue.s) != [] ==>
      r == iso.parse(RemoveAll(Strip(p[w].nextDue.s), 'Z'))
  {
    if w in p then DueOf(p[w].nextDue, iso.parse) else None
  }

  /** Reading back a due date written by `set_due` gives the same instant,
      and clearing it gives `None`. */
  lemma GetDueAfterSetDue(p: ProgressMap, w: string, when: Option<int>, iso: IsoCodec)
    requires Canonical(iso)
    ensures GetDue(SetDue(p, w, when, iso), w, iso) == when
  {
    if when.Some? {
      var t := when.value;
      var text := iso.format(t);
      assert text != [] && Stripped(text) && 'Z' !in text && iso.parse(text) == Some(t);
      AlreadyStripped(text);
      assert RemoveAll(text, 'Z') == text;
    }
  }
}
