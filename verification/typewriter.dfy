/**
 The headline typewriter: a callback that types the headline one character
 at a time, waits, deletes it one character at a time, and starts over.
 Each callback schedules exactly one successor, so the effect is a single
 chain of callbacks; the delays between them are left out.
 */
module Typewriter {

  import opened Wrappers

  const Headline: string := "Software & ML Engineer"

  /** The callback waiting on a timer: `typeEffect` itself, or the one that first sets `isDeleting`. */
  datatype Callback = TypeNext | StartDeleting

  /** `charIndex`, `isDeleting`, the span's text and the pending callback (`None` once the chain stops). */
  datatype Typer = Typer(charIndex: int, deleting: bool, shown: string, pending: Option<Callback>)

  /** After the page loads: nothing shown, typing, `typeEffect` scheduled. */
  const Start: Typer := Typer(0, false, "", Some(TypeNext))

  /** `text.substring(0, e)`: the end is clamped into `[0, |text|]`. */
  function Prefix(text: string, e: int): (p: string)
    ensures |p| == if e < 0 then 0 else if e > |text| then |text| else e
    ensures p <= text
  {
    if e < 0 then [] else if e > |text| then text else text[..e]
  }

  /** `text.charAt(i)`: the character at `i`, or the empty string out of range. */
  function CharAt(text: string, i: int): (c: string)
    ensures 0 <= i < |text| ==> c == [text[i]]
    ensures !(0 <= i < |text|) ==> c == []
  {
    if 0 <= i < |text| then [text[i]] else []
  }

  /** The span shows exactly the first `charIndex` characters of the text. */
  predicate Shows(text: string, t: Typer) {
    0 <= t.charIndex <= |text| && t.shown == text[..t.charIndex]
  }

  /**
   One run of `typeEffect` with the span present or absent. With the span
   present and showing the first `charIndex` characters, it keeps doing so,
   moves the index by at most one (up while typing, down while deleting),
   never starts deleting by itself, and always schedules a successor.
   */
  function TypeEffect(text: string, spanPresent: bool, t: Typer): (t': Typer)
    ensures !spanPresent ==> t' == t.(pending := None)
    ensures spanPresent && Shows(text, t) ==> Shows(text, t') && t'.pending.Some?
    ensures spanPresent && Shows(text, t) && !t.deleting ==>
              !t'.deleting && (t'.charIndex == t.charIndex + 1 || t'.charIndex == t.charIndex)
    ensures spanPresent && Shows(text, t) && !t.deleting && t.charIndex < |text| ==>
              t'.charIndex == t.charIndex + 1
    ensures spanPresent && Shows(text, t) && !t.deleting && t.charIndex == |text| ==>
              t' == t.(pending := Some(StartDeleting))
    // only the end of typing schedules the switch to deleting; every other step schedules `typeEffect`
    ensures spanPresent && Shows(text, t) && (t.deleting || t.charIndex < |text|) ==>
              t'.pending == Some(TypeNext)
    ensures spanPresent && Shows(text, t) && t.deleting ==>
              (t'.deleting && t'.charIndex == t.charIndex - 1)
              || (!t'.deleting && t.charIndex == 0 && t'.charIndex == 0)
  {
    if !spanPresent then t.(pending := None)
    else if !t.deleting && t.charIndex < |text| then
      assert 0 <= t.charIndex ==> text[..t.charIndex + 1] == text[..t.charIndex] + [text[t.charIndex]];
      Typer(t.charIndex + 1, false, t.shown + CharAt(text, t.charIndex), Some(TypeNext))
    else if !t.deleting && t.charIndex == |text| then
      t.(pending := Some(StartDeleting))
    else if t.deleting && t.charIndex > 0 then
      Typer(t.charIndex - 1, true, Prefix(text, t.charIndex - 1), Some(TypeNext))
    else if t.deleting && t.charIndex == 0 then
      Typer(t.charIndex, false, t.shown, Some(TypeNext))
    else
      t.(pending := None)
  }

  /** The pending callback fires. */
  function Fire(text: string, spanPresent: bool, t: Typer): Typer {
    match t.pending
    case None => t
    case Some(TypeNext) => TypeEffect(text, spanPresent, t)
    case Some(StartDeleting) => TypeEffect(text, spanPresent, t.(deleting := true))
  }

  /**
   The states reachable from `Start`: the index within the text, the span
   showing exactly the first `charIndex` characters, a callback always
   pending, and the deleting switch only pending at the end of the text.
   */
  predicate Valid(text: string, t: Typer) {
    && Shows(text, t)
    && t.pending.Some?
    && (t.pending == Some(StartDeleting) ==> t.charIndex == |text| && !t.deleting)
  }

  lemma StartValid(text: string)
    ensures Valid(text, Start)
  {
  }

  /**
   With the span present a valid state stays valid; typing only adds one
   character, deleting only removes one, and the phase flips only at the
   end of the text (to deleting) or at its start (to typing).
   */
  lemma FirePreservesValid(text: string, t: Typer)
    requires Valid(text, t)
    ensures Valid(text, Fire(text, true, t))
    ensures var t' := Fire(text, true, t);
            && (!t.deleting && !t'.deleting ==> t'.charIndex == t.charIndex + 1 || t'.charIndex == t.charIndex)
            && (t.deleting && t'.deleting ==> t'.charIndex == t.charIndex - 1)
            && (!t.deleting && t'.deleting ==> t.charIndex == |text| && t'.charIndex == |text| - 1)
            && (t.deleting && !t'.deleting ==> t.charIndex == 0 && t'.charIndex == 0)
  {
  }

  /** `k` callbacks in a row. */
  function FireN(text: string, spanPresent: bool, t: Typer, k: nat): Typer
    decreases k
  {
    if k == 0 then t else FireN(text, spanPresent, Fire(text, spanPresent, t), k - 1)
  }

  /** Every state the chain reaches from a valid one is valid. */
  lemma {:induction false} FireNPreservesValid(text: string, t: Typer, k: nat)
    requires Valid(text, t)
    ensures Valid(text, FireN(text, true, t, k))
    decreases k
  {
    if k > 0 {
      FirePreservesValid(text, t);
      FireNPreservesValid(text, Fire(text, true, t), k - 1);
    }
  }

  /** Without the span the chain stops at its first callback and the text never changes. */
  lemma {:induction false} AbsentSpanInert(text: string, t: Typer, k: nat)
    requires k > 0 && t.pending != Some(StartDeleting)
    ensures FireN(text, false, t, k) == t.(pending := None)
    decreases k
  {
    assert Fire(text, false, t) == t.(pending := None);
    if k > 1 {
      AbsentSpanInert(text, t.(pending := None), k - 1);
    }
  }

  /** Typing `k` characters from position `i`. */
  lemma {:induction false} TypingRun(text: string, i: nat, k: nat)
    requires i + k <= |text|
    ensures FireN(text, true, Typer(i, false, text[..i], Some(TypeNext)), k)
              == Typer(i + k, false, text[..i + k], Some(TypeNext))
    decreases k
  {
    if k > 0 {
      assert text[..i + 1] == text[..i] + [text[i]];
      TypingRun(text, i + 1, k - 1);
    }
  }

  /** Deleting `k` characters down from position `i`. */
  lemma {:induction false} DeletingRun(text: string, i: nat, k: nat)
    requires k <= i <= |text|
    ensures FireN(text, true, Typer(i, true, text[..i], Some(TypeNext)), k)
              == Typer(i - k, true, text[..i - k], Some(TypeNext))
    decreases k
  {
    if k > 0 {
      DeletingRun(text, i - 1, k - 1);
    }
  }

  lemma {:induction false} FireNSplit(text: string, t: Typer, a: nat, b: nat)
    ensures FireN(text, true, t, a + b) == FireN(text, true, FireN(text, true, t, a), b)
    decreases a
  {
    if a > 0 {
      FireNSplit(text, Fire(text, true, t), a - 1, b);
    }
  }

  /**
   One full cycle takes `2 |text| + 2` callbacks: `|text|` to type, one to
   wait at the end, `|text|` to delete (the first of them also switches to
   deleting), and one to switch back to typing; it ends where it started.
   */
  lemma CycleReturnsToStart(text: string)
    ensures FireN(text, true, Start, 2 * |text| + 2) == Start
  {
    var n := |text|;
    var full := Typer(n, false, text[..n], Some(TypeNext));
    assert text[..0] == "";
    TypingRun(text, 0, n);
    FireNSplit(text, Start, n, n + 2);
    TurnAround(text);
  }

  /** The page's headline, 22 characters long, returns to its start state every 46 callbacks. */
  lemma HeadlineCycle()
    ensures FireN(Headline, true, Start, 46) == Start
  {
    CycleReturnsToStart(Headline);
  }

  /** From the fully typed headline, `|text| + 2` callbacks wait, delete it all and resume typing. */
  lemma TurnAround(text: string)
    ensures FireN(text, true, Typer(|text|, false, text, Some(TypeNext)), |text| + 2) == Start
  {
    var n := |text|;
    var full := Typer(n, false, text, Some(TypeNext));
    var waiting := Typer(n, false, text, Some(StartDeleting));
    assert Fire(text, true, full) == waiting;
    if n == 0 {
      assert Fire(text, true, waiting) == Start;
      assert FireN(text, true, waiting, 1) == FireN(text, true, Start, 0);
    } else {
      var deleting := Typer(n - 1, true, text[..n - 1], Some(TypeNext));
      assert Fire(text, true, waiting) == deleting;
      assert text[..0] == "";
      DeletingRun(text, n - 1, n - 1);
      var empty := Typer(0, true, "", Some(TypeNext));
      assert FireN(text, true, deleting, n - 1) == empty;
      assert Fire(text, true, empty) == Start;
      FireNSplit(text, deleting, n - 1, 1);
    }
  }
}
