/**
 One frame of the island walk: held keys become a displacement of fixed
 speed, the resolver moves the player, and the shore warning follows the
 player's distance from the island centre.
 */
module Controls {

  import opened Vectors
  import opened Movement
  import opened Wrappers

  /** Distance travelled per frame while any direction key is held. */
  const Speed: real := 0.28
  /** The warning threshold `IslandR - 6`, squared (69 * 69). */
  const ShoreThresholdSq: real := 4761.0

  /** ASCII upper case letters become lower case; other characters are kept. */
  function LowerChar(c: char): (l: char)
    ensures 'A' <= c <= 'Z' ==> l as int == c as int + 32
    ensures !('A' <= c <= 'Z') ==> l == c
    ensures !('A' <= l <= 'Z')
  {
    if 'A' <= c <= 'Z' then (c as int + 32) as char else c
  }

  function Lower(s: string): (l: string)
    ensures |l| == |s|
    ensures forall i :: 0 <= i < |s| ==> l[i] == LowerChar(s[i])
  {
    seq(|s|, i requires 0 <= i < |s| => LowerChar(s[i]))
  }

  /** Lower-casing twice is lower-casing once. */
  lemma LowerIdempotent(s: string)
    ensures Lower(Lower(s)) == Lower(s)
  {
    var l := Lower(s);
    forall i | 0 <= i < |s|
      ensures Lower(l)[i] == l[i]
    {
      assert !('A' <= l[i] <= 'Z');
    }
  }

  /** `keydown`: the key, lower-cased, is held from now on. */
  function KeyDown(held: set<string>, key: string): (h: set<string>)
    ensures Lower(key) in h
    ensures held <= h
    ensures forall k :: k in h ==> k in held || k == Lower(key)
  {
    held + {Lower(key)}
  }

  /** `keyup`: the key, lower-cased, is no longer held. */
  function KeyUp(held: set<string>, key: string): (h: set<string>)
    ensures Lower(key) !in h
    ensures forall k :: k in held && k != Lower(key) ==> k in h
    ensures h <= held
  {
    held - {Lower(key)}
  }

  /** Releasing a key that was not held before undoes pressing it. */
  lemma KeyUpUndoesKeyDown(held: set<string>, key: string)
    requires Lower(key) !in held
    ensures KeyUp(KeyDown(held, key), key) == held
  {
  }

  /** Pressing a key with Shift held is the same as pressing it without. */
  lemma ShiftIgnored(held: set<string>, key: string)
    ensures KeyDown(held, Lower(key)) == KeyDown(held, key)
  {
    LowerIdempotent(key);
  }

  predicate Left(held: set<string>)  { "a" in held || "arrowleft" in held }
  predicate Right(held: set<string>) { "d" in held || "arrowright" in held }
  predicate Up(held: set<string>)    { "w" in held || "arrowup" in held }
  predicate Down(held: set<string>)  { "s" in held || "arrowdown" in held }

  /** The unnormalised direction `(mx, mz)` before scaling; `w` and up move towards -z. */
  datatype Intent = Intent(mx: int, mz: int)

  function Direction(held: set<string>): (i: Intent)
    ensures -1 <= i.mx <= 1 && -1 <= i.mz <= 1
    ensures i.mx == -1 <==> Left(held) && !Right(held)
    ensures i.mx == 1 <==> Right(held) && !Left(held)
    ensures i.mz == -1 <==> Up(held) && !Down(held)
    ensures i.mz == 1 <==> Down(held) && !Up(held)
  {
    var mx := (if Left(held) then -1 else 0) + (if Right(held) then 1 else 0);
    var mz := (if Up(held) then -1 else 0) + (if Down(held) then 1 else 0);
    Intent(mx, mz)
  }

  /** The squared length of an intent, whose root `Math.hypot(mx, mz)` normalises it. */
  function IntentNormSq(i: Intent): int {
    i.mx * i.mx + i.mz * i.mz
  }

  /** Scalar step: if `len^2 = a^2 + b^2 > 0` then `(a/len, b/len)` has unit length. */
  lemma UnitQuotients(a: real, b: real, len: real)
    requires len > 0.0 && len * len == a * a + b * b
    ensures (a / len) * (a / len) + (b / len) * (b / len) == 1.0
  {
    var p := a / len;
    var q := b / len;
    Quotient(a, len);
    Quotient(b, len);
    var u := p * p + q * q;
    calc {
      u * (len * len);
      (p * len) * (p * len) + (q * len) * (q * len);
      a * a + b * b;
      len * len;
    }
    CancelSquare(u, len);
  }

  lemma CancelSquare(u: real, len: real)
    requires len > 0.0
    requires u * (len * len) == len * len
    ensures u == 1.0
  {
    assert ((u - 1.0) * len) * len == 0.0;
    assert (u - 1.0) * len == 0.0;
  }

  /**
   The displacement of one frame: none when the held keys cancel out, else
   the intent normalised by its length `len` and scaled by `Speed`. The
   length is a parameter because it is irrational for diagonal moves.
   */
  function Step(held: set<string>, len: real): (d: Option<Vec2>)
    requires Direction(held) != Intent(0, 0) ==>
               len > 0.0 && len * len == IntentNormSq(Direction(held)) as real
    ensures d.None? <==> Direction(held) == Intent(0, 0)
    ensures d.Some? ==> NormSq(d.value) == Speed * Speed
    // the step is `Speed * (mx, mz) / len`, stated without division
    ensures d.Some? ==> d.value.x * len == Speed * Direction(held).mx as real
    ensures d.Some? ==> d.value.z * len == Speed * Direction(held).mz as real
    ensures d.Some? ==> (d.value.x < 0.0 <==> Direction(held).mx < 0)
    ensures d.Some? ==> (d.value.x > 0.0 <==> Direction(held).mx > 0)
    ensures d.Some? ==> (d.value.z < 0.0 <==> Direction(held).mz < 0)
    ensures d.Some? ==> (d.value.z > 0.0 <==> Direction(held).mz > 0)
  {
    var i := Direction(held);
    if i.mx == 0 && i.mz == 0 then None
    else
      var a := i.mx as real;
      var b := i.mz as real;
      UnitQuotients(a, b, len);
      QuotientSign(a, len);
      QuotientSign(b, len);
      var u := Vec2(a / len, b / len);
      ScaledNormSq(Speed, u);
      Some(Scale(Speed, u))
  }

  lemma QuotientSign(a: real, len: real)
    requires len > 0.0
    ensures (a / len < 0.0 <==> a < 0.0) && (a / len > 0.0 <==> a > 0.0)
    ensures (Speed * (a / len) < 0.0 <==> a < 0.0) && (Speed * (a / len) > 0.0 <==> a > 0.0)
  {
    Quotient(a, len);
  }

  lemma ScaledNormSq(k: real, u: Vec2)
    ensures NormSq(Scale(k, u)) == (k * k) * NormSq(u)
  {
  }

  /** The shore warning element, if present, its `hidden` class and the `shoreWarnVisible` flag. */
  datatype ShoreWarning = ShoreWarning(present: bool, visible: bool, hiddenClass: bool)

  /** The element's class agrees with the flag. */
  predicate Consistent(w: ShoreWarning) {
    w.present ==> w.hiddenClass == !w.visible
  }

  /** `setShoreWarning(show)`: the class changes only on a change of the flag. */
  function SetShoreWarning(w: ShoreWarning, show: bool): (w': ShoreWarning)
    ensures !w.present ==> w' == w
    ensures w.present ==> w'.visible == show && w'.present
    ensures w.present && w.visible == show ==> w' == w
    // a change of the flag writes the class to match it
    ensures w.present && w.visible != show ==> w'.hiddenClass == !show
    ensures Consistent(w) ==> Consistent(w')
  {
    if !w.present then w
    else if show && !w.visible then ShoreWarning(true, true, false)
    else if !show && w.visible then ShoreWarning(true, false, true)
    else w
  }

  /** Repeating the same call changes nothing. */
  lemma SetShoreWarningIdempotent(w: ShoreWarning, show: bool)
    ensures SetShoreWarning(SetShoreWarning(w, show), show) == SetShoreWarning(w, show)
  {
  }

  /** The warning is wanted once the player is at least `IslandR - 6` from the centre. */
  predicate NearShore(pos: Vec2) {
    NormSq(pos) >= ShoreThresholdSq
  }

  datatype Game = Game(pos: Vec2, warning: ShoreWarning)

  /**
   One animation frame: move by the held keys' step (if any) through the
   resolver, then set the warning from the new position.
   */
  function Frame(g: Game, held: set<string>, len: real, cols: seq<Collider>): (g': Game)
    requires Direction(held) != Intent(0, 0) ==>
               len > 0.0 && len * len == IntentNormSq(Direction(held)) as real
    ensures OnIsland(g.pos) ==> OnIsland(g'.pos)
    ensures Direction(held) == Intent(0, 0) ==> g'.pos == g.pos
    // held keys move the player through the resolver
    ensures Step(held, len).Some? ==> g'.pos == TryMove(g.pos, Step(held, len).value, cols)
    ensures g'.warning.present == g.warning.present
    ensures g.warning.present ==> (g'.warning.visible <==> NearShore(g'.pos))
    ensures Consistent(g.warning) ==> Consistent(g'.warning)
    // the warning is updated by `setShoreWarning`, so a missing element stays untouched
    ensures g'.warning == SetShoreWarning(g.warning, NearShore(g'.pos))
    ensures !g.warning.present ==> g'.warning == g.warning
  {
    var pos' := match Step(held, len)
      case None => g.pos
      case Some(d) => TryMove(g.pos, d, cols);
    Game(pos', SetShoreWarning(g.warning, NearShore(pos')))
  }

  /** With the element present, a player standing still keeps the warning it already shows. */
  lemma IdleFrameStable(g: Game, held: set<string>, len: real, cols: seq<Collider>)
    requires Direction(held) == Intent(0, 0)
    requires g.warning.present && g.warning.visible == NearShore(g.pos)
    ensures Frame(g, held, len, cols) == g
  {
  }
}
