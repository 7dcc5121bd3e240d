/**
 Two-dimensional vector arithmetic on the horizontal (x, z) plane of the
 island scene, over exact reals. The scene's `y` coordinate never takes part
 in movement and is left out.
 */
module Vectors {

  datatype Vec2 = Vec2(x: real, z: real)

  const Zero: Vec2 := Vec2(0.0, 0.0)

  function Add(a: Vec2, b: Vec2): Vec2 {
    Vec2(a.x + b.x, a.z + b.z)
  }

  function Sub(a: Vec2, b: Vec2): Vec2 {
    Vec2(a.x - b.x, a.z - b.z)
  }

  function Scale(k: real, a: Vec2): Vec2 {
    Vec2(k * a.x, k * a.z)
  }

  function Dot(a: Vec2, b: Vec2): real {
    a.x * b.x + a.z * b.z
  }

  /** Squared Euclidean length: `Math.hypot(x, z)` squared. */
  function NormSq(a: Vec2): real {
    Dot(a, a)
  }

  /** Squared distance between two points. */
  function DistSq(a: Vec2, b: Vec2): real {
    NormSq(Sub(a, b))
  }

  /**
   Reflection of the displacement `v` about the normal `n`, as `reflectVec`
   computes it: `v - 2 (v . n) n`. It is a mirror image only when `n` has
   unit length (`ReflectUnit`); with the zero normal it is the identity.
   */
  function ReflectVec(v: Vec2, n: Vec2): Vec2 {
    var dot := Dot(v, n);
    Vec2(v.x - 2.0 * dot * n.x, v.z - 2.0 * dot * n.z)
  }

  /** With a unit normal the reflection negates the normal component and keeps the length. */
  lemma ReflectUnit(v: Vec2, n: Vec2)
    requires NormSq(n) == 1.0
    ensures Dot(ReflectVec(v, n), n) == -Dot(v, n)
    ensures NormSq(ReflectVec(v, n)) == NormSq(v)
  {
    var d := Dot(v, n);
    var r := ReflectVec(v, n);
    calc {
      Dot(r, n);
      (v.x - 2.0 * d * n.x) * n.x + (v.z - 2.0 * d * n.z) * n.z;
      d - 2.0 * d * (n.x * n.x + n.z * n.z);
      d - 2.0 * d;
    }
    calc {
      NormSq(r);
      (v.x - 2.0 * d * n.x) * (v.x - 2.0 * d * n.x) + (v.z - 2.0 * d * n.z) * (v.z - 2.0 * d * n.z);
      NormSq(v) - 4.0 * d * (v.x * n.x + v.z * n.z) + 4.0 * d * d * (n.x * n.x + n.z * n.z);
      NormSq(v) - 4.0 * d * d + 4.0 * d * d;
    }
  }

  /**
   Reflection about the direction of an offset `m` that need not have unit
   length: `v - 2 (v . m) / (m . m) m`, and `v` itself when `m` is zero. This
   is what the resolver computes from `m / |m|` (or `m / 1` when `|m|` is 0)
   without taking a square root; see `ReflectAboutAgrees`.
   */
  function ReflectAbout(v: Vec2, m: Vec2): Vec2 {
    var mm := NormSq(m);
    if mm == 0.0 then v
    else
      var k := 2.0 * Dot(v, m) / mm;
      Vec2(v.x - k * m.x, v.z - k * m.z)
  }

  /**
   `ReflectAbout` keeps the length of the displacement and, for a non-zero
   offset, negates its component along the offset: it is a true reflection
   whatever the length of `m`.
   */
  lemma ReflectAboutIsReflection(v: Vec2, m: Vec2)
    ensures NormSq(ReflectAbout(v, m)) == NormSq(v)
    ensures NormSq(m) != 0.0 ==> Dot(ReflectAbout(v, m), m) == -Dot(v, m)
    ensures NormSq(m) == 0.0 ==> ReflectAbout(v, m) == v
  {
    var mm := NormSq(m);
    if mm != 0.0 {
      var k := 2.0 * Dot(v, m) / mm;
      var r := ReflectAbout(v, m);
      assert k * mm == 2.0 * Dot(v, m);
      calc {
        Dot(r, m);
        (v.x - k * m.x) * m.x + (v.z - k * m.z) * m.z;
        Dot(v, m) - k * mm;
      }
      calc {
        NormSq(r);
        (v.x - k * m.x) * (v.x - k * m.x) + (v.z - k * m.z) * (v.z - k * m.z);
        NormSq(v) - 2.0 * k * Dot(v, m) + k * k * mm;
        NormSq(v) - 2.0 * k * Dot(v, m) + k * (k * mm);
      }
    }
  }

  lemma ScaledDot(v: Vec2, n: Vec2, s: real)
    ensures Dot(v, Scale(s, n)) == s * Dot(v, n)
  {
  }

  lemma ScaledUnitNormSq(n: Vec2, s: real)
    requires NormSq(n) == 1.0
    ensures NormSq(Scale(s, n)) == s * s
  {
    calc {
      NormSq(Scale(s, n));
      (s * n.x) * (s * n.x) + (s * n.z) * (s * n.z);
      (s * s) * (n.x * n.x + n.z * n.z);
    }
  }

  lemma SquareOfPositive(s: real)
    requires s > 0.0
    ensures s * s > 0.0
  {
  }

  lemma ScaledUnitPositive(n: Vec2, s: real)
    requires NormSq(n) == 1.0 && s > 0.0
    ensures NormSq(Scale(s, n)) > 0.0
  {
    calc {
      NormSq(Scale(s, n));
      (s * n.x) * (s * n.x) + (s * n.z) * (s * n.z);
      (s * s) * (n.x * n.x + n.z * n.z);
      s * s;
    >  { SquareOfPositive(s); }
      0.0;
    }
  }

  lemma Quotient(a: real, b: real)
    requires b != 0.0
    ensures (a / b) * b == a
  {
  }

  /** The scalar step: `k (s s) = 2 s (v . n)` gives `k s = 2 (v . n)` when `s > 0`. */
  lemma Coefficient(vn: real, s: real, vm: real, mm: real, k: real)
    requires s > 0.0
    requires vm == s * vn && mm == s * s
    requires k * mm == 2.0 * vm
    ensures k * s == 2.0 * vn
  {
    assert (k * s) * s == (2.0 * vn) * s;
  }

  /**
   The resolver's reflection agrees with `reflectVec`: every non-zero offset
   is `s n` with `s = |m| > 0` and the unit normal `n = m / |m|` the source
   computes, and reflecting about `s n` gives `reflectVec(v, n)`.
   */
  lemma ReflectAboutAgrees(v: Vec2, n: Vec2, s: real)
    requires NormSq(n) == 1.0 && s > 0.0
    ensures ReflectAbout(v, Scale(s, n)) == ReflectVec(v, n)
  {
    var m := Scale(s, n);
    var mm := NormSq(m);
    var vm := Dot(v, m);
    var vn := Dot(v, n);
    ScaledDot(v, n, s);
    ScaledUnitNormSq(n, s);
    ScaledUnitPositive(n, s);
    var k := 2.0 * vm / mm;
    Quotient(2.0 * vm, mm);
    Coefficient(vn, s, vm, mm, k);
    assert k * m.x == (k * s) * n.x;
    assert k * m.z == (k * s) * n.z;
    assert ReflectAbout(v, m) == Vec2(v.x - k * m.x, v.z - k * m.z);
    assert ReflectVec(v, n) == Vec2(v.x - (2.0 * vn) * n.x, v.z - (2.0 * vn) * n.z);
  }

  /** The zero normal produced by the `d || 1` guard leaves the displacement unchanged. */
  lemma ReflectZeroNormal(v: Vec2)
    ensures ReflectVec(v, Zero) == v
    ensures ReflectAbout(v, Zero) == v
  {
  }
}
