/**
 The player's movement and collision resolver on the circular island.
 Positions and displacements live on the horizontal (x, z) plane; every
 `Math.hypot(a, b)` compared with a non-negative bound is compared here as
 a square, which is equivalent because both sides are non-negative.
 */
module Movement {

  import opened Vectors
  import opened Wrappers

  /** Radius of the island disc. */
  const IslandR: real := 75.0
  /** `IslandR` squared. */
  const IslandRSq: real := 5625.0
  /** The bounce boundary `IslandR - 0.2`, squared (74.8 * 74.8). */
  const EdgeSq: real := 5595.04
  /** Factor applied to every reflected displacement. */
  const Damping: real := 0.6

  /** A circular obstacle registered with `addCollider(x, z, r)`; `r` is not validated. */
  datatype Collider = Collider(x: real, z: real, r: real)

  function Centre(c: Collider): Vec2 {
    Vec2(c.x, c.z)
  }

  /** The island disc `(0, 0, IslandR)`, registered before every other collider. */
  const IslandDisc: Collider := Collider(0.0, 0.0, IslandR)

  /** `addCollider` appends, keeping registration order. */
  function AddCollider(cols: seq<Collider>, x: real, z: real, r: real): (cs: seq<Collider>)
    ensures |cs| == |cols| + 1 && cs[..|cols|] == cols
    ensures cs[|cols|] == Collider(x, z, r)
  {
    cols + [Collider(x, z, r)]
  }

  /** `hypot(p - c) < c.r`: with a non-positive radius no point is inside. */
  predicate Inside(p: Vec2, c: Collider) {
    c.r > 0.0 && DistSq(p, Centre(c)) < c.r * c.r
  }

  /** `hypot(p) <= IslandR`. */
  predicate OnIsland(p: Vec2) {
    NormSq(p) <= IslandRSq
  }

  /** `hypot(p) <= IslandR - 0.2`. */
  predicate WithinEdge(p: Vec2) {
    NormSq(p) <= EdgeSq
  }

  /** A collider the loop does not skip and whose disc contains `next`. */
  predicate Hits(next: Vec2, c: Collider) {
    c != IslandDisc && Inside(next, c)
  }

  /** Index of the first collider, in registration order, that `next` hits. */
  function FirstHit(next: Vec2, cols: seq<Collider>): (h: Option<nat>)
    ensures h.Some? ==> h.value < |cols| && Hits(next, cols[h.value])
    ensures h.Some? ==> forall j :: 0 <= j < h.value ==> !Hits(next, cols[j])
    ensures h.None? <==> forall j :: 0 <= j < |cols| ==> !Hits(next, cols[j])
    decreases |cols|
  {
    if |cols| == 0 then None
    else if Hits(next, cols[0]) then Some(0)
    else
      match FirstHit(next, cols[1..])
      case None => None
      case Some(i) => Some(i + 1)
  }

  /** The collider that decides the outcome for `next`, if any. */
  function Obstacle(next: Vec2, cols: seq<Collider>): Option<Collider> {
    match FirstHit(next, cols)
    case None => None
    case Some(i) => Some(cols[i])
  }

  /**
   The Z-only slide test. `Literal` is the test as the resolver writes it:
   the distance is taken from `(col.x, 0)` rather than from the collider's
   centre. `Centred` measures from the centre, like the X-only test.
   */
  datatype ZTest = Literal | Centred

  predicate ZSlideClear(tryZ: Vec2, c: Collider, rule: ZTest) {
    match rule
    case Literal => !Inside(tryZ, Collider(c.x, 0.0, c.r))
    case Centred => !Inside(tryZ, c)
  }

  /** `pos + 0.6 * reflect(d, m / |m|)`: the damped bounce off a surface with normal along `m`. */
  function Bounce(pos: Vec2, d: Vec2, m: Vec2): Vec2 {
    Add(pos, Scale(Damping, ReflectAbout(d, m)))
  }

  /** Past the edge: take the damped bounce off the shore if it lands within the edge, else stay. */
  function EdgeResponse(pos: Vec2, d: Vec2): (p: Vec2)
    ensures p == pos || WithinEdge(p)
    ensures WithinEdge(Bounce(pos, d, Add(pos, d))) ==> p == Bounce(pos, d, Add(pos, d))
    ensures !WithinEdge(Bounce(pos, d, Add(pos, d))) ==> p == pos
  {
    var alt := Bounce(pos, d, Add(pos, d));
    if WithinEdge(alt) then alt else pos
  }

  /** The X-only slide, then the Z-only slide, each taken only if it passes its test; else stay. */
  function SlideResponse(pos: Vec2, d: Vec2, c: Collider, rule: ZTest): (p: Vec2)
    ensures p == pos || OnIsland(p)
    ensures p == pos || !Inside(p, c) || (rule == Literal && p == Add(pos, Vec2(0.0, d.z)))
    // the X-only slide has priority over the Z-only slide, and a passing slide is taken
    ensures !Inside(Add(pos, Vec2(d.x, 0.0)), c) && OnIsland(Add(pos, Vec2(d.x, 0.0))) ==>
              p == Add(pos, Vec2(d.x, 0.0))
    ensures !(!Inside(Add(pos, Vec2(d.x, 0.0)), c) && OnIsland(Add(pos, Vec2(d.x, 0.0)))) ==>
              p == (if ZSlideClear(Add(pos, Vec2(0.0, d.z)), c, rule) && OnIsland(Add(pos, Vec2(0.0, d.z)))
                    then Add(pos, Vec2(0.0, d.z)) else pos)
  {
    var tryX := Add(pos, Vec2(d.x, 0.0));
    var tryZ := Add(pos, Vec2(0.0, d.z));
    if !Inside(tryX, c) && OnIsland(tryX) then tryX
    else if ZSlideClear(tryZ, c, rule) && OnIsland(tryZ) then tryZ
    else pos
  }

  /** Into obstacle `c`: the damped bounce off it if that clears it and stays on the island, else a slide. */
  function HitResponse(pos: Vec2, d: Vec2, c: Collider, rule: ZTest): (p: Vec2)
    ensures p == pos || OnIsland(p)
    ensures p == pos || !Inside(p, c) || (rule == Literal && p == Add(pos, Vec2(0.0, d.z)))
    // the bounce has priority: it is taken whenever it clears the obstacle and stays on the island
    ensures var alt := Bounce(pos, d, Sub(Add(pos, d), Centre(c)));
            !Inside(alt, c) && OnIsland(alt) ==> p == alt
    ensures var alt := Bounce(pos, d, Sub(Add(pos, d), Centre(c)));
            !(!Inside(alt, c) && OnIsland(alt)) ==> p == SlideResponse(pos, d, c, rule)
  {
    var alt := Bounce(pos, d, Sub(Add(pos, d), Centre(c)));
    if !Inside(alt, c) && OnIsland(alt) then alt
    else SlideResponse(pos, d, c, rule)
  }

  /**
   The three-way resolution of one step `d` from `pos`, under a given Z-slide
   test: past the edge the step bounces or is dropped, into an obstacle it
   bounces, slides or is dropped, and otherwise it is taken whole.
   */
  function Resolve(pos: Vec2, d: Vec2, cols: seq<Collider>, rule: ZTest): (p: Vec2)
    // every position written lies on the island
    ensures p == pos || OnIsland(p)
    // the step never ends beyond the edge: it bounces to within the edge or is dropped
    ensures !WithinEdge(Add(pos, d)) ==>
              p == pos || (p == Bounce(pos, d, Add(pos, d)) && WithinEdge(p))
    // past the edge, a bounce that lands within the edge is taken
    ensures !WithinEdge(Add(pos, d)) && WithinEdge(Bounce(pos, d, Add(pos, d))) ==>
              p == Bounce(pos, d, Add(pos, d))
    // a clear step is taken whole
    ensures WithinEdge(Add(pos, d)) && Obstacle(Add(pos, d), cols).None? ==> p == Add(pos, d)
    // after a hit, only the Z-only slide can leave the player inside the obstacle,
    // and with the centred test nothing can
    ensures WithinEdge(Add(pos, d)) && Obstacle(Add(pos, d), cols).Some? ==>
              var c := Obstacle(Add(pos, d), cols).value;
              p == pos || !Inside(p, c) || (rule == Literal && p == Add(pos, Vec2(0.0, d.z)))
  {
    var next := Add(pos, d);
    if !WithinEdge(next) then EdgeResponse(pos, d)
    else
      match Obstacle(next, cols)
      case None => next
      case Some(c) => HitResponse(pos, d, c, rule)
  }

  /** `tryMove(dx, dz)` as written. */
  function TryMove(pos: Vec2, d: Vec2, cols: seq<Collider>): (p: Vec2)
    ensures p == pos || OnIsland(p)
    ensures OnIsland(pos) ==> OnIsland(p)
  {
    Resolve(pos, d, cols, Literal)
  }

  /**
   `tryMove` with the Z-only slide measured from the collider's centre: a
   move that hits an obstacle never ends inside it unless the player stays.
   */
  function TryMoveCorrected(pos: Vec2, d: Vec2, cols: seq<Collider>): (p: Vec2)
    ensures p == pos || OnIsland(p)
    ensures WithinEdge(Add(pos, d)) && Obstacle(Add(pos, d), cols).Some? ==>
              p == pos || !Inside(p, Obstacle(Add(pos, d), cols).value)
  {
    Resolve(pos, d, cols, Centred)
  }

  /**
   The order in which the resolver tries its answers after hitting obstacle
   `c`: the damped bounce off `c` if it clears `c` and stays on the island,
   else the X-only slide if it clears `c` and stays on the island, else the
   Z-only slide if it passes its test and stays on the island, else no move.
   */
  lemma CollisionOrder(pos: Vec2, d: Vec2, cols: seq<Collider>, c: Collider, rule: ZTest)
    requires WithinEdge(Add(pos, d)) && Obstacle(Add(pos, d), cols) == Some(c)
    ensures var p := Resolve(pos, d, cols, rule);
            var alt := Bounce(pos, d, Sub(Add(pos, d), Centre(c)));
            var tryX := Add(pos, Vec2(d.x, 0.0));
            var tryZ := Add(pos, Vec2(0.0, d.z));
            var okAlt := !Inside(alt, c) && OnIsland(alt);
            var okX := !Inside(tryX, c) && OnIsland(tryX);
            var okZ := ZSlideClear(tryZ, c, rule) && OnIsland(tryZ);
            && (okAlt ==> p == alt)
            && (!okAlt && okX ==> p == tryX)
            && (!okAlt && !okX && okZ ==> p == tryZ)
            && (!okAlt && !okX && !okZ ==> p == pos)
  {
    ResolveOnHit(pos, d, cols, c, rule);
  }

  /** One step of the search: the head decides if it is hit, else the rest does. */
  lemma ObstacleStep(next: Vec2, cols: seq<Collider>)
    requires |cols| > 0
    ensures Obstacle(next, cols) == if Hits(next, cols[0]) then Some(cols[0]) else Obstacle(next, cols[1..])
  {
    if !Hits(next, cols[0]) {
      match FirstHit(next, cols[1..])
      case None =>
      case Some(k) => assert cols[1..][k] == cols[k + 1];
    }
  }

  /** A collider that `next` does not hit can be removed without changing the deciding obstacle. */
  lemma {:induction false} ObstacleDropMiss(next: Vec2, a: seq<Collider>, c: Collider, b: seq<Collider>)
    requires !Hits(next, c)
    ensures Obstacle(next, a + [c] + b) == Obstacle(next, a + b)
    decreases |a|
  {
    var l := a + [c] + b;
    var l' := a + b;
    ObstacleStep(next, l);
    if |a| == 0 {
      assert l[0] == c && l[1..] == b && l' == b;
    } else {
      ObstacleStep(next, l');
      assert l[0] == a[0] && l'[0] == a[0];
      assert l[1..] == a[1..] + [c] + b;
      assert l'[1..] == a[1..] + b;
      if !Hits(next, a[0]) {
        ObstacleDropMiss(next, a[1..], c, b);
      }
    }
  }

  /** Colliders registered after the deciding obstacle are never consulted. */
  lemma {:induction false} ObstacleIgnoresLater(next: Vec2, a: seq<Collider>, b: seq<Collider>)
    requires Obstacle(next, a).Some?
    ensures Obstacle(next, a + b) == Obstacle(next, a)
    decreases |a|
  {
    assert (a + b)[0] == a[0];
    if !Hits(next, a[0]) {
      ObstacleIgnoresLater(next, a[1..], b);
      assert (a + b)[1..] == a[1..] + b;
    }
  }

  /** A prefix of colliders that `next` misses can be dropped. */
  lemma {:induction false} ObstacleDropMisses(next: Vec2, a: seq<Collider>, b: seq<Collider>)
    requires forall j :: 0 <= j < |a| ==> !Hits(next, a[j])
    ensures Obstacle(next, a + b) == Obstacle(next, b)
    decreases |a|
  {
    if |a| > 0 {
      ObstacleDropMisses(next, a[1..], b);
      assert (a + b)[0] == a[0];
      assert (a + b)[1..] == a[1..] + b;
    } else {
      assert a + b == b;
    }
  }

  /** The registered island disc never influences a move, wherever it sits in the list. */
  lemma IslandDiscIgnored(pos: Vec2, d: Vec2, a: seq<Collider>, b: seq<Collider>, rule: ZTest)
    ensures Resolve(pos, d, a + [IslandDisc] + b, rule) == Resolve(pos, d, a + b, rule)
  {
    ObstacleDropMiss(Add(pos, d), a, IslandDisc, b);
    SameObstacleSameMove(pos, d, a + [IslandDisc] + b, a + b, rule);
  }

  /** The island disc registered first, as set-up does with `addCollider`, never influences a move. */
  lemma IslandRegisteredFirst(pos: Vec2, d: Vec2, cols: seq<Collider>, rule: ZTest)
    ensures Resolve(pos, d, AddCollider([], 0.0, 0.0, IslandR) + cols, rule) == Resolve(pos, d, cols, rule)
  {
    assert AddCollider([], 0.0, 0.0, IslandR) + cols == [] + [IslandDisc] + cols;
    assert [] + cols == cols;
    IslandDiscIgnored(pos, d, [], cols, rule);
  }

  /** Once some collider decides a move, registering another one later does not change it. */
  lemma LaterColliderIgnored(pos: Vec2, d: Vec2, cols: seq<Collider>, x: real, z: real, r: real, rule: ZTest)
    requires Obstacle(Add(pos, d), cols).Some?
    ensures Resolve(pos, d, AddCollider(cols, x, z, r), rule) == Resolve(pos, d, cols, rule)
  {
    ObstacleIgnoresLater(Add(pos, d), cols, [Collider(x, z, r)]);
    SameObstacleSameMove(pos, d, AddCollider(cols, x, z, r), cols, rule);
  }

  /** A collider with a non-positive radius never influences a move. */
  lemma DegenerateColliderIgnored(pos: Vec2, d: Vec2, a: seq<Collider>, c: Collider, b: seq<Collider>, rule: ZTest)
    requires c.r <= 0.0
    ensures Resolve(pos, d, a + [c] + b, rule) == Resolve(pos, d, a + b, rule)
  {
    ObstacleDropMiss(Add(pos, d), a, c, b);
    SameObstacleSameMove(pos, d, a + [c] + b, a + b, rule);
  }

  /**
   Only the first collider in registration order that contains the tentative
   point matters: resolving against it alone gives the same position.
   */
  lemma OnlyFirstHitMatters(pos: Vec2, d: Vec2, cols: seq<Collider>, rule: ZTest)
    requires FirstHit(Add(pos, d), cols).Some?
    ensures Resolve(pos, d, cols, rule) == Resolve(pos, d, [cols[FirstHit(Add(pos, d), cols).value]], rule)
  {
    FirstHitDecides(Add(pos, d), cols);
    SameObstacleSameMove(pos, d, cols, [cols[FirstHit(Add(pos, d), cols).value]], rule);
  }

  /** The first hit collider on its own decides as the whole list does. */
  lemma FirstHitDecides(next: Vec2, cols: seq<Collider>)
    requires FirstHit(next, cols).Some?
    ensures Obstacle(next, cols) == Obstacle(next, [cols[FirstHit(next, cols).value]])
  {
    var i := FirstHit(next, cols).value;
    var c := cols[i];
    assert cols == cols[..i] + ([c] + cols[i + 1..]);
    ObstacleDropMisses(next, cols[..i], [c] + cols[i + 1..]);
    assert Hits(next, c);
    assert Obstacle(next, [c]) == Some(c);
    ObstacleIgnoresLater(next, [c], cols[i + 1..]);
  }

  /** The collider list affects a move only through the deciding obstacle. */
  lemma SameObstacleSameMove(pos: Vec2, d: Vec2, cols: seq<Collider>, cols': seq<Collider>, rule: ZTest)
    requires Obstacle(Add(pos, d), cols) == Obstacle(Add(pos, d), cols')
    ensures Resolve(pos, d, cols, rule) == Resolve(pos, d, cols', rule)
  {
    var next := Add(pos, d);
    if WithinEdge(next) {
      match Obstacle(next, cols)
      case None =>
      case Some(c) =>
        ResolveOnHit(pos, d, cols, c, rule);
        ResolveOnHit(pos, d, cols', c, rule);
    }
  }

  /** Bouncing a zero step goes nowhere. */
  lemma BounceOfZero(pos: Vec2, m: Vec2)
    ensures Bounce(pos, Zero, m) == pos
  {
    assert Dot(Zero, m) == 0.0;
    if NormSq(m) != 0.0 {
      var k := 2.0 * Dot(Zero, m) / NormSq(m);
      assert k == 0.0;
      assert ReflectAbout(Zero, m) == Vec2(0.0 - k * m.x, 0.0 - k * m.z);
    }
    assert ReflectAbout(Zero, m) == Zero;
    assert Scale(Damping, Zero) == Zero;
  }

  /** With no displacement the player stays exactly where they are. */
  lemma ZeroStepStays(pos: Vec2, cols: seq<Collider>, rule: ZTest)
    ensures Resolve(pos, Zero, cols, rule) == pos
  {
    var next := Add(pos, Zero);
    assert next == pos;
    assert Add(pos, Vec2(Zero.x, 0.0)) == pos;
    assert Add(pos, Vec2(0.0, Zero.z)) == pos;
    BounceOfZero(pos, next);
    match Obstacle(next, cols)
    case None =>
    case Some(c) =>
      BounceOfZero(pos, Sub(next, Centre(c)));
  }

  /** A bounce moves the player by 0.6 of the step's length, in squares 0.36. */
  lemma BounceDampsLength(pos: Vec2, d: Vec2, m: Vec2)
    ensures DistSq(Bounce(pos, d, m), pos) == 0.36 * NormSq(d)
  {
    var r := ReflectAbout(d, m);
    ReflectAboutIsReflection(d, m);
    assert Sub(Bounce(pos, d, m), pos) == Scale(Damping, r);
    calc {
      NormSq(Scale(Damping, r));
      (0.6 * r.x) * (0.6 * r.x) + (0.6 * r.z) * (0.6 * r.z);
      0.36 * NormSq(r);
    }
  }

  /**
   The bounce off a surface with offset `m = s n`, where `n` is the unit normal
   `m / |m|` and `s = |m| > 0`, is the source's `pos + 0.6 reflectVec(d, n)`;
   a zero offset (the `d || 1` guard) gives `pos + 0.6 d`.
   */
  lemma BounceMatchesReflectVec(pos: Vec2, d: Vec2, n: Vec2, s: real)
    requires NormSq(n) == 1.0 && s > 0.0
    ensures Bounce(pos, d, Scale(s, n)) == Add(pos, Scale(Damping, ReflectVec(d, n)))
    ensures Bounce(pos, d, Zero) == Add(pos, Scale(Damping, ReflectVec(d, Zero)))
  {
    var m := Scale(s, n);
    ReflectAboutAgrees(d, n, s);
    var r := ReflectAbout(d, m);
    assert r == ReflectVec(d, n);
    assert Bounce(pos, d, m) == Add(pos, Scale(Damping, r));
    ReflectZeroNormal(d);
  }

  /** A point whose z coordinate exceeds the island radius is off the island. */
  lemma OffIslandByZ(p: Vec2)
    requires p.z > IslandR
    ensures !OnIsland(p)
  {
    assert p.z * p.z > IslandR * p.z;
    assert p.x * p.x >= 0.0;
  }

  lemma SameQuotient(a: real, b: real, a': real, b': real)
    requires a == a' && b == b' && b != 0.0
    ensures a / b == a' / b'
  {
  }

  /** With the step inside the edge and `c` deciding, the resolver takes `c`'s response. */
  lemma ResolveOnHit(pos: Vec2, d: Vec2, cols: seq<Collider>, c: Collider, rule: ZTest)
    requires WithinEdge(Add(pos, d)) && Obstacle(Add(pos, d), cols) == Some(c)
    ensures Resolve(pos, d, cols, rule) == HitResponse(pos, d, c, rule)
  {
  }

  lemma HitFallsToSlide(pos: Vec2, d: Vec2, c: Collider, rule: ZTest)
    requires !OnIsland(Bounce(pos, d, Sub(Add(pos, d), Centre(c))))
    ensures HitResponse(pos, d, c, rule) == SlideResponse(pos, d, c, rule)
  {
  }

  lemma SlideFallsToZ(pos: Vec2, d: Vec2, c: Collider, rule: ZTest)
    requires !OnIsland(Add(pos, Vec2(d.x, 0.0)))
    requires OnIsland(Add(pos, Vec2(0.0, d.z)))
    ensures SlideResponse(pos, d, c, rule)
              == if ZSlideClear(Add(pos, Vec2(0.0, d.z)), c, rule) then Add(pos, Vec2(0.0, d.z)) else pos
  {
  }

  /** The shore configuration's step lands inside the edge and inside the collider. */
  lemma ShoreStepHits()
    ensures Add(Vec2(0.0, 75.0), Vec2(0.1, -0.26)) == Vec2(0.1, 74.74)
    ensures WithinEdge(Vec2(0.1, 74.74))
    ensures Obstacle(Vec2(0.1, 74.74), [Collider(0.0, 73.9, 1.0)]) == Some(Collider(0.0, 73.9, 1.0))
    ensures Sub(Vec2(0.1, 74.74), Centre(Collider(0.0, 73.9, 1.0))) == Vec2(0.1, 0.84)
  {
    assert Sub(Vec2(0.1, 74.74), Vec2(0.0, 73.9)) == Vec2(0.1, 0.84);
    assert DistSq(Vec2(0.1, 74.74), Vec2(0.0, 73.9)) == 0.7156;
  }

  /** The bounce in the shore configuration leaves the island. */
  lemma ShoreBounceLeaves()
    ensures !OnIsland(Bounce(Vec2(0.0, 75.0), Vec2(0.1, -0.26), Vec2(0.1, 0.84)))
  {
    var d := Vec2(0.1, -0.26);
    var m := Vec2(0.1, 0.84);
    assert NormSq(m) == 0.7156;
    assert Dot(d, m) == -0.2084;
    var k := -0.4168 / 0.7156;
    SameQuotient(2.0 * Dot(d, m), NormSq(m), -0.4168, 0.7156);
    assert ReflectAbout(d, m) == Vec2(0.1 - k * 0.1, -0.26 - k * 0.84);
    var alt := Bounce(Vec2(0.0, 75.0), d, m);
    assert alt.z == 75.0 + 0.6 * (-0.26 - k * 0.84);
    OffIslandByZ(alt);
  }

  /** In the shore configuration the X-only slide leaves the island and the Z-only slide does not. */
  lemma ShoreSlides()
    ensures !OnIsland(Add(Vec2(0.0, 75.0), Vec2(0.1, 0.0)))
    ensures Add(Vec2(0.0, 75.0), Vec2(0.0, -0.26)) == Vec2(0.0, 74.74)
    ensures OnIsland(Vec2(0.0, 74.74))
    ensures Inside(Vec2(0.0, 74.74), Collider(0.0, 73.9, 1.0))
  {
    assert DistSq(Vec2(0.0, 74.74), Vec2(0.0, 73.9)) == 0.7056;
    assert Add(Vec2(0.0, 75.0), Vec2(0.1, 0.0)) == Vec2(0.1, 75.0);
  }

  /**
   With the Z-only slide test as written, a player standing on the shore line
   can be slid into the very obstacle it hit: for this collider on the z axis
   the test measures from the origin and sees a gap of 74.74, while the real
   gap is 0.84 against a radius of 1.
   */
  lemma ZSlideEntersObstacle()
    ensures TryMove(Vec2(0.0, 75.0), Vec2(0.1, -0.26), [Collider(0.0, 73.9, 1.0)]) == Vec2(0.0, 74.74)
    ensures Inside(Vec2(0.0, 74.74), Collider(0.0, 73.9, 1.0))
  {
    ShoreStepHits();
    ShoreBounceLeaves();
    ShoreSlides();
    ResolveOnHit(Vec2(0.0, 75.0), Vec2(0.1, -0.26), [Collider(0.0, 73.9, 1.0)], Collider(0.0, 73.9, 1.0), Literal);
    HitFallsToSlide(Vec2(0.0, 75.0), Vec2(0.1, -0.26), Collider(0.0, 73.9, 1.0), Literal);
    SlideFallsToZ(Vec2(0.0, 75.0), Vec2(0.1, -0.26), Collider(0.0, 73.9, 1.0), Literal);
  }

  /** In the same configuration the centred Z-only test refuses the slide and the player stays. */
  lemma CorrectedZSlideStays()
    ensures TryMoveCorrected(Vec2(0.0, 75.0), Vec2(0.1, -0.26), [Collider(0.0, 73.9, 1.0)]) == Vec2(0.0, 75.0)
  {
    ShoreStepHits();
    ShoreBounceLeaves();
    ShoreSlides();
    ResolveOnHit(Vec2(0.0, 75.0), Vec2(0.1, -0.26), [Collider(0.0, 73.9, 1.0)], Collider(0.0, 73.9, 1.0), Centred);
    HitFallsToSlide(Vec2(0.0, 75.0), Vec2(0.1, -0.26), Collider(0.0, 73.9, 1.0), Centred);
    SlideFallsToZ(Vec2(0.0, 75.0), Vec2(0.1, -0.26), Collider(0.0, 73.9, 1.0), Centred);
  }
}
