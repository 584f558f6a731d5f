/**
 * The physics engine of the game: per-tick integration of the character
 * ("ghosty"), the jump impulse, scrolling, culling and spawning of walls,
 * the difficulty curve for the gap size, and the collision and scoring scans.
 *
 * Coordinates, velocities and times are reals (IEEE-754 rounding is not
 * modelled). The random number that places a new wall's gap is a parameter.
 */
module PhysicsEngine {

  // The constants fixed by the Physics constructor.
  const GRAVITY: real := 0.0015
  const JUMP_VELOCITY: real := -0.5
  const SCROLL_SPEED: real := 0.2
  const INITIAL_GAP_SIZE: real := 180.0
  const MIN_GAP_SIZE: real := 120.0
  const GAP_DECREASE_RATE: real := 2.0
  const WALL_WIDTH: real := 60.0
  const WALL_SPACING: real := 300.0
  /** The ground line lies this far above the bottom of the canvas. */
  const GROUND_MARGIN: real := 50.0
  /** Duration of the flap animation started by a jump. */
  const FLAP_DURATION: real := 200.0
  /** Degrees of tilt per unit of velocity, and the tilt limit. */
  const ROTATION_SCALE: real := 50.0
  const MAX_ROTATION: real := 30.0

  function Max(a: real, b: real): real { if a >= b then a else b }
  function Min(a: real, b: real): real { if a <= b then a else b }

  /** The value of a ghosty object. */
  datatype GhostyState = GhostyState(
    x: real, y: real, width: real, height: real,
    velocity: real, rotation: real, flapTime: real)

  /** The value of a wall object: a pipe pair with a gap centred at gapY. */
  datatype WallState = WallState(x: real, gapY: real, gapSize: real, width: real, scored: bool)

  /** The player's character; the engine updates its fields in place. */
  class Ghosty {
    var x: real
    var y: real
    var width: real
    var height: real
    var velocity: real
    var rotation: real
    var flapTime: real

    function View(): GhostyState
      reads this
    {
      GhostyState(x, y, width, height, velocity, rotation, flapTime)
    }

    constructor (s: GhostyState)
      ensures View() == s
    {
      x, y, width, height := s.x, s.y, s.width, s.height;
      velocity, rotation, flapTime := s.velocity, s.rotation, s.flapTime;
    }
  }

  /** A wall; the engine moves it and marks it scored in place. */
  class Wall {
    var x: real
    var gapY: real
    var gapSize: real
    var width: real
    var scored: bool

    function View(): WallState
      reads this
    {
      WallState(x, gapY, gapSize, width, scored)
    }

    constructor (s: WallState)
      ensures View() == s
    {
      x, gapY, gapSize, width, scored := s.x, s.gapY, s.gapSize, s.width, s.scored;
    }
  }

  /** No wall object occurs twice in the list. */
  predicate Distinct(ws: seq<Wall>)
  {
    forall i, j :: 0 <= i < j < |ws| ==> ws[i] != ws[j]
  }

  lemma DistinctSnoc(ws: seq<Wall>, w: Wall)
    requires Distinct(ws) && w !in ws
    ensures Distinct(ws + [w])
  {
  }

  /** The values of a list of wall objects, in order. */
  ghost function Views(ws: seq<Wall>): (vs: seq<WallState>)
    reads ws
    ensures |vs| == |ws|
    ensures forall i :: 0 <= i < |ws| ==> vs[i] == ws[i].View()
  {
    seq(|ws|, i reads ws requires 0 <= i < |ws| => ws[i].View())
  }

  /** The values of wall objects none of which has changed are unchanged. */
  twostate lemma ViewsUnchanged(ws: seq<Wall>)
    requires unchanged(ws)
    ensures Views(ws) == old(Views(ws))
  {
  }

  lemma ViewsSnoc(ws: seq<Wall>, w: Wall)
    ensures Views(ws + [w]) == Views(ws) + [w.View()]
  {
    assert (ws + [w])[..|ws|] == ws;
  }

  // ---------------------------------------------------------------------
  // Character integration and the jump impulse

  /** The tilt shown for a given velocity. */
  function RotationFor(velocity: real): real
  {
    Max(-MAX_ROTATION, Min(MAX_ROTATION, velocity * ROTATION_SCALE))
  }

  /** The tilt is velocity * 50 clamped to [-30, 30]. */
  lemma RotationClamped(velocity: real)
    ensures -MAX_ROTATION <= RotationFor(velocity) <= MAX_ROTATION
    ensures -MAX_ROTATION <= velocity * ROTATION_SCALE <= MAX_ROTATION ==> RotationFor(velocity) == velocity * ROTATION_SCALE
    ensures velocity * ROTATION_SCALE > MAX_ROTATION ==> RotationFor(velocity) == MAX_ROTATION
    ensures velocity * ROTATION_SCALE < -MAX_ROTATION ==> RotationFor(velocity) == -MAX_ROTATION
  {
  }

  /** The character after one tick of dt milliseconds: gravity first, then
      position with the NEW velocity; the flap timer runs down only while
      positive and is not floored at zero. */
  function GhostyAfter(g: GhostyState, dt: real): GhostyState
  {
    var velocity := g.velocity + GRAVITY * dt;
    g.(velocity := velocity,
       y := g.y + velocity * dt,
       rotation := RotationFor(velocity),
       flapTime := if g.flapTime > 0.0 then g.flapTime - dt else g.flapTime)
  }

  /** The character after a jump: the velocity is overridden, not added to. */
  function GhostyAfterJump(g: GhostyState): GhostyState
  {
    g.(velocity := JUMP_VELOCITY, flapTime := FLAP_DURATION)
  }

  /** One tick is semi-implicit Euler: the displacement is v*dt + g*dt*dt
      (not v*dt + g*dt*dt/2), and nothing horizontal changes. */
  lemma GhostyAfterKinematics(g: GhostyState, dt: real)
    ensures GhostyAfter(g, dt).velocity - g.velocity == GRAVITY * dt
    ensures GhostyAfter(g, dt).y - g.y == g.velocity * dt + GRAVITY * dt * dt
    ensures GhostyAfter(g, dt).x == g.x
    ensures GhostyAfter(g, dt).width == g.width && GhostyAfter(g, dt).height == g.height
  {
    var v' := g.velocity + GRAVITY * dt;
    assert v' * dt == g.velocity * dt + GRAVITY * dt * dt;
  }

  /** The tilt after a tick always lies in [-30, 30] and follows the new velocity. */
  lemma GhostyAfterRotation(g: GhostyState, dt: real)
    ensures -MAX_ROTATION <= GhostyAfter(g, dt).rotation <= MAX_ROTATION
    ensures GhostyAfter(g, dt).rotation == RotationFor(GhostyAfter(g, dt).velocity)
  {
    RotationClamped(GhostyAfter(g, dt).velocity);
  }

  /** The flap timer: decreased by dt exactly when it was positive, otherwise
      left alone; so with dt > flapTime > 0 it goes below zero. */
  lemma GhostyAfterFlapTime(g: GhostyState, dt: real)
    requires dt >= 0.0
    ensures g.flapTime > 0.0 ==> GhostyAfter(g, dt).flapTime == g.flapTime - dt
    ensures g.flapTime <= 0.0 ==> GhostyAfter(g, dt).flapTime == g.flapTime
    ensures GhostyAfter(g, dt).flapTime <= g.flapTime
    ensures 0.0 < g.flapTime < dt ==> GhostyAfter(g, dt).flapTime < 0.0
  {
  }

  /** A jump sets the velocity to exactly JUMP_VELOCITY whatever it was,
      restarts the flap timer, and does not move the character. */
  lemma JumpOverridesVelocity(g: GhostyState)
    ensures GhostyAfterJump(g).velocity == JUMP_VELOCITY
    ensures GhostyAfterJump(g).flapTime == FLAP_DURATION
    ensures GhostyAfterJump(g).y == g.y && GhostyAfterJump(g).x == g.x
    ensures g.velocity < JUMP_VELOCITY ==> GhostyAfterJump(g).velocity > g.velocity
    ensures GhostyAfterJump(GhostyAfterJump(g)) == GhostyAfterJump(g)
  {
  }

  /** The vertical motion (y, velocity) of the character over n ticks of dt
      with no jump in between: each tick is the integration of GhostyAfter. */
  function Fall(y: real, velocity: real, dt: real, n: nat): (real, real)
  {
    if n == 0 then (y, velocity)
    else
      var p := Fall(y, velocity, dt, n - 1);
      var v := p.1 + GRAVITY * dt;
      (p.0 + v * dt, v)
  }

  lemma FallUnfold(y: real, velocity: real, dt: real, n: nat)
    requires n > 0
    ensures Fall(y, velocity, dt, n).1 == Fall(y, velocity, dt, n - 1).1 + GRAVITY * dt
    ensures Fall(y, velocity, dt, n).0 == Fall(y, velocity, dt, n - 1).0 + Fall(y, velocity, dt, n).1 * dt
  {
  }

  /** Fall follows GhostyAfter: if h is where n ticks from g0 lead, one more
      tick of GhostyAfter from h is where n + 1 ticks lead. */
  lemma GhostyAfterFalls(g0: GhostyState, h: GhostyState, dt: real, n: nat)
    requires (h.y, h.velocity) == Fall(g0.y, g0.velocity, dt, n)
    ensures GhostyAfter(h, dt).velocity == Fall(g0.y, g0.velocity, dt, n + 1).1
    ensures GhostyAfter(h, dt).y == Fall(g0.y, g0.velocity, dt, n + 1).0
  {
    FallUnfold(g0.y, g0.velocity, dt, n + 1);
    var after := GhostyAfter(h, dt);
    assert after.velocity == h.velocity + GRAVITY * dt;
    assert after.y == h.y + after.velocity * dt;
  }

  /** 1 + 2 + ... + n. */
  function Triangle(n: nat): nat
  {
    if n == 0 then 0 else Triangle(n - 1) + n
  }

  lemma {:induction false} TriangleFormula(n: nat)
    ensures 2 * Triangle(n) == n * (n + 1)
    ensures Triangle(n) >= n
  {
    if n > 0 {
      TriangleFormula(n - 1);
    }
  }

  /** Closed form of n ticks without a jump: the velocity grows linearly and
      the height quadratically in n, by (1 + 2 + ... + n) * GRAVITY * dt * dt
      beyond the drift of the initial velocity. */
  lemma {:induction false} FallClosedForm(y: real, velocity: real, dt: real, n: nat)
    ensures Fall(y, velocity, dt, n).1 == velocity + (n as real) * (GRAVITY * dt)
    ensures Fall(y, velocity, dt, n).0
         == y + (n as real) * (velocity * dt) + (Triangle(n) as real) * ((GRAVITY * dt) * dt)
  {
    if n > 0 {
      FallClosedForm(y, velocity, dt, n - 1);
      FallUnfold(y, velocity, dt, n);
      var p := Fall(y, velocity, dt, n - 1);
      var m, t, m', t' := (n - 1) as real, Triangle(n - 1) as real, n as real, Triangle(n) as real;
      assert m' == m + 1.0 && t' == t + m';
      FallStep(p.0, p.1, y, velocity, dt, GRAVITY * dt, m, t, m', t');
    }
  }

  /** The arithmetic of one tick of FallClosedForm, over plain reals. */
  lemma FallStep(py: real, pv: real, y0: real, v0: real, dt: real, k: real, m: real, t: real, m': real, t': real)
    requires pv == v0 + m * k
    requires py == y0 + m * (v0 * dt) + t * (k * dt)
    requires m' == m + 1.0 && t' == t + m'
    ensures pv + k == v0 + m' * k
    ensures py + (pv + k) * dt == y0 + m' * (v0 * dt) + t' * (k * dt)
  {
    Associate(m, k, dt);
  }

  /** Without jumps the character, starting at rest or falling, goes below
      any line: for every depth there is a number of ticks after which y is
      at least that deep. So a character that never jumps reaches the ground. */
  lemma FallReachesAnyDepth(y: real, velocity: real, dt: real, depth: real) returns (n: nat)
    requires velocity >= 0.0 && dt > 0.0
    ensures Fall(y, velocity, dt, n).0 >= depth
  {
    PositiveProduct(GRAVITY, dt);
    var gd := GRAVITY * dt;
    PositiveProduct(gd, dt);
    var c := gd * dt;
    if depth <= y {
      n := 0;
    } else {
      var q := (depth - y) / c;
      n := q.Floor + 1;
      FallAtLeast(y, velocity, dt, n);
      QuotientScaleUp(depth - y, c, n as real);
    }
  }

  /** Without jumps and starting at rest or falling, n ticks lower y by at
      least n * GRAVITY * dt * dt. */
  lemma FallAtLeast(y: real, velocity: real, dt: real, n: nat)
    requires velocity >= 0.0 && dt > 0.0
    ensures Fall(y, velocity, dt, n).0 >= y + (n as real) * ((GRAVITY * dt) * dt)
  {
    FallClosedForm(y, velocity, dt, n);
    TriangleFormula(n);
    PositiveProduct(GRAVITY, dt);
    PositiveProduct(GRAVITY * dt, dt);
    NonNegativeProduct(velocity, dt);
    NonNegativeProduct(n as real, velocity * dt);
    ScaleUp(n as real, Triangle(n) as real, (GRAVITY * dt) * dt);
  }

  /** The character after n ticks of dt with no jump in between. */
  function Ticks(g: GhostyState, dt: real, n: nat): GhostyState
  {
    if n == 0 then g else GhostyAfter(Ticks(g, dt, n - 1), dt)
  }

  /** The vertical motion of n ticks is Fall. */
  lemma {:induction false} TicksFall(g: GhostyState, dt: real, n: nat)
    ensures (Ticks(g, dt, n).y, Ticks(g, dt, n).velocity) == Fall(g.y, g.velocity, dt, n)
    ensures Ticks(g, dt, n).height == g.height
  {
    if n > 0 {
      TicksFall(g, dt, n - 1);
      GhostyAfterFalls(g, Ticks(g, dt, n - 1), dt, n - 1);
    }
  }

  /** A character at rest or falling that never jumps reaches the ground:
      after some number of ticks its bottom is at or below groundY. */
  lemma NoJumpReachesGround(g: GhostyState, dt: real, groundY: real) returns (n: nat)
    requires g.velocity >= 0.0 && dt > 0.0
    ensures Ticks(g, dt, n).y + Ticks(g, dt, n).height >= groundY
    ensures HitsGroundOrCeiling(Ticks(g, dt, n), groundY)
  {
    n := FallReachesAnyDepth(g.y, g.velocity, dt, groundY - g.height);
    TicksFall(g, dt, n);
  }

  /** If m exceeds a / c then m * c exceeds a. */
  lemma QuotientScaleUp(a: real, c: real, m: real)
    requires c > 0.0 && m >= a / c
    ensures m * c >= a
  {
    ScaleUp(a / c, m, c);
    assert (a / c) * c == a;
  }

  lemma PositiveProduct(a: real, b: real)
    requires a > 0.0 && b > 0.0
    ensures a * b > 0.0
  {
  }

  lemma ScaleUp(a: real, b: real, c: real)
    requires a <= b && c >= 0.0
    ensures a * c <= b * c
  {
    NonNegativeProduct(b - a, c);
    assert b * c - a * c == (b - a) * c;
  }

  lemma Associate(p: real, q: real, r: real)
    ensures (p * q) * r == p * (q * r)
  {
  }

  // ---------------------------------------------------------------------
  // Difficulty curve and wall creation

  /** The gap of a new wall: 180 shrinking by 2 per point, never below 120. */
  function CalculateGapSize(score: int): (gap: real)
    ensures gap >= MIN_GAP_SIZE
    ensures score >= 0 ==> gap <= INITIAL_GAP_SIZE
    ensures gap == MIN_GAP_SIZE || gap == INITIAL_GAP_SIZE - (score as real) * GAP_DECREASE_RATE
  {
    Max(INITIAL_GAP_SIZE - (score as real) * GAP_DECREASE_RATE, MIN_GAP_SIZE)
  }

  /** The difficulty never eases: a higher score never gives a wider gap. */
  lemma GapSizeNonIncreasing(s1: int, s2: int)
    requires s1 <= s2
    ensures CalculateGapSize(s2) <= CalculateGapSize(s1)
  {
    assert (s1 as real) * GAP_DECREASE_RATE <= (s2 as real) * GAP_DECREASE_RATE;
  }

  /** The curve reaches its floor at a score of 30 and stays there. */
  lemma GapSizeCurve(score: int)
    ensures score <= 30 ==> CalculateGapSize(score) == 180.0 - 2.0 * (score as real)
    ensures score >= 30 ==> CalculateGapSize(score) == 120.0
    ensures CalculateGapSize(0) == 180.0 && CalculateGapSize(29) == 122.0
    ensures CalculateGapSize(30) == 120.0 && CalculateGapSize(1000) == 120.0
  {
  }

  /** A new wall at the right edge, given a random number r in [0, 1). */
  function CreateWall(score: int, r: real, canvasWidth: real, groundY: real): (w: WallState)
    requires 0.0 <= r < 1.0
    ensures w.x == canvasWidth && w.width == WALL_WIDTH && !w.scored
    ensures w.gapSize == CalculateGapSize(score)
    ensures w.gapSize <= groundY ==> w.gapSize / 2.0 <= w.gapY <= groundY - w.gapSize / 2.0
  {
    var gapSize := CalculateGapSize(score);
    var minGapY := gapSize / 2.0;
    var maxGapY := groundY - gapSize / 2.0;
    var gapY := Lerp(minGapY, maxGapY, r);
    WallState(canvasWidth, gapY, gapSize, WALL_WIDTH, false)
  }

  /** The point a fraction r in [0, 1) of the way from lo to hi: between
      them whenever lo <= hi, and lo itself exactly when r is zero. */
  function Lerp(lo: real, hi: real, r: real): (p: real)
    requires 0.0 <= r < 1.0
    ensures lo <= hi ==> lo <= p <= hi
    ensures lo < hi ==> (p == lo <==> r == 0.0)
    ensures lo < hi ==> p < hi
  {
    Interpolate(lo, hi, r);
    lo + r * (hi - lo)
  }

  lemma Interpolate(lo: real, hi: real, r: real)
    requires 0.0 <= r < 1.0
    ensures lo <= hi ==> lo <= lo + r * (hi - lo) <= hi
    ensures lo < hi ==> (lo + r * (hi - lo) == lo <==> r == 0.0)
    ensures lo < hi ==> lo + r * (hi - lo) < hi
  {
    if lo < hi {
      AboveLow(lo, hi, r);
      AtLowIff(lo, hi, r);
      BelowHigh(lo, hi, r);
    } else if lo == hi {
      assert r * (hi - lo) == 0.0;
    }
  }

  lemma AboveLow(lo: real, hi: real, r: real)
    requires 0.0 <= r && lo < hi
    ensures lo <= lo + r * (hi - lo)
  {
    NonNegativeProduct(r, hi - lo);
  }

  lemma AtLowIff(lo: real, hi: real, r: real)
    requires 0.0 <= r && lo < hi
    ensures lo + r * (hi - lo) == lo <==> r == 0.0
  {
    if r > 0.0 {
      PositiveProduct(r, hi - lo);
    }
  }

  lemma BelowHigh(lo: real, hi: real, r: real)
    requires r < 1.0 && lo < hi
    ensures lo + r * (hi - lo) < hi
  {
    var d := hi - lo;
    var p := r * d;
    var q := (1.0 - r) * d;
    PositiveProduct(1.0 - r, d);
    assert q == d - p;
  }

  lemma NonNegativeProduct(a: real, b: real)
    requires a >= 0.0 && b >= 0.0
    ensures a * b >= 0.0
  {
  }

  /** When the field is tall enough, the whole gap of a new wall lies between
      the ceiling (y = 0) and the ground. */
  lemma CreateWallGapInField(score: int, r: real, canvasWidth: real, groundY: real)
    requires 0.0 <= r < 1.0
    requires score >= 0 && INITIAL_GAP_SIZE <= groundY
    ensures 0.0 <= CreateWall(score, r, canvasWidth, groundY).gapY - CreateWall(score, r, canvasWidth, groundY).gapSize / 2.0
    ensures CreateWall(score, r, canvasWidth, groundY).gapY + CreateWall(score, r, canvasWidth, groundY).gapSize / 2.0 <= groundY
  {
    var w := CreateWall(score, r, canvasWidth, groundY);
    assert w.gapSize <= groundY;
  }

  // ---------------------------------------------------------------------
  // Scrolling, culling and spawning

  /** Every wall moved left by SCROLL_SPEED * dt. */
  function Scrolled(ws: seq<WallState>, dt: real): (out: seq<WallState>)
    ensures |out| == |ws|
    ensures forall i :: 0 <= i < |ws| ==> out[i] == ws[i].(x := ws[i].x - SCROLL_SPEED * dt)
  {
    seq(|ws|, i requires 0 <= i < |ws| => ws[i].(x := ws[i].x - SCROLL_SPEED * dt))
  }

  /** Culling test: uses the constant WALL_WIDTH, not the wall's own width. */
  predicate OnScreen(w: WallState)
  {
    w.x + WALL_WIDTH > 0.0
  }

  /** The walls kept by the cull, in their original order. */
  function Survivors(ws: seq<WallState>): (out: seq<WallState>)
    ensures |out| <= |ws|
    ensures forall w :: w in out <==> w in ws && OnScreen(w)
  {
    if ws == [] then []
    else
      var init := Survivors(ws[..|ws| - 1]);
      var last := ws[|ws| - 1];
      assert ws == ws[..|ws| - 1] + [last];
      if OnScreen(last) then init + [last] else init
  }

  /** The cull distributes over concatenation: survivors keep their relative
      order, and whether a wall survives depends on that wall alone. */
  lemma {:induction false} SurvivorsConcat(a: seq<WallState>, b: seq<WallState>)
    ensures Survivors(a + b) == Survivors(a) + Survivors(b)
  {
    if b == [] {
      assert a + b == a;
    } else {
      var b' := b[..|b| - 1];
      assert (a + b)[..|a + b| - 1] == a + b';
      assert (a + b)[|a + b| - 1] == b[|b| - 1];
      SurvivorsConcat(a, b');
    }
  }

  /** A list of walls that are all on screen is kept whole, and one that has
      none on screen is emptied. */
  lemma {:induction false} SurvivorsAllOrNothing(ws: seq<WallState>)
    ensures (forall i :: 0 <= i < |ws| ==> OnScreen(ws[i])) ==> Survivors(ws) == ws
    ensures (forall i :: 0 <= i < |ws| ==> !OnScreen(ws[i])) ==> Survivors(ws) == []
  {
    if ws != [] {
      SurvivorsAllOrNothing(ws[..|ws| - 1]);
      assert ws == ws[..|ws| - 1] + [ws[|ws| - 1]];
    }
  }

  lemma SurvivorsSnoc(s: seq<WallState>, i: nat)
    requires i < |s|
    ensures Survivors(s[..i + 1]) == Survivors(s[..i]) + (if OnScreen(s[i]) then [s[i]] else [])
  {
    assert s[..i + 1][..i] == s[..i];
  }

  /** Whether updateWalls appends a new wall after the cull. */
  predicate NeedsWall(kept: seq<WallState>, canvasWidth: real)
  {
    |kept| == 0 || kept[|kept| - 1].x < canvasWidth - WALL_SPACING
  }

  /** The wall list after one tick: scroll, cull, then spawn at most one. */
  function WallsAfter(ws: seq<WallState>, dt: real, score: int, r: real, canvasWidth: real, groundY: real): seq<WallState>
    requires 0.0 <= r < 1.0
  {
    var kept := Survivors(Scrolled(ws, dt));
    if NeedsWall(kept, canvasWidth) then kept + [CreateWall(score, r, canvasWidth, groundY)] else kept
  }

  /** The walls after a tick are the scrolled survivors in order, followed by
      exactly one new wall when the survivors are empty or the last one has
      moved left of canvasWidth - WALL_SPACING, and by nothing otherwise. */
  lemma WallsAfterSpawn(ws: seq<WallState>, dt: real, score: int, r: real, canvasWidth: real, groundY: real)
    requires 0.0 <= r < 1.0
    ensures var kept := Survivors(Scrolled(ws, dt));
            var out := WallsAfter(ws, dt, score, r, canvasWidth, groundY);
            && |kept| <= |out| <= |kept| + 1
            && out[..|kept|] == kept
            && (|out| == |kept| + 1 <==> NeedsWall(kept, canvasWidth))
            && (|out| == |kept| + 1 ==> out[|kept|] == CreateWall(score, r, canvasWidth, groundY))
  {
  }

  /** A wall survives a tick exactly when it is on screen after scrolling:
      every kept wall has x + WALL_WIDTH > 0 and none is dropped before that. */
  lemma WallsAfterCull(ws: seq<WallState>, dt: real, score: int, r: real, canvasWidth: real, groundY: real, i: nat)
    requires 0.0 <= r < 1.0
    requires i < |ws|
    ensures var moved := ws[i].(x := ws[i].x - SCROLL_SPEED * dt);
            moved.x + WALL_WIDTH > 0.0 ==> moved in WallsAfter(ws, dt, score, r, canvasWidth, groundY)
    ensures var kept := Survivors(Scrolled(ws, dt));
            forall j :: 0 <= j < |kept| ==> kept[j].x + WALL_WIDTH > 0.0
  {
    var scrolled := Scrolled(ws, dt);
    assert scrolled[i] in scrolled;
    var kept := Survivors(scrolled);
    assert forall j :: 0 <= j < |kept| ==> kept[j] in kept;
  }

  /** How the walls lie on the field: left-to-right in spawn order, more than
      WALL_SPACING apart, none right of the spawn point, all of the standard
      width, gaps never widening along the list and none narrower than the
      gap a new wall would get at the current score. */
  ghost predicate Layout(ws: seq<WallState>, canvasWidth: real, score: int)
  {
    && (forall i :: 0 <= i < |ws| ==>
          ws[i].x <= canvasWidth && ws[i].width == WALL_WIDTH && ws[i].gapSize >= CalculateGapSize(score))
    && (forall i, j :: 0 <= i < j < |ws| ==>
          ws[i].x + WALL_SPACING < ws[j].x && ws[i].gapSize >= ws[j].gapSize)
  }

  lemma {:induction false} SurvivorsLayout(ws: seq<WallState>, canvasWidth: real, score: int)
    requires Layout(ws, canvasWidth, score)
    ensures Layout(Survivors(ws), canvasWidth, score)
  {
    if ws != [] {
      var init := ws[..|ws| - 1];
      var last := ws[|ws| - 1];
      LayoutInit(ws, canvasWidth, score);
      SurvivorsLayout(init, canvasWidth, score);
      forall w | w in Survivors(init)
        ensures w.x + WALL_SPACING < last.x && w.gapSize >= last.gapSize
      {
        LayoutBeforeLast(ws, canvasWidth, score, w);
      }
      LayoutSnoc(Survivors(init), last, canvasWidth, score);
    }
  }

  /** Dropping the last wall keeps a layout. */
  lemma LayoutInit(ws: seq<WallState>, canvasWidth: real, score: int)
    requires ws != [] && Layout(ws, canvasWidth, score)
    ensures Layout(ws[..|ws| - 1], canvasWidth, score)
  {
    var init := ws[..|ws| - 1];
    forall i, j | 0 <= i < j < |init|
      ensures init[i].x + WALL_SPACING < init[j].x && init[i].gapSize >= init[j].gapSize
    {
      assert init[i] == ws[i] && init[j] == ws[j];
    }
  }

  /** Every wall before the last one lies more than WALL_SPACING left of it
      with a gap at least as wide. */
  lemma LayoutBeforeLast(ws: seq<WallState>, canvasWidth: real, score: int, w: WallState)
    requires ws != [] && Layout(ws, canvasWidth, score)
    requires w in ws[..|ws| - 1]
    ensures w.x + WALL_SPACING < ws[|ws| - 1].x && w.gapSize >= ws[|ws| - 1].gapSize
  {
    var k :| 0 <= k < |ws| - 1 && ws[..|ws| - 1][k] == w;
    assert ws[k] == w;
  }

  /** Appending a wall that lies right of all others by more than the
      spacing, and whose gap is no wider, keeps a layout. */
  lemma LayoutSnoc(ws: seq<WallState>, last: WallState, canvasWidth: real, score: int)
    requires Layout(ws, canvasWidth, score)
    requires last.x <= canvasWidth && last.width == WALL_WIDTH && last.gapSize >= CalculateGapSize(score)
    requires forall w | w in ws :: w.x + WALL_SPACING < last.x && w.gapSize >= last.gapSize
    ensures Layout(ws + [last], canvasWidth, score)
  {
    var out := ws + [last];
    forall i, j | 0 <= i < j < |out|
      ensures out[i].x + WALL_SPACING < out[j].x && out[i].gapSize >= out[j].gapSize
    {
      if j == |ws| {
        assert out[i] in ws;
      }
    }
  }

  /** ...and a tick keeps it so: the layout of the walls is an invariant of
      updateWalls for any non-negative dt. */
  lemma WallsAfterLayout(ws: seq<WallState>, dt: real, score: int, r: real, canvasWidth: real, groundY: real)
    requires 0.0 <= r < 1.0 && dt >= 0.0
    requires Layout(ws, canvasWidth, score)
    ensures Layout(WallsAfter(ws, dt, score, r, canvasWidth, groundY), canvasWidth, score)
  {
    var scrolled := Scrolled(ws, dt);
    assert Layout(scrolled, canvasWidth, score);
    SurvivorsLayout(scrolled, canvasWidth, score);
    var kept := Survivors(scrolled);
    if NeedsWall(kept, canvasWidth) {
      var nw := CreateWall(score, r, canvasWidth, groundY);
      var out := kept + [nw];
      forall i, j | 0 <= i < j < |out|
        ensures out[i].x + WALL_SPACING < out[j].x && out[i].gapSize >= out[j].gapSize
      {
        if j == |kept| && i < |kept| - 1 {
          assert kept[i].x + WALL_SPACING < kept[|kept| - 1].x;
        }
      }
    }
  }

  /** A layout stays valid as the score grows (gaps only get narrower). */
  lemma LayoutScoreUp(ws: seq<WallState>, canvasWidth: real, score: int, score': int)
    requires score <= score'
    requires Layout(ws, canvasWidth, score)
    ensures Layout(ws, canvasWidth, score')
  {
    GapSizeNonIncreasing(score, score');
  }

  // ---------------------------------------------------------------------
  // Collision

  /** The character against one wall: it overlaps the wall horizontally
      (strictly) and its top is above the gap or its bottom is below it. */
  predicate CheckWallCollision(g: GhostyState, w: WallState)
  {
    && g.x + g.width > w.x && g.x < w.x + w.width
    && (g.y < w.gapY - w.gapSize / 2.0 || g.y + g.height > w.gapY + w.gapSize / 2.0)
  }

  /** The character touches the ground line or the top of the field. */
  predicate HitsGroundOrCeiling(g: GhostyState, groundY: real)
  {
    g.y + g.height >= groundY || g.y <= 0.0
  }

  /** What checkCollisions decides. */
  predicate Collides(g: GhostyState, ws: seq<WallState>, groundY: real)
  {
    HitsGroundOrCeiling(g, groundY) || exists i :: 0 <= i < |ws| && CheckWallCollision(g, ws[i])
  }

  /** A 50x50 character at x = 120 against a wall at x = 100 (width 60,
      gap 180 centred at 300): at y = 195 its top is above the gap (195 < 210),
      at y = 215 it fits (215 >= 210 and 265 <= 390). */
  lemma WallCollisionExample()
    ensures CheckWallCollision(GhostyState(120.0, 195.0, 50.0, 50.0, 0.0, 0.0, 0.0), WallState(100.0, 300.0, 180.0, 60.0, false))
    ensures !CheckWallCollision(GhostyState(120.0, 215.0, 50.0, 50.0, 0.0, 0.0, 0.0), WallState(100.0, 300.0, 180.0, 60.0, false))
  {
  }

  /** The safe region: the character collides with nothing exactly when it is
      strictly between the ceiling and the ground and, for every wall it
      overlaps horizontally, lies wholly inside that wall's gap. */
  lemma NoCollisionIffInsideGaps(g: GhostyState, ws: seq<WallState>, groundY: real)
    ensures !Collides(g, ws, groundY) <==>
      && 0.0 < g.y && g.y + g.height < groundY
      && (forall i :: 0 <= i < |ws| && g.x + g.width > ws[i].x && g.x < ws[i].x + ws[i].width ==>
            ws[i].gapY - ws[i].gapSize / 2.0 <= g.y && g.y + g.height <= ws[i].gapY + ws[i].gapSize / 2.0)
  {
  }

  // ---------------------------------------------------------------------
  // Scoring

  /** A wall the character has wholly passed and that has not scored yet. */
  predicate Scorable(gx: real, w: WallState)
  {
    !w.scored && gx > w.x + w.width
  }

  /** Index of the first scorable wall, or |ws| when there is none. */
  function FirstScorable(gx: real, ws: seq<WallState>): (i: nat)
    ensures i <= |ws|
    ensures i < |ws| ==> Scorable(gx, ws[i])
    ensures forall j :: 0 <= j < i ==> !Scorable(gx, ws[j])
  {
    if ws == [] then 0
    else if Scorable(gx, ws[0]) then 0
    else 1 + FirstScorable(gx, ws[1..])
  }

  /** The walls after the scoring scan: the first scorable wall, if any, is
      marked scored; nothing else changes. */
  function ScoredAfter(gx: real, ws: seq<WallState>): seq<WallState>
  {
    var i := FirstScorable(gx, ws);
    if i < |ws| then ws[i := ws[i].(scored := true)] else ws
  }

  /** Number of walls already scored. */
  function CountScored(ws: seq<WallState>): nat
  {
    if ws == [] then 0 else (if ws[0].scored then 1 else 0) + CountScored(ws[1..])
  }

  lemma {:induction false} CountScoredMark(ws: seq<WallState>, i: nat)
    requires i < |ws| && !ws[i].scored
    ensures CountScored(ws[i := ws[i].(scored := true)]) == CountScored(ws) + 1
  {
    if i > 0 {
      CountScoredMark(ws[1..], i - 1);
      assert ws[i := ws[i].(scored := true)][1..] == ws[1..][i - 1 := ws[i].(scored := true)];
    }
  }

  /** The scan marks at most one wall: a wall already scored is never scored
      again, and the number of scored walls grows by one exactly when there
      was a scorable wall. */
  lemma ScoringMarksAtMostOne(gx: real, ws: seq<WallState>)
    ensures |ScoredAfter(gx, ws)| == |ws|
    ensures forall j :: 0 <= j < |ws| && j != FirstScorable(gx, ws) ==> ScoredAfter(gx, ws)[j] == ws[j]
    ensures forall j :: 0 <= j < |ws| && ws[j].scored ==> ScoredAfter(gx, ws)[j] == ws[j]
    ensures forall j :: 0 <= j < |ws| ==> ScoredAfter(gx, ws)[j].(scored := ws[j].scored) == ws[j]
    ensures CountScored(ScoredAfter(gx, ws)) == CountScored(ws) + (if FirstScorable(gx, ws) < |ws| then 1 else 0)
  {
    var i := FirstScorable(gx, ws);
    if i < |ws| {
      CountScoredMark(ws, i);
    }
  }

  /** Scoring moves nothing, so the layout is kept. */
  lemma ScoredAfterLayout(gx: real, ws: seq<WallState>, canvasWidth: real, score: int)
    requires Layout(ws, canvasWidth, score)
    ensures Layout(ScoredAfter(gx, ws), canvasWidth, score)
  {
    ScoringMarksAtMostOne(gx, ws);
  }

  // ---------------------------------------------------------------------
  // The engine

  /** The physics engine; it holds only the field geometry. */
  class Physics {
    const canvasWidth: real
    const canvasHeight: real
    const groundY: real

    constructor (canvasWidth: real, canvasHeight: real)
      ensures this.canvasWidth == canvasWidth && this.canvasHeight == canvasHeight
      ensures groundY == canvasHeight - GROUND_MARGIN
    {
      this.canvasWidth := canvasWidth;
      this.canvasHeight := canvasHeight;
      groundY := canvasHeight - GROUND_MARGIN;
    }

    /** One tick of the character, in place. */
    method UpdateGhosty(ghosty: Ghosty, dt: real)
      modifies ghosty
      ensures ghosty.View() == GhostyAfter(old(ghosty.View()), dt)
    {
      ghosty.velocity := ghosty.velocity + GRAVITY * dt;
      ghosty.y := ghosty.y + ghosty.velocity * dt;
      ghosty.rotation := RotationFor(ghosty.velocity);
      if ghosty.flapTime > 0.0 {
        ghosty.flapTime := ghosty.flapTime - dt;
      }
    }

    /** The jump impulse, in place. */
    method Jump(ghosty: Ghosty)
      modifies ghosty
      ensures ghosty.View() == GhostyAfterJump(old(ghosty.View()))
    {
      ghosty.velocity := JUMP_VELOCITY;
      ghosty.flapTime := FLAP_DURATION;
    }

    /** Moves every wall object left in place, then returns a new list of the
        surviving objects, with a fresh wall appended when one is needed. */
    method UpdateWalls(walls: seq<Wall>, dt: real, score: int, r: real) returns (filtered: seq<Wall>)
      requires Distinct(walls)
      requires 0.0 <= r < 1.0
      modifies walls
      ensures Views(walls) == Scrolled(old(Views(walls)), dt)
      ensures Views(filtered) == WallsAfter(old(Views(walls)), dt, score, r, canvasWidth, groundY)
      ensures Distinct(filtered)
      ensures forall w :: w in filtered ==> w in walls || fresh(w)
    {
      ScrollWalls(walls, dt);
      filtered := KeepOnScreen(walls);
      filtered := SpawnWall(filtered, score, r);
    }

    /** The spawn step of updateWalls: a new wall object appended when the
        list is empty or its last wall has moved far enough left. */
    method SpawnWall(kept: seq<Wall>, score: int, r: real) returns (out: seq<Wall>)
      requires Distinct(kept)
      requires 0.0 <= r < 1.0
      ensures Views(out) == if NeedsWall(Views(kept), canvasWidth) then Views(kept) + [CreateWall(score, r, canvasWidth, groundY)] else Views(kept)
      ensures Distinct(out)
      ensures forall w :: w in out ==> w in kept || fresh(w)
    {
      out := kept;
      if |kept| == 0 || kept[|kept| - 1].x < canvasWidth - WALL_SPACING {
        var w := new Wall(CreateWall(score, r, canvasWidth, groundY));
        ViewsSnoc(kept, w);
        DistinctSnoc(kept, w);
        out := kept + [w];
      }
    }

    /** The scroll step of updateWalls: every wall object moved left in place. */
    method ScrollWalls(walls: seq<Wall>, dt: real)
      requires Distinct(walls)
      modifies walls
      ensures Views(walls) == Scrolled(old(Views(walls)), dt)
    {
      ghost var before := Views(walls);
      var i := 0;
      while i < |walls|
        invariant 0 <= i <= |walls|
        invariant forall k :: 0 <= k < i ==> walls[k].View() == before[k].(x := before[k].x - SCROLL_SPEED * dt)
        invariant forall k :: i <= k < |walls| ==> walls[k].View() == before[k]
      {
        walls[i].x := walls[i].x - SCROLL_SPEED * dt;
        i := i + 1;
      }
    }

    /** The cull step of updateWalls: a new list of the wall objects still on
        screen, in their order; no object is changed. */
    method KeepOnScreen(walls: seq<Wall>) returns (kept: seq<Wall>)
      requires Distinct(walls)
      ensures Views(kept) == Survivors(Views(walls))
      ensures Distinct(kept)
      ensures forall w :: w in kept ==> w in walls
    {
      ghost var views := Views(walls);
      kept := [];
      var i := 0;
      while i < |walls|
        invariant 0 <= i <= |walls|
        invariant Views(kept) == Survivors(views[..i])
        invariant Distinct(kept)
        invariant forall w :: w in kept ==> w in walls[..i]
      {
        kept := KeepNext(walls, views, kept, i);
        i := i + 1;
      }
      assert views[..|walls|] == views && walls[..|walls|] == walls;
    }

    /** The body of the cull loop: the wall object at index i is appended
        when it is on screen. */
    method KeepNext(walls: seq<Wall>, ghost views: seq<WallState>, kept: seq<Wall>, i: nat) returns (next: seq<Wall>)
      requires Distinct(walls) && views == Views(walls) && i < |walls|
      requires Views(kept) == Survivors(views[..i]) && Distinct(kept)
      requires forall w :: w in kept ==> w in walls[..i]
      ensures Views(next) == Survivors(views[..i + 1]) && Distinct(next)
      ensures forall w :: w in next ==> w in walls[..i + 1]
    {
      KeepStep(walls, views, kept, i);
      if walls[i].x + WALL_WIDTH > 0.0 {
        next := kept + [walls[i]];
      } else {
        next := kept;
      }
    }

    /** One step of the cull loop, by the wall object at index i: the list
        with that object appended when it is on screen keeps the loop's
        invariants one index further. */
    lemma KeepStep(walls: seq<Wall>, views: seq<WallState>, kept: seq<Wall>, i: nat)
      requires Distinct(walls) && views == Views(walls) && i < |walls|
      requires Views(kept) == Survivors(views[..i]) && Distinct(kept)
      requires forall w :: w in kept ==> w in walls[..i]
      ensures var next := if OnScreen(walls[i].View()) then kept + [walls[i]] else kept;
        Views(next) == Survivors(views[..i + 1]) && Distinct(next) &&
        forall w :: w in next ==> w in walls[..i + 1]
    {
      SurvivorsSnoc(views, i);
      ViewsSnoc(kept, walls[i]);
      assert walls[..i + 1] == walls[..i] + [walls[i]];
      assert walls[i] !in kept;
    }

    /** The collision scan: ground, then ceiling, then each wall in order. */
    method CheckCollisions(ghosty: Ghosty, walls: seq<Wall>) returns (hit: bool)
      ensures hit == Collides(ghosty.View(), Views(walls), groundY)
    {
      if ghosty.y + ghosty.height >= groundY {
        return true;
      }
      if ghosty.y <= 0.0 {
        return true;
      }
      var i := 0;
      while i < |walls|
        invariant 0 <= i <= |walls|
        invariant forall k :: 0 <= k < i ==> !CheckWallCollision(ghosty.View(), walls[k].View())
      {
        if CheckWallCollision(ghosty.View(), walls[i].View()) {
          assert Views(walls)[i] == walls[i].View();
          return true;
        }
        i := i + 1;
      }
      return false;
    }

    /** The scoring scan: marks the first scorable wall in place and stops. */
    method CheckScoring(ghosty: Ghosty, walls: seq<Wall>) returns (scored: bool)
      requires Distinct(walls)
      modifies walls
      ensures scored <==> FirstScorable(ghosty.x, old(Views(walls))) < |walls|
      ensures Views(walls) == ScoredAfter(ghosty.x, old(Views(walls)))
      ensures ghosty.View() == old(ghosty.View())
    {
      ghost var before := Views(walls);
      var i := 0;
      while i < |walls|
        invariant 0 <= i <= |walls|
        invariant forall k :: 0 <= k < i ==> !Scorable(ghosty.x, before[k])
        invariant forall k :: 0 <= k < |walls| ==> walls[k].View() == before[k]
      {
        if !walls[i].scored && ghosty.x > walls[i].x + walls[i].width {
          walls[i].scored := true;
          assert FirstScorable(ghosty.x, before) == i;
          assert Views(walls) == before[i := before[i].(scored := true)];
          return true;
        }
        i := i + 1;
      }
      assert Views(walls) == before;
      return false;
    }
  }
}
