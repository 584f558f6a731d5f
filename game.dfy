/**
 * The game engine: the phase state machine
 * START -> FLOATING -> PLAYING -> GAME_OVER -> START, the score and
 * high-score bookkeeping, and the tick that orders the character step, the
 * wall step, the collision check and the scoring scan.
 *
 * Each operation is first defined on a value of the whole game (GameView);
 * the class Game below changes its fields in place and is proved to follow
 * those values. The float timer's callback is the method FloatTimerFired.
 */
module GameEngine {
  import opened PhysicsEngine

  datatype Phase = Start | Floating | Playing | GameOver

  /** The value of a Game object. */
  datatype GameView = GameView(
    state: Phase, score: nat, highScore: nat, running: bool, exploded: bool,
    ghosty: GhostyState, walls: seq<WallState>)

  /** The character as initGameState places it. */
  const INITIAL_GHOSTY: GhostyState := GhostyState(150.0, 100.0, 50.0, 50.0, 0.0, 0.0, 0.0)

  /** The game as built: on the start screen with the stored high score. */
  function Initial(highScore: nat): GameView
  {
    GameView(Start, 0, highScore, false, false, INITIAL_GHOSTY, [])
  }

  /** initGameState: a fresh character, no walls, not exploded. */
  function Reset(v: GameView): GameView
  {
    v.(ghosty := INITIAL_GHOSTY, walls := [], exploded := false)
  }

  /** start: only from START; enters FLOATING with a fresh round. */
  function Started(v: GameView): GameView
  {
    if v.state != Start then v
    else Reset(v.(state := Floating, score := 0)).(running := true)
  }

  /** The float timer's callback: FLOATING -> PLAYING, if still floating. */
  function FloatEnded(v: GameView): GameView
  {
    if v.state == Floating then v.(state := Playing) else v
  }

  /** jump: the impulse, only while PLAYING. */
  function Jumped(v: GameView): GameView
  {
    if v.state != Playing then v else v.(ghosty := GhostyAfterJump(v.ghosty))
  }

  /** restart: only GAME_OVER -> START. */
  function Restarted(v: GameView): GameView
  {
    if v.state != GameOver then v else v.(state := Start)
  }

  /** gameOver: exploded, GAME_OVER, stopped, and the high score raised to
      the score when the score beats it. */
  function Ended(v: GameView): GameView
  {
    v.(exploded := true, state := GameOver, running := false,
       highScore := if v.score > v.highScore then v.score else v.highScore)
  }

  /** The first half of a PLAYING tick: the character step, then the wall
      step (which sees the score before this tick). */
  function Advanced(v: GameView, dt: real, r: real, canvasWidth: real, groundY: real): GameView
    requires 0.0 <= r < 1.0
  {
    v.(ghosty := GhostyAfter(v.ghosty, dt), walls := WallsAfter(v.walls, dt, v.score, r, canvasWidth, groundY))
  }

  /** The second half: on a collision the game is over and nothing scores;
      otherwise the scoring scan, and one point when it marked a wall. */
  function Resolved(v: GameView, groundY: real): GameView
  {
    if Collides(v.ghosty, v.walls, groundY) then Ended(v) else Scored(v)
  }

  /** The scoring scan and one point when it marked a wall. */
  function Scored(v: GameView): GameView
  {
    var marked := FirstScorable(v.ghosty.x, v.walls) < |v.walls|;
    v.(walls := ScoredAfter(v.ghosty.x, v.walls), score := if marked then v.score + 1 else v.score)
  }

  /** update: nothing unless PLAYING; else Advanced, then Resolved. */
  function Updated(v: GameView, dt: real, r: real, canvasWidth: real, groundY: real): GameView
    requires 0.0 <= r < 1.0
  {
    if v.state != Playing then v
    else Resolved(Advanced(v, dt, r, canvasWidth, groundY), groundY)
  }

  // ---------------------------------------------------------------------
  // What each operation promises

  /** start acts only on the start screen, and then begins a fresh round:
      FLOATING, score 0, running, not exploded, no walls, the character at
      its starting place, the high score kept. */
  lemma StartFreshRound(v: GameView)
    ensures v.state != Start ==> Started(v) == v
    ensures v.state == Start ==>
      var s := Started(v);
      && s.state == Floating && s.score == 0 && s.running && !s.exploded
      && s.walls == [] && s.ghosty == INITIAL_GHOSTY && s.highScore == v.highScore
  {
  }

  /** The float timer only ends a float still in progress, and only changes
      the phase. */
  lemma FloatTimerOnlyWhileFloating(v: GameView)
    ensures FloatEnded(v).state == (if v.state == Floating then Playing else v.state)
    ensures FloatEnded(v).(state := v.state) == v
  {
  }

  /** jump is a no-op unless PLAYING; while playing it changes only the
      character's velocity (to JUMP_VELOCITY) and flap timer. */
  lemma JumpOnlyWhilePlaying(v: GameView)
    ensures v.state != Playing ==> Jumped(v) == v
    ensures v.state == Playing ==>
      && Jumped(v).ghosty.velocity == JUMP_VELOCITY
      && Jumped(v).ghosty.flapTime == FLAP_DURATION
      && Jumped(v).(ghosty := v.ghosty) == v
  {
  }

  /** restart is GAME_OVER -> START and a no-op in every other phase. */
  lemma RestartOnlyFromGameOver(v: GameView)
    ensures v.state != GameOver ==> Restarted(v) == v
    ensures v.state == GameOver ==> Restarted(v).state == Start && Restarted(v).(state := GameOver) == v
  {
  }

  /** gameOver: the high score becomes the larger of the high score and the
      score; the score itself is kept. */
  lemma GameOverHighScore(v: GameView)
    ensures Ended(v).state == GameOver && !Ended(v).running && Ended(v).exploded
    ensures Ended(v).score == v.score
    ensures Ended(v).highScore >= v.highScore && Ended(v).highScore >= v.score
    ensures Ended(v).highScore == v.highScore || Ended(v).highScore == v.score
  {
  }

  /** update leaves the game unchanged in every phase but PLAYING,
      FLOATING included. */
  lemma UpdateIdleUnlessPlaying(v: GameView, dt: real, r: real, canvasWidth: real, groundY: real)
    requires 0.0 <= r < 1.0
    requires v.state != Playing
    ensures Updated(v, dt, r, canvasWidth, groundY) == v
  {
  }

  /** The order of a PLAYING tick: the character moves, then the walls; if
      the moved character collides with the moved walls the game is over
      and the score is not incremented; otherwise the game keeps playing and
      the score rises by one exactly when the scan marked a wall. */
  lemma UpdateOrder(v: GameView, dt: real, r: real, canvasWidth: real, groundY: real)
    requires 0.0 <= r < 1.0
    requires v.state == Playing
    ensures var u := Updated(v, dt, r, canvasWidth, groundY);
            var g := GhostyAfter(v.ghosty, dt);
            var ws := WallsAfter(v.walls, dt, v.score, r, canvasWidth, groundY);
            && u.ghosty == g
            && (Collides(g, ws, groundY) ==> u.state == GameOver && u.score == v.score && u == Ended(v.(ghosty := g, walls := ws)))
            && (!Collides(g, ws, groundY) ==>
                  && u.state == Playing && u.running == v.running && u.highScore == v.highScore
                  && u.walls == ScoredAfter(g.x, ws)
                  && (u.score == v.score + 1 <==> FirstScorable(g.x, ws) < |ws|)
                  && (u.score == v.score || u.score == v.score + 1))
  {
  }

  /** A wall scored on an earlier tick is still scored on the next one: when
      it is still on screen after scrolling, the walls after the tick hold it,
      moved and with its flag set, so it cannot score again. */
  lemma ScoredWallStaysScored(v: GameView, dt: real, r: real, canvasWidth: real, groundY: real, w: WallState)
    requires 0.0 <= r < 1.0 && v.state == Playing
    requires w in v.walls && w.scored
    requires OnScreen(w.(x := w.x - SCROLL_SPEED * dt))
    ensures var u := Updated(v, dt, r, canvasWidth, groundY);
            && (u.state == Playing || u.state == GameOver)
            && w.(x := w.x - SCROLL_SPEED * dt) in u.walls
            && !Scorable(u.ghosty.x, w.(x := w.x - SCROLL_SPEED * dt))
  {
    var moved := w.(x := w.x - SCROLL_SPEED * dt);
    var g := GhostyAfter(v.ghosty, dt);
    var ws := WallsAfter(v.walls, dt, v.score, r, canvasWidth, groundY);
    var i :| 0 <= i < |v.walls| && v.walls[i] == w;
    WallsAfterCull(v.walls, dt, v.score, r, canvasWidth, groundY, i);
    assert moved in ws;
    UpdateOrder(v, dt, r, canvasWidth, groundY);
    if !Collides(g, ws, groundY) {
      ScoringMarksAtMostOne(g.x, ws);
      var k :| 0 <= k < |ws| && ws[k] == moved;
      assert ScoredAfter(g.x, ws)[k] == moved;
    }
  }

  // ---------------------------------------------------------------------
  // The invariant of a game

  /** What holds of every game the operations can reach: the loop runs
      exactly while floating or playing; a game over is always exploded and
      an explosion is only seen on the game-over and start screens; off the
      playing field the high score is at least the score; a float is a
      fresh round; the character keeps its column and size; and the walls
      keep their Layout. */
  ghost predicate Consistent(v: GameView, canvasWidth: real)
  {
    && (v.running <==> v.state == Floating || v.state == Playing)
    && (v.state == GameOver ==> v.exploded)
    && (v.exploded ==> v.state == GameOver || v.state == Start)
    && (v.state == Start || v.state == GameOver ==> v.highScore >= v.score)
    && (v.state == Floating ==> v.score == 0 && v.walls == [] && v.ghosty == INITIAL_GHOSTY)
    && v.ghosty.x == INITIAL_GHOSTY.x && v.ghosty.width == INITIAL_GHOSTY.width
    && v.ghosty.height == INITIAL_GHOSTY.height
    && Layout(v.walls, canvasWidth, v.score)
  }

  lemma InitialConsistent(highScore: nat, canvasWidth: real)
    ensures Consistent(Initial(highScore), canvasWidth)
  {
  }

  lemma StartedConsistent(v: GameView, canvasWidth: real)
    requires Consistent(v, canvasWidth)
    ensures Consistent(Started(v), canvasWidth)
  {
  }

  lemma FloatEndedConsistent(v: GameView, canvasWidth: real)
    requires Consistent(v, canvasWidth)
    ensures Consistent(FloatEnded(v), canvasWidth)
  {
  }

  lemma JumpedConsistent(v: GameView, canvasWidth: real)
    requires Consistent(v, canvasWidth)
    ensures Consistent(Jumped(v), canvasWidth)
  {
  }

  lemma RestartedConsistent(v: GameView, canvasWidth: real)
    requires Consistent(v, canvasWidth)
    ensures Consistent(Restarted(v), canvasWidth)
  {
  }

  /** A tick with a non-negative dt keeps the game consistent: the walls
      keep their layout (WallsAfterLayout, ScoredAfterLayout), and a point
      scored only narrows the gaps new walls may have (LayoutScoreUp). */
  lemma UpdatedConsistent(v: GameView, dt: real, r: real, canvasWidth: real, groundY: real)
    requires 0.0 <= r < 1.0 && dt >= 0.0
    requires Consistent(v, canvasWidth)
    ensures Consistent(Updated(v, dt, r, canvasWidth, groundY), canvasWidth)
  {
    if v.state == Playing {
      var g := GhostyAfter(v.ghosty, dt);
      var ws := WallsAfter(v.walls, dt, v.score, r, canvasWidth, groundY);
      WallsAfterLayout(v.walls, dt, v.score, r, canvasWidth, groundY);
      if !Collides(g, ws, groundY) {
        ScoredAfterLayout(g.x, ws, canvasWidth, v.score);
        LayoutScoreUp(ScoredAfter(g.x, ws), canvasWidth, v.score, v.score + 1);
      }
    }
  }

  // ---------------------------------------------------------------------
  // Runs of events

  /** What can happen to a game: the four commands and a frame of dt
      milliseconds (r is the random draw used if a wall spawns). */
  datatype Event = StartCmd | JumpCmd | RestartCmd | FloatTimer | Tick(dt: real, r: real)

  predicate WellFormed(e: Event)
  {
    e.Tick? ==> e.dt >= 0.0 && 0.0 <= e.r < 1.0
  }

  function Apply(v: GameView, e: Event, canvasWidth: real, groundY: real): GameView
    requires WellFormed(e)
  {
    match e
    case StartCmd => Started(v)
    case JumpCmd => Jumped(v)
    case RestartCmd => Restarted(v)
    case FloatTimer => FloatEnded(v)
    case Tick(dt, r) => Updated(v, dt, r, canvasWidth, groundY)
  }

  function Run(v: GameView, es: seq<Event>, canvasWidth: real, groundY: real): GameView
    requires forall i :: 0 <= i < |es| ==> WellFormed(es[i])
    decreases |es|
  {
    if es == [] then v else Run(Apply(v, es[0], canvasWidth, groundY), es[1..], canvasWidth, groundY)
  }

  /** A float ends only by its timer: while FLOATING every other event
      leaves the game exactly as it is, and the timer moves it to PLAYING. */
  lemma OnlyTimerEndsFloat(v: GameView, e: Event, canvasWidth: real, groundY: real)
    requires WellFormed(e)
    requires v.state == Floating
    ensures e != FloatTimer ==> Apply(v, e, canvasWidth, groundY) == v
    ensures e == FloatTimer ==> Apply(v, e, canvasWidth, groundY) == v.(state := Playing)
  {
  }

  /** Every event keeps a game consistent. */
  lemma ApplyConsistent(v: GameView, e: Event, canvasWidth: real, groundY: real)
    requires WellFormed(e)
    requires Consistent(v, canvasWidth)
    ensures Consistent(Apply(v, e, canvasWidth, groundY), canvasWidth)
  {
    match e
    case StartCmd => StartedConsistent(v, canvasWidth);
    case JumpCmd => JumpedConsistent(v, canvasWidth);
    case RestartCmd => RestartedConsistent(v, canvasWidth);
    case FloatTimer => FloatEndedConsistent(v, canvasWidth);
    case Tick(dt, r) => UpdatedConsistent(v, dt, r, canvasWidth, groundY);
  }

  /** Hence every game reached from a built game is consistent. */
  lemma {:induction false} RunConsistent(v: GameView, es: seq<Event>, canvasWidth: real, groundY: real)
    requires forall i :: 0 <= i < |es| ==> WellFormed(es[i])
    requires Consistent(v, canvasWidth)
    ensures Consistent(Run(v, es, canvasWidth, groundY), canvasWidth)
    decreases |es|
  {
    if es != [] {
      ApplyConsistent(v, es[0], canvasWidth, groundY);
      RunConsistent(Apply(v, es[0], canvasWidth, groundY), es[1..], canvasWidth, groundY);
    }
  }

  /** One event changes the score by at most one point upwards, and only
      start lowers it, to 0, from the start screen. The high score never
      falls. */
  lemma ApplyScore(v: GameView, e: Event, canvasWidth: real, groundY: real)
    requires WellFormed(e)
    ensures var u := Apply(v, e, canvasWidth, groundY);
            && u.highScore >= v.highScore
            && u.score <= v.score + 1
            && (u.score < v.score ==> e == StartCmd && v.state == Start && u.score == 0)
  {
  }

  /** Within a session, i.e. a run of events without start, the score never
      decreases and grows by at most one point per event; the high score
      never decreases in any run. */
  lemma {:induction false} RunScore(v: GameView, es: seq<Event>, canvasWidth: real, groundY: real)
    requires forall i :: 0 <= i < |es| ==> WellFormed(es[i])
    ensures Run(v, es, canvasWidth, groundY).highScore >= v.highScore
    ensures StartCmd !in es ==> v.score <= Run(v, es, canvasWidth, groundY).score <= v.score + |es|
    decreases |es|
  {
    if es != [] {
      var u := Apply(v, es[0], canvasWidth, groundY);
      ApplyScore(v, es[0], canvasWidth, groundY);
      RunScore(u, es[1..], canvasWidth, groundY);
      if StartCmd !in es {
        assert es[0] != StartCmd;
        assert forall e :: e in es[1..] ==> e in es;
      }
    }
  }

  // ---------------------------------------------------------------------
  // A round left alone ends on the ground; a scored wall stays scored

  /** Events that stay within one round: frames, jumps and the float timer,
      but neither start nor restart. */
  predicate InRound(es: seq<Event>)
  {
    forall i :: 0 <= i < |es| ==> WellFormed(es[i]) && !es[i].StartCmd? && !es[i].RestartCmd?
  }

  /** Random draws as Math.random gives them: each in [0, 1). */
  predicate Draws(rs: seq<real>)
  {
    forall i :: 0 <= i < |rs| ==> 0.0 <= rs[i] < 1.0
  }

  /** Frames of the same length dt with no input in between; frame i spawns
      its wall, if any, with the draw rs[i]. */
  function Frames(dt: real, rs: seq<real>): (es: seq<Event>)
    ensures |es| == |rs| && forall i :: 0 <= i < |rs| ==> es[i] == Tick(dt, rs[i])
  {
    seq(|rs|, i requires 0 <= i < |rs| => Tick(dt, rs[i]))
  }

  /** Frames with valid draws and dt >= 0 stay within a round, and so do
      their later frames. */
  lemma FramesInRound(dt: real, rs: seq<real>)
    requires dt >= 0.0 && Draws(rs)
    ensures InRound(Frames(dt, rs))
    ensures rs != [] ==> Frames(dt, rs)[1..] == Frames(dt, rs[1..]) && Draws(rs[1..])
  {
    if rs != [] {
      assert Frames(dt, rs)[1..] == Frames(dt, rs[1..]);
    }
  }

  /** Once the game is over, nothing within the round changes it. */
  lemma {:induction false} GameOverAbsorbs(v: GameView, es: seq<Event>, canvasWidth: real, groundY: real)
    requires v.state == GameOver && InRound(es)
    ensures Run(v, es, canvasWidth, groundY) == v
    decreases |es|
  {
    if es != [] {
      assert Apply(v, es[0], canvasWidth, groundY) == v;
      assert InRound(es[1..]);
      GameOverAbsorbs(v, es[1..], canvasWidth, groundY);
    }
  }

  /** One more tick of the character is the first tick followed by the rest. */
  lemma {:induction false} TicksShift(g: GhostyState, dt: real, m: nat)
    ensures Ticks(GhostyAfter(g, dt), dt, m) == Ticks(g, dt, m + 1)
  {
    if m > 0 {
      TicksShift(g, dt, m - 1);
    }
  }

  /** One frame with no input: a PLAYING game either ends, or keeps playing
      with the character one tick further and clear of ground and ceiling. */
  lemma FrameStep(v: GameView, dt: real, r: real, canvasWidth: real, groundY: real)
    requires v.state == Playing && 0.0 <= r < 1.0
    ensures var u := Updated(v, dt, r, canvasWidth, groundY);
            || u.state == GameOver
            || (u.state == Playing && u.ghosty == GhostyAfter(v.ghosty, dt) && !HitsGroundOrCeiling(u.ghosty, groundY))
  {
    UpdateOrder(v, dt, r, canvasWidth, groundY);
  }

  /** While frames pass with no input, whatever the draws, a PLAYING game
      either ends or keeps playing with the character exactly where the ticks
      alone take it, and then that character touches neither the ground nor
      the ceiling. */
  /** The first of a run of frames, then the rest. */
  lemma FirstFrame(v: GameView, dt: real, rs: seq<real>, canvasWidth: real, groundY: real)
    requires dt >= 0.0 && Draws(rs) && rs != []
    ensures Draws(rs[1..])
    ensures Run(v, Frames(dt, rs), canvasWidth, groundY)
            == Run(Updated(v, dt, rs[0], canvasWidth, groundY), Frames(dt, rs[1..]), canvasWidth, groundY)
  {
    FramesInRound(dt, rs);
  }

  lemma {:induction false} FramesFollowTicks(v: GameView, dt: real, rs: seq<real>, canvasWidth: real, groundY: real)
    requires v.state == Playing && dt >= 0.0 && Draws(rs)
    ensures var u := Run(v, Frames(dt, rs), canvasWidth, groundY);
            || u.state == GameOver
            || (&& u.state == Playing && u.ghosty == Ticks(v.ghosty, dt, |rs|)
                && (|rs| > 0 ==> !HitsGroundOrCeiling(u.ghosty, groundY)))
    decreases |rs|
  {
    if rs != [] {
      var rest := rs[1..];
      var u1 := Updated(v, dt, rs[0], canvasWidth, groundY);
      FirstFrame(v, dt, rs, canvasWidth, groundY);
      FrameStep(v, dt, rs[0], canvasWidth, groundY);
      if u1.state == GameOver {
        FramesInRound(dt, rest);
        GameOverAbsorbs(u1, Frames(dt, rest), canvasWidth, groundY);
      } else {
        assert u1.state == Playing && u1.ghosty == GhostyAfter(v.ghosty, dt);
        FramesFollowTicks(u1, dt, rest, canvasWidth, groundY);
        TicksShift(v.ghosty, dt, |rest|);
      }
    }
  }

  /** A PLAYING round whose character is at rest or falling, left without
      input for enough frames of a fixed positive length, ends in GAME_OVER,
      whatever the random draws of the walls spawned meanwhile. */
  lemma NoInputEndsRound(v: GameView, dt: real, canvasWidth: real, groundY: real) returns (n: nat)
    requires v.state == Playing && v.ghosty.velocity >= 0.0 && dt > 0.0
    ensures n > 0
    ensures forall rs :: |rs| == n && Draws(rs) ==> Run(v, Frames(dt, rs), canvasWidth, groundY).state == GameOver
  {
    var g := v.ghosty;
    var m := NoJumpReachesGround(g, dt, groundY);
    if m == 0 {
      n := 1;
      PositiveProduct(GRAVITY, dt);
      NonNegativeProduct(g.velocity + GRAVITY * dt, dt);
      assert Ticks(g, dt, 1) == GhostyAfter(g, dt);
    } else {
      n := m;
    }
    assert HitsGroundOrCeiling(Ticks(g, dt, n), groundY);
    forall rs | |rs| == n && Draws(rs)
      ensures Run(v, Frames(dt, rs), canvasWidth, groundY).state == GameOver
    {
      FramesFollowTicks(v, dt, rs, canvasWidth, groundY);
    }
  }

  /** Where an event leaves a wall at x: a frame scrolls it left by
      SCROLL_SPEED * dt, and no other event moves it. */
  function StepX(x: real, e: Event): real
  {
    if e.Tick? then x - SCROLL_SPEED * e.dt else x
  }

  /** Where a run of events leaves a wall at x. */
  function Drifted(x: real, es: seq<Event>): real
    decreases |es|
  {
    if es == [] then x else Drifted(StepX(x, es[0]), es[1..])
  }

  /** The total length of the frames in a run. */
  function TickTime(es: seq<Event>): real
    decreases |es|
  {
    if es == [] then 0.0 else (if es[0].Tick? then es[0].dt else 0.0) + TickTime(es[1..])
  }

  /** A run moves a wall left by SCROLL_SPEED times its total frame time. */
  lemma {:induction false} DriftedClosedForm(x: real, es: seq<Event>)
    ensures Drifted(x, es) == x - SCROLL_SPEED * TickTime(es)
    decreases |es|
  {
    if es != [] {
      DriftedClosedForm(StepX(x, es[0]), es[1..]);
    }
  }

  /** Within a round walls only move left. */
  lemma {:induction false} DriftedNotRight(x: real, es: seq<Event>)
    requires InRound(es)
    ensures Drifted(x, es) <= x
    decreases |es|
  {
    if es != [] {
      if es[0].Tick? {
        NonNegativeProduct(SCROLL_SPEED, es[0].dt);
      }
      assert InRound(es[1..]);
      DriftedNotRight(StepX(x, es[0]), es[1..]);
    }
  }

  /** The first event of a run, for a scored wall that is on screen at the
      end: either the game is over for good, or it is still PLAYING with the
      wall, moved by that event and still scored, in the list and on screen
      after the rest of the run. */
  lemma ScoredWallFirstEvent(v: GameView, w: WallState, es: seq<Event>, canvasWidth: real, groundY: real)
    requires v.state == Playing && InRound(es) && es != []
    requires w in v.walls && w.scored
    requires OnScreen(w.(x := Drifted(w.x, es)))
    ensures var v1 := Apply(v, es[0], canvasWidth, groundY);
            var w1 := w.(x := StepX(w.x, es[0]));
            && InRound(es[1..])
            && Run(v, es, canvasWidth, groundY) == Run(v1, es[1..], canvasWidth, groundY)
            && w1.(x := Drifted(w1.x, es[1..])) == w.(x := Drifted(w.x, es))
            && (v1.state == GameOver ==> Run(v1, es[1..], canvasWidth, groundY).state == GameOver)
            && (v1.state != GameOver ==>
                  && v1.state == Playing && w1 in v1.walls && w1.scored
                  && OnScreen(w1.(x := Drifted(w1.x, es[1..]))))
  {
    var e := es[0];
    var v1 := Apply(v, e, canvasWidth, groundY);
    assert InRound(es[1..]);
    DriftedNotRight(StepX(w.x, e), es[1..]);
    match e
    case Tick(dt, r) =>
      ScoredWallStaysScored(v, dt, r, canvasWidth, groundY, w);
      if v1.state == GameOver {
        GameOverAbsorbs(v1, es[1..], canvasWidth, groundY);
      }
    case JumpCmd =>
      assert w.(x := StepX(w.x, e)) == w;
    case FloatTimer =>
      assert w.(x := StepX(w.x, e)) == w;
  }

  /** Within a round (frames of any lengths and draws, jumps, the float
      timer), a scored wall that is still on screen at the end is in the
      walls, moved left by SCROLL_SPEED times the frame time and still
      scored, unless the game is over; so no wall scores twice. */
  lemma {:induction false} ScoredWallStaysInRound(v: GameView, w: WallState, es: seq<Event>, canvasWidth: real, groundY: real)
    requires v.state == Playing && InRound(es)
    requires w in v.walls && w.scored
    requires OnScreen(w.(x := Drifted(w.x, es)))
    ensures var u := Run(v, es, canvasWidth, groundY);
            u.state == GameOver || (u.state == Playing && w.(x := Drifted(w.x, es)) in u.walls)
    decreases |es|
  {
    if es == [] {
      assert w.(x := Drifted(w.x, es)) == w;
    } else {
      var v1 := Apply(v, es[0], canvasWidth, groundY);
      var w1 := w.(x := StepX(w.x, es[0]));
      ScoredWallFirstEvent(v, w, es, canvasWidth, groundY);
      if v1.state != GameOver {
        ScoredWallStaysInRound(v1, w1, es[1..], canvasWidth, groundY);
      }
    }
  }

  /** The frames-only case: after frames of length dt, whatever the draws,
      the wall has moved left by exactly |rs| * SCROLL_SPEED * dt. */
  lemma FramesDrift(x: real, dt: real, rs: seq<real>)
    ensures Drifted(x, Frames(dt, rs)) == x - SCROLL_SPEED * ((|rs| as real) * dt)
  {
    DriftedClosedForm(x, Frames(dt, rs));
    FramesTickTime(dt, rs);
  }

  /** Frames of length dt add up to |rs| * dt. */
  lemma {:induction false} FramesTickTime(dt: real, rs: seq<real>)
    ensures TickTime(Frames(dt, rs)) == (|rs| as real) * dt
    decreases |rs|
  {
    if rs != [] {
      assert Frames(dt, rs)[1..] == Frames(dt, rs[1..]);
      FramesTickTime(dt, rs[1..]);
    }
  }

  // ---------------------------------------------------------------------
  // The engine object

  /** The game; its methods update its fields in place. */
  class Game {
    const physics: Physics
    var state: Phase
    var score: nat
    var highScore: nat
    var running: bool
    var exploded: bool
    var ghosty: Ghosty
    var walls: seq<Wall>

    ghost function View(): GameView
      reads this, ghosty, walls
    {
      GameView(state, score, highScore, running, exploded, ghosty.View(), Views(walls))
    }

    ghost predicate Valid()
      reads this, ghosty, walls
    {
      Distinct(walls) && Consistent(View(), physics.canvasWidth)
    }

    /** A game on the start screen; the stored high score is a parameter. */
    constructor (canvasWidth: real, canvasHeight: real, storedHighScore: nat)
      ensures physics.canvasWidth == canvasWidth && physics.groundY == canvasHeight - GROUND_MARGIN
      ensures View() == Initial(storedHighScore)
      ensures Valid()
    {
      physics := new Physics(canvasWidth, canvasHeight);
      state := Phase.Start;
      score := 0;
      highScore := storedHighScore;
      running := false;
      ghosty := new Ghosty(INITIAL_GHOSTY);
      walls := [];
      exploded := false;
      new;
      InitialConsistent(storedHighScore, canvasWidth);
    }

    /** A fresh character object, no walls, not exploded. */
    method InitGameState()
      modifies this
      ensures fresh(ghosty)
      ensures View() == Reset(old(View()))
    {
      ghosty := new Ghosty(INITIAL_GHOSTY);
      walls := [];
      exploded := false;
    }

    method Start()
      requires Valid()
      modifies this
      ensures View() == Started(old(View()))
      ensures Valid()
    {
      if state != Phase.Start {
        return;
      }
      StartedConsistent(View(), physics.canvasWidth);
      state := Floating;
      score := 0;
      InitGameState();
      running := true;
    }

    /** The callback of the two-second float timer. */
    method FloatTimerFired()
      requires Valid()
      modifies this
      ensures View() == FloatEnded(old(View()))
      ensures Valid()
    {
      FloatEndedConsistent(View(), physics.canvasWidth);
      if state == Floating {
        state := Playing;
      }
    }

    method Jump()
      requires Valid()
      modifies ghosty
      ensures View() == Jumped(old(View()))
      ensures Valid()
    {
      JumpedConsistent(View(), physics.canvasWidth);
      if state != Playing {
        return;
      }
      physics.Jump(ghosty);
    }

    method Restart()
      requires Valid()
      modifies this
      ensures View() == Restarted(old(View()))
      ensures Valid()
    {
      RestartedConsistent(View(), physics.canvasWidth);
      if state != Phase.GameOver {
        return;
      }
      state := Phase.Start;
    }

    method GameOver()
      modifies this
      ensures View() == Ended(old(View()))
    {
      exploded := true;
      state := Phase.GameOver;
      running := false;
      if score > highScore {
        highScore := score;
      }
    }

    /** One frame of dt milliseconds; r is the random draw for a new wall. */
    method Update(dt: real, r: real)
      requires Valid()
      requires dt >= 0.0 && 0.0 <= r < 1.0
      modifies this, ghosty, set w | w in walls
      ensures View() == Updated(old(View()), dt, r, physics.canvasWidth, physics.groundY)
      ensures Valid()
    {
      UpdatedConsistent(View(), dt, r, physics.canvasWidth, physics.groundY);
      if state == Floating {
        return;
      }
      if state != Playing {
        return;
      }
      Advance(dt, r);
      Resolve();
    }

    /** The character step and the wall step of update. */
    method Advance(dt: real, r: real)
      requires Distinct(walls)
      requires 0.0 <= r < 1.0
      modifies this, ghosty, set w | w in walls
      ensures ghosty == old(ghosty)
      ensures View() == Advanced(old(View()), dt, r, physics.canvasWidth, physics.groundY)
      ensures Distinct(walls)
      ensures forall w :: w in walls ==> w in old(walls) || fresh(w)
    {
      ghost var v := View();
      label Before:
      physics.UpdateGhosty(ghosty, dt);
      ViewsUnchanged@Before(walls);
      assert Views(walls) == v.walls;
      walls := physics.UpdateWalls(walls, dt, score, r);
      assert ghosty.View() == GhostyAfter(v.ghosty, dt);
      assert state == v.state && score == v.score && highScore == v.highScore;
      assert running == v.running && exploded == v.exploded;
    }

    /** The collision check, then either gameOver or the scoring scan. */
    method Resolve()
      requires Distinct(walls)
      modifies this, set w | w in walls
      ensures View() == Resolved(old(View()), physics.groundY)
    {
      var hit := physics.CheckCollisions(ghosty, walls);
      if hit {
        GameOver();
        return;
      }
      Score();
    }

    /** The scoring scan, then one point when it marked a wall. */
    method Score()
      requires Distinct(walls)
      modifies this, set w | w in walls
      ensures View() == Scored(old(View()))
    {
      ghost var v := View();
      var scored := physics.CheckScoring(ghosty, walls);
      ghost var marked := Views(walls);
      label Marked:
      if scored {
        score := score + 1;
      }
      ViewsUnchanged@Marked(walls);
      assert Views(walls) == marked;
      assert ghosty.View() == v.ghosty;
      assert state == v.state && highScore == v.highScore && running == v.running && exploded == v.exploded;
    }

    method GetState() returns (s: Phase)
      ensures s == state
    {
      return state;
    }
  }
}
