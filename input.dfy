/**
 * The input manager: the space bar, debounced against auto-repeat through
 * the spacePressed flag, and touch and click, which are not debounced; each
 * accepted press is dispatched by the game's phase to start, jump or
 * restart. Keyboard events are reduced to their key code.
 */
module InputHandling {
  import opened PhysicsEngine
  import opened GameEngine

  /** The key code of the space bar. */
  const SPACE: string := "Space"

  /** handleJump on the game's value: start on the start screen, jump while
      playing, restart after a game over, nothing while floating. */
  function Press(v: GameView): GameView
  {
    match v.state
    case Start => Started(v)
    case Playing => Jumped(v)
    case GameOver => Restarted(v)
    case Floating => v
  }

  /** The value of an InputManager together with its game. */
  datatype InputView = InputView(spacePressed: bool, game: GameView)

  /** handleKeyDown: a Space press dispatches only when Space is not held. */
  function KeyDown(iv: InputView, code: string): InputView
  {
    if code == SPACE && !iv.spacePressed then InputView(true, Press(iv.game)) else iv
  }

  /** handleKeyUp: releasing Space re-arms it. */
  function KeyUp(iv: InputView, code: string): InputView
  {
    if code == SPACE then iv.(spacePressed := false) else iv
  }

  /** handleTouch and handleClick: one press each, whatever the key state. */
  function Tapped(iv: InputView): InputView
  {
    iv.(game := Press(iv.game))
  }

  /** A key held down: n keydown events of the same code. */
  function KeyDowns(iv: InputView, code: string, n: nat): InputView
  {
    if n == 0 then iv else KeyDown(KeyDowns(iv, code, n - 1), code)
  }

  // ---------------------------------------------------------------------
  // What the handlers promise

  /** The dispatch by phase: from START the game floats with a fresh score;
      while PLAYING the character gets the jump impulse and nothing else
      changes; after GAME_OVER the start screen returns with the scores
      kept; while FLOATING nothing happens. */
  lemma PressDispatch(v: GameView)
    ensures v.state == Start ==> Press(v).state == Floating && Press(v).score == 0 && Press(v).running
    ensures v.state == Playing ==>
      Press(v).ghosty.velocity == JUMP_VELOCITY && Press(v).(ghosty := v.ghosty) == v
    ensures v.state == GameOver ==> Press(v).state == Start && Press(v).(state := GameOver) == v
    ensures v.state == Floating ==> Press(v) == v
    ensures Press(v).highScore == v.highScore
  {
  }

  /** A press keeps the game consistent. */
  lemma PressConsistent(v: GameView, canvasWidth: real)
    requires Consistent(v, canvasWidth)
    ensures Consistent(Press(v), canvasWidth)
  {
    match v.state
    case Start => StartedConsistent(v, canvasWidth);
    case Playing => JumpedConsistent(v, canvasWidth);
    case GameOver => RestartedConsistent(v, canvasWidth);
    case Floating =>
  }

  /** Other keys change nothing; a Space keydown with Space not held sets
      the flag and dispatches exactly one press; with Space held it does
      nothing; a Space keyup only clears the flag. */
  lemma KeyHandlers(iv: InputView, code: string)
    ensures code != SPACE ==> KeyDown(iv, code) == iv && KeyUp(iv, code) == iv
    ensures code == SPACE && !iv.spacePressed ==> KeyDown(iv, code) == InputView(true, Press(iv.game))
    ensures code == SPACE && iv.spacePressed ==> KeyDown(iv, code) == iv
    ensures code == SPACE ==> !KeyUp(iv, code).spacePressed && KeyUp(iv, code).game == iv.game
  {
  }

  /** Auto-repeat is debounced: however many keydowns of Space arrive while
      the key is held, the game sees at most one press, and none at all when
      Space was already held. */
  lemma {:induction false} HeldSpaceDispatchesOnce(iv: InputView, n: nat)
    requires n >= 1
    ensures KeyDowns(iv, SPACE, n) == InputView(true, if iv.spacePressed then iv.game else Press(iv.game))
  {
    if n > 1 {
      HeldSpaceDispatchesOnce(iv, n - 1);
    }
  }

  /** Releasing Space re-arms it: the next keydown dispatches again. */
  lemma ReleaseRearms(iv: InputView)
    ensures KeyDown(KeyUp(iv, SPACE), SPACE) == InputView(true, Press(iv.game))
  {
  }

  /** Touch and click are not debounced: two taps are two presses, and they
      leave the Space flag alone. So two taps on the start screen start the
      game and are then ignored while floating, and two taps while playing
      give two jumps. */
  lemma TapsAreNotDebounced(iv: InputView)
    ensures Tapped(Tapped(iv)) == InputView(iv.spacePressed, Press(Press(iv.game)))
    ensures iv.game.state == Start ==> Tapped(Tapped(iv)).game == Started(iv.game)
    ensures iv.game.state == Playing ==> Tapped(Tapped(iv)).game == Jumped(Jumped(iv.game))
  {
  }

  // ---------------------------------------------------------------------
  // The manager object

  class InputManager {
    const game: Game
    var spacePressed: bool

    ghost function View(): InputView
      reads this, game, game.ghosty, game.walls
    {
      InputView(spacePressed, game.View())
    }

    constructor (game: Game)
      ensures this.game == game && !spacePressed
    {
      this.game := game;
      spacePressed := false;
    }

    method HandleKeyDown(code: string)
      requires game.Valid()
      modifies this, game, game.ghosty
      ensures game.Valid()
      ensures View() == KeyDown(old(View()), code)
    {
      if code == SPACE {
        if !spacePressed {
          spacePressed := true;
          HandleJump();
        }
      }
    }

    method HandleKeyUp(code: string)
      modifies this
      ensures View() == KeyUp(old(View()), code)
    {
      if code == SPACE {
        spacePressed := false;
      }
    }

    method HandleTouch()
      requires game.Valid()
      modifies game, game.ghosty
      ensures game.Valid()
      ensures View() == Tapped(old(View()))
    {
      HandleJump();
    }

    method HandleClick()
      requires game.Valid()
      modifies game, game.ghosty
      ensures game.Valid()
      ensures View() == Tapped(old(View()))
    {
      HandleJump();
    }

    /** The phase dispatch of one press. */
    method HandleJump()
      requires game.Valid()
      modifies game, game.ghosty
      ensures game.Valid()
      ensures game.View() == Press(old(game.View()))
    {
      var state := game.GetState();
      if state == Phase.Start {
        game.Start();
      } else if state == Phase.Playing {
        game.Jump();
      } else if state == Phase.GameOver {
        game.Restart();
      }
    }
  }
}
