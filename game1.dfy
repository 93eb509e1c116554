/**
 * The driver's lockstep loop: the screen hand-off from the lobby to the game, and
 * the in-game tick that buffers the local input, sends the input window, and
 * advances the deterministic game one step once every peer's input has arrived.
 *
 * The keyboard is four booleans, the floating-point step timer is one boolean
 * ("at least one step time has passed"), and the net peer's poll is represented
 * by the phase it reports (`netState`) and by whatever it did to the shared
 * messenger before the tick.
 */
module Lockstep {
  import opened Protocol
  import opened InputStates
  import opened Messaging
  import opened Simulation
  import Peering

  /** Game1's own screen; StartingGame only gives the host visual feedback. */
  datatype Screen = MainMenu | Lobby | StartingGame | InGame

  /** The screen after a lobby tick in which the net peer reported `netState`. */
  function AfterLobby(netState: NetState, isHost: bool, spacePressed: bool): (r: Screen)
    ensures r == Screen.InGame <==> netState == NetState.InGame
    ensures r == Screen.StartingGame <==> netState != NetState.InGame && isHost && spacePressed
    ensures r == Screen.Lobby <==> netState != NetState.InGame && !(isHost && spacePressed)
  {
    if netState == NetState.InGame then Screen.InGame
    else if isHost && spacePressed then Screen.StartingGame
    else Screen.Lobby
  }

  /** The screen after a starting-game tick: only a reported InGame moves it. */
  function AfterStartingGame(netState: NetState): (r: Screen)
    ensures r == Screen.InGame <==> netState == NetState.InGame
    ensures r != Screen.InGame ==> r == Screen.StartingGame
  {
    if netState == NetState.InGame then Screen.InGame else Screen.StartingGame
  }

  /** One frame's inputs to the hand-off: the phase the net peer reports and the space key. */
  datatype Tick = Tick(netState: NetState, spacePressed: bool)

  /** The screen after one frame of Update: dispatch on the screen; the in-game update keeps it. */
  function AfterTick(screen: Screen, isHost: bool, t: Tick): (r: Screen)
    requires screen != Screen.MainMenu
    ensures r != Screen.MainMenu
    ensures screen == Screen.InGame ==> r == Screen.InGame
  {
    if screen == Screen.Lobby then AfterLobby(t.netState, isHost, t.spacePressed)
    else if screen == Screen.StartingGame then AfterStartingGame(t.netState)
    else Screen.InGame
  }

  /** The screen after the frames of `ticks`, in order. */
  function ScreenAfter(screen: Screen, isHost: bool, ticks: seq<Tick>): Screen
    requires screen != Screen.MainMenu
    decreases |ticks|
  {
    if |ticks| == 0 then screen else ScreenAfter(AfterTick(screen, isHost, ticks[0]), isHost, ticks[1..])
  }

  /** Some frame of `ticks` saw the net peer report InGame. */
  predicate SomeTickInGame(ticks: seq<Tick>)
  {
    exists i | 0 <= i < |ticks| :: ticks[i].netState == NetState.InGame
  }

  /** Once in the game, the screen stays there. */
  lemma {:induction false} InGameStays(isHost: bool, ticks: seq<Tick>)
    ensures ScreenAfter(Screen.InGame, isHost, ticks) == Screen.InGame
    decreases |ticks|
  {
    if |ticks| > 0 {
      InGameStays(isHost, ticks[1..]);
    }
  }

  /**
   * From the lobby or the starting-game screen, the game screen is reached exactly
   * when some frame's poll reported NetState.InGame; pressing space never gets there.
   */
  lemma {:induction false} ScreenAfterHandOff(screen: Screen, isHost: bool, ticks: seq<Tick>)
    requires screen == Screen.Lobby || screen == Screen.StartingGame
    ensures ScreenAfter(screen, isHost, ticks) == Screen.InGame <==> SomeTickInGame(ticks)
    decreases |ticks|
  {
    if |ticks| > 0 {
      var next := AfterTick(screen, isHost, ticks[0]);
      if ticks[0].netState == NetState.InGame {
        InGameStays(isHost, ticks[1..]);
        assert ScreenAfter(screen, isHost, ticks) == Screen.InGame;
      } else {
        ScreenAfterHandOff(next, isHost, ticks[1..]);
        assert ScreenAfter(screen, isHost, ticks) == ScreenAfter(next, isHost, ticks[1..]);
        if SomeTickInGame(ticks) {
          var i :| 0 <= i < |ticks| && ticks[i].netState == NetState.InGame;
          assert ticks[1..][i - 1] == ticks[i];
        }
        if SomeTickInGame(ticks[1..]) {
          var i :| 0 <= i < |ticks[1..]| && ticks[1..][i].netState == NetState.InGame;
          assert ticks[i + 1] == ticks[1..][i];
        }
      }
    }
  }

  /**
   * A joining peer's Game1 never reaches the game screen: frame `k` reports the
   * NetPeer phase after the first `k + 1` receives, which is never InGame.
   */
  lemma ClientNeverEntersGame(ds: seq<Option<Datagram>>, ticks: seq<Tick>)
    requires |ticks| <= |ds|
    requires forall k | 0 <= k < |ticks| :: ticks[k].netState == Peering.PhaseAfter(NetState.InLobby, ds[..k + 1])
    ensures ScreenAfter(Screen.Lobby, false, ticks) != Screen.InGame
  {
    ScreenAfterHandOff(Screen.Lobby, false, ticks);
    forall k | 0 <= k < |ticks|
      ensures ticks[k].netState != NetState.InGame
    {
      Peering.PhaseAfterLobby(ds[..k + 1]);
    }
  }

  /** The axis of a pair of opposite keys: -1 for the negative key alone, 1 for the positive key alone, 0 otherwise. */
  function AxisOf(negative: bool, positive: bool): (r: Int32)
    ensures -1 <= r <= 1
    ensures r == -1 <==> negative && !positive
    ensures r == 1 <==> positive && !negative
  {
    (if negative then -1 else 0) + (if positive then 1 else 0)
  }

  /** The local input list after the append: a record is added only if the list is empty or behind `stepCount`. */
  function Buffered(buffer: seq<InputState>, stepCount: Int32, input: InputState): seq<InputState>
  {
    if |buffer| == 0 || buffer[|buffer| - 1].stepIndex < stepCount then buffer + [input] else buffer
  }

  /** The list after the trim: the oldest records are dropped until at most SavedInputStateCount remain. */
  function Trimmed(s: seq<InputState>): (r: seq<InputState>)
    ensures |r| == if |s| <= SavedInputStateCount then |s| else SavedInputStateCount
    ensures r == s[|s| - |r|..]
  {
    if |s| <= SavedInputStateCount then s else s[|s| - SavedInputStateCount..]
  }

  /** Dropping the oldest record of an over-long list does not change what the trim keeps. */
  lemma TrimmedDropsOldest(s: seq<InputState>)
    requires |s| > SavedInputStateCount
    ensures Trimmed(s[1..]) == Trimmed(s)
  {
    assert s[1..][|s| - 1 - SavedInputStateCount..] == s[|s| - SavedInputStateCount..];
  }

  /** The local input window after one in-game frame at `stepCount` with the given axes. */
  function Window(buffer: seq<InputState>, stepCount: Int32, axisX: Int32, axisY: Int32): seq<InputState>
  {
    Trimmed(Buffered(buffer, stepCount, InputStates.InputState(stepCount, axisX, axisY)))
  }

  /** Record `i` is for a later step than record `i - 1`. */
  predicate StepsUpAt(buffer: seq<InputState>, i: int)
    requires 0 < i < |buffer|
  {
    buffer[i - 1].stepIndex < buffer[i].stepIndex
  }

  /** Each record is for a later step than the one before it. */
  predicate Increasing(buffer: seq<InputState>)
  {
    forall i | 0 < i < |buffer| :: StepsUpAt(buffer, i)
  }

  /** Every record's axes are in {-1, 0, 1}. */
  predicate AxesInRange(buffer: seq<InputState>)
  {
    forall i | 0 <= i < |buffer| :: -1 <= buffer[i].axisX <= 1 && -1 <= buffer[i].axisY <= 1
  }

  /** At most SavedInputStateCount records, step indexes strictly increasing, axes in {-1, 0, 1}. */
  predicate WindowValid(buffer: seq<InputState>)
  {
    |buffer| <= SavedInputStateCount && Increasing(buffer) && AxesInRange(buffer)
  }

  /** A suffix keeps the order and the axis range of the list it is cut from. */
  lemma SuffixInherits(s: seq<InputState>, k: nat)
    requires k <= |s| && Increasing(s) && AxesInRange(s)
    ensures Increasing(s[k..]) && AxesInRange(s[k..])
  {
    forall i | 0 < i < |s| - k
      ensures StepsUpAt(s[k..], i)
    {
      assert StepsUpAt(s, k + i);
      assert s[k..][i - 1] == s[k + i - 1] && s[k..][i] == s[k + i];
    }
  }

  /** No buffered record is for a step after `stepCount`. */
  predicate Behind(buffer: seq<InputState>, stepCount: Int32)
  {
    forall i | 0 <= i < |buffer| :: buffer[i].stepIndex <= stepCount
  }

  /**
   * The append happens exactly when the list is empty or its last record is for an
   * earlier step, and the record it adds is tagged with `stepCount`.
   */
  lemma BufferedAppendsOnlyWhenBehind(buffer: seq<InputState>, stepCount: Int32, axisX: Int32, axisY: Int32)
    ensures var input := InputStates.InputState(stepCount, axisX, axisY);
      var r := Buffered(buffer, stepCount, input);
      && (|r| == |buffer| + 1 <==> |buffer| == 0 || buffer[|buffer| - 1].stepIndex < stepCount)
      && (|r| == |buffer| + 1 ==> r[..|buffer|] == buffer && r[|buffer|] == input)
      && (|r| != |buffer| + 1 ==> r == buffer)
  {
  }

  /** The append keeps the order, since it only adds a record for a later step, and the axis range. */
  lemma BufferedKeepsOrder(buffer: seq<InputState>, stepCount: Int32, axisX: Int32, axisY: Int32)
    requires Increasing(buffer) && AxesInRange(buffer)
    requires -1 <= axisX <= 1 && -1 <= axisY <= 1
    ensures var b := Buffered(buffer, stepCount, InputStates.InputState(stepCount, axisX, axisY));
      Increasing(b) && AxesInRange(b)
  {
    var input := InputStates.InputState(stepCount, axisX, axisY);
    var b := Buffered(buffer, stepCount, input);
    if |buffer| == 0 || buffer[|buffer| - 1].stepIndex < stepCount {
      assert b == buffer + [input];
      forall i | 0 < i < |b|
        ensures StepsUpAt(b, i)
      {
        if i == |buffer| {
          assert b[i - 1] == buffer[|buffer| - 1] && b[i] == input;
        } else {
          assert StepsUpAt(buffer, i);
          assert b[i - 1] == buffer[i - 1] && b[i] == buffer[i];
        }
      }
      forall i | 0 <= i < |b|
        ensures -1 <= b[i].axisX <= 1 && -1 <= b[i].axisY <= 1
      {
        if i < |buffer| {
          assert b[i] == buffer[i];
        }
      }
    }
  }

  /** One frame keeps the window valid and leaves at least one record in it. */
  lemma WindowKeepsOrder(buffer: seq<InputState>, stepCount: Int32, axisX: Int32, axisY: Int32)
    requires WindowValid(buffer)
    requires -1 <= axisX <= 1 && -1 <= axisY <= 1
    ensures WindowValid(Window(buffer, stepCount, axisX, axisY))
    ensures |Window(buffer, stepCount, axisX, axisY)| >= 1
  {
    var b := Buffered(buffer, stepCount, InputStates.InputState(stepCount, axisX, axisY));
    BufferedKeepsOrder(buffer, stepCount, axisX, axisY);
    SuffixInherits(b, |b| - |Trimmed(b)|);
  }

  /** A suffix of a list with no record after `stepCount` has none either. */
  lemma SuffixBehind(s: seq<InputState>, stepCount: Int32, k: nat)
    requires k <= |s| && Behind(s, stepCount)
    ensures Behind(s[k..], stepCount)
  {
    forall i | 0 <= i < |s| - k
      ensures s[k..][i].stepIndex <= stepCount
    {
      assert s[k..][i] == s[k + i];
    }
  }

  /**
   * When no record was ahead of the step count, none is after the frame either, and
   * the newest one is for exactly the current step.
   */
  lemma WindowEndsAtStep(buffer: seq<InputState>, stepCount: Int32, axisX: Int32, axisY: Int32)
    requires Behind(buffer, stepCount)
    ensures Behind(Window(buffer, stepCount, axisX, axisY), stepCount)
    ensures |Window(buffer, stepCount, axisX, axisY)| > 0
    ensures Last(Window(buffer, stepCount, axisX, axisY)).stepIndex == stepCount
  {
    var input := InputStates.InputState(stepCount, axisX, axisY);
    var b := Buffered(buffer, stepCount, input);
    if |buffer| == 0 || buffer[|buffer| - 1].stepIndex < stepCount {
      assert b == buffer + [input];
      forall i | 0 <= i < |b|
        ensures b[i].stepIndex <= stepCount
      {
        if i < |buffer| {
          assert b[i] == buffer[i];
        }
      }
    } else {
      assert b == buffer;
    }
    var w := Trimmed(b);
    SuffixBehind(b, stepCount, |b| - |w|);
    assert Last(w) == Last(b);
  }

  /** The newest record of a non-empty list. */
  function Last(s: seq<InputState>): InputState
    requires |s| > 0
  {
    s[|s| - 1]
  }

  /**
   * The append of the local input for the current step, then the trim loop that
   * removes the oldest record until at most SavedInputStateCount remain.
   */
  method BufferLocalInput(buffer: seq<InputState>, stepCount: Int32, axisX: Int32, axisY: Int32)
    returns (window: seq<InputState>)
    ensures window == Window(buffer, stepCount, axisX, axisY)
  {
    window := buffer;
    if |window| == 0 || window[|window| - 1].stepIndex < stepCount {
      window := window + [InputStates.InputState(stepCount, axisX, axisY)];
    }
    ghost var appended := window;
    while |window| > SavedInputStateCount
      invariant Trimmed(window) == Trimmed(appended)
      decreases |window|
    {
      TrimmedDropsOldest(window);
      window := window[1..];
    }
  }

  /** The inputs of one step: peer `i`'s record at index `i`, the local record after them. */
  function StepInputs(slots: seq<Option<InputState>>, local: InputState): (r: seq<InputState>)
    requires AllFilled(slots)
    ensures |r| == |slots| + 1 && r[|slots|] == local
    ensures forall i | 0 <= i < |slots| :: slots[i] == Some(r[i])
  {
    seq(|slots|, i requires 0 <= i < |slots| => slots[i].value) + [local]
  }

  /** Every slot holds a record: the barrier is open. */
  predicate AllFilled(slots: seq<Option<InputState>>)
  {
    forall i | 0 <= i < |slots| :: slots[i].Some?
  }

  /** `n` players at the origin: the positions of a fresh game. */
  function Origins(n: nat): (r: seq<Point>)
    ensures |r| == n && forall i | 0 <= i < n :: r[i] == Point(0, 0)
  {
    seq(n, _ => Point(0, 0))
  }

  class Game1 {
    /** The messenger of the net peer chosen in the main menu. */
    const messenger: NetMessenger
    const isHost: bool
    var screen: Screen
    var stepCount: Int32
    /** The number of steps taken, without wrapping. */
    ghost var stepsTaken: nat
    var bufferedLocalInputs: seq<InputState>
    var inputStates: array?<InputState>
    var deterministicGame: DeterministicGame?

    /**
     * The game and its input array are created together, one slot per player; the
     * input window stays valid, and until the step count wraps it equals the steps
     * taken and no buffered record is ahead of it.
     */
    ghost predicate Valid()
      reads this, messenger`peerCount, messenger.peers, messenger.peerInputStates
      reads if deterministicGame != null then {deterministicGame.playerPositions} else {}
    {
      && messenger.Valid()
      && (deterministicGame == null <==> inputStates == null)
      && (deterministicGame != null ==>
            && deterministicGame.Valid()
            && deterministicGame.playerPositions.Length == messenger.peerCount + 1
            && inputStates.Length == messenger.peerCount + 1)
      && WindowValid(bufferedLocalInputs)
      && (stepsTaken <= Int32Max ==> stepCount == stepsTaken && Behind(bufferedLocalInputs, stepCount))
    }

    /** The players' positions. */
    ghost function Positions(): seq<Point>
      reads this, if deterministicGame != null then {deterministicGame.playerPositions} else {}
      requires deterministicGame != null
    {
      deterministicGame.playerPositions[..]
    }

    /** Game1 just after the main menu chose `messenger`'s net peer: in the lobby, no step taken yet. */
    constructor (messenger: NetMessenger, isHost: bool)
      requires messenger.Valid()
      ensures Valid()
      ensures this.messenger == messenger && this.isHost == isHost
      ensures screen == Screen.Lobby && stepCount == 0 && stepsTaken == 0
      ensures bufferedLocalInputs == [] && inputStates == null && deterministicGame == null
    {
      this.messenger := messenger;
      this.isHost := isHost;
      screen := Screen.Lobby;
      stepCount := 0;
      stepsTaken := 0;
      bufferedLocalInputs := [];
      inputStates := null;
      deterministicGame := null;
    }

    /** Game1.UpdateLobby, after the net peer's poll reported `netState`; BeginStartingGame is not modelled. */
    method UpdateLobby(netState: NetState, spacePressed: bool)
      requires Valid()
      modifies this`screen
      ensures Valid()
      ensures screen == if netState == NetState.InGame then Screen.InGame
                        else if isHost && spacePressed then Screen.StartingGame
                        else old(screen)
      ensures old(screen) == Screen.Lobby ==> screen == AfterLobby(netState, isHost, spacePressed)
    {
      if netState == NetState.InGame {
        screen := Screen.InGame;
        return;
      }
      if isHost && spacePressed {
        screen := Screen.StartingGame;
      }
    }

    /** Game1.UpdateStartingGame, after the net peer's poll reported `netState`. */
    method UpdateStartingGame(netState: NetState)
      requires Valid()
      modifies this`screen
      ensures Valid()
      ensures screen == if netState == NetState.InGame then Screen.InGame else old(screen)
      ensures old(screen) == Screen.StartingGame ==> screen == AfterStartingGame(netState)
    {
      if netState == NetState.InGame {
        screen := Screen.InGame;
      }
    }

    /** The first in-game frame creates the game: one player per peer plus the local one, all at the origin. */
    method EnsureGame()
      requires Valid()
      modifies this`deterministicGame, this`inputStates
      ensures Valid() && deterministicGame != null
      ensures old(deterministicGame) != null ==> deterministicGame == old(deterministicGame) && inputStates == old(inputStates)
      ensures old(deterministicGame) == null ==>
        && fresh(deterministicGame) && fresh(deterministicGame.playerPositions) && fresh(inputStates)
        && Positions() == Origins(messenger.peerCount + 1)
        && inputStates[..] == seq(messenger.peerCount + 1, _ => ZeroInput)
    {
      if deterministicGame == null {
        var playerCount := messenger.peerCount + 1;
        deterministicGame := new DeterministicGame(playerCount);
        inputStates := new InputState[playerCount](_ => ZeroInput);
      }
    }

    /** The append and trim of the local input window, with the axes from the arrow keys. */
    method UpdateWindow(left: bool, right: bool, up: bool, down: bool)
      requires Valid()
      modifies this`bufferedLocalInputs
      ensures Valid()
      ensures bufferedLocalInputs == Window(old(bufferedLocalInputs), stepCount, AxisOf(left, right), AxisOf(up, down))
      ensures |bufferedLocalInputs| >= 1
      ensures stepsTaken <= Int32Max ==> Last(bufferedLocalInputs).stepIndex == stepCount
    {
      var axisX := 0;
      var axisY := 0;
      if left { axisX := axisX - 1; }
      if right { axisX := axisX + 1; }
      if up { axisY := axisY - 1; }
      if down { axisY := axisY + 1; }
      assert axisX == AxisOf(left, right) && axisY == AxisOf(up, down);
      var window := BufferLocalInput(bufferedLocalInputs, stepCount, axisX, axisY);
      WindowKeepsOrder(bufferedLocalInputs, stepCount, axisX, axisY);
      if stepsTaken <= Int32Max {
        WindowEndsAtStep(bufferedLocalInputs, stepCount, axisX, axisY);
      }
      bufferedLocalInputs := window;
    }

    /** The local input of this frame: the window is updated, then sent to every peer. */
    method SendLocalInput(left: bool, right: bool, up: bool, down: bool)
      requires Valid()
      modifies this`bufferedLocalInputs, messenger.buffer, messenger`sent
      ensures Valid()
      ensures bufferedLocalInputs == Window(old(bufferedLocalInputs), stepCount, AxisOf(left, right), AxisOf(up, down))
      ensures |bufferedLocalInputs| >= 1
      ensures stepsTaken <= Int32Max ==> Last(bufferedLocalInputs).stepIndex == stepCount
      ensures messenger.buffer[..] == Overlay(old(messenger.buffer[..]), InputStatePacket(bufferedLocalInputs))
      ensures messenger.sent == old(messenger.sent) + Broadcast(InputStatePacket(bufferedLocalInputs), messenger.Directory())
    {
      UpdateWindow(left, right, up, down);
      messenger.SendInputState(bufferedLocalInputs);
    }

    /** The copy of every peer's record, then the newest local record after them. */
    method FillInputStates()
      requires Valid() && deterministicGame != null && |bufferedLocalInputs| > 0
      requires AllFilled(messenger.peerInputStates[..messenger.peerCount])
      modifies inputStates
      ensures inputStates[..] == StepInputs(messenger.peerInputStates[..messenger.peerCount],
                                            Last(bufferedLocalInputs))
    {
      var i := 0;
      while i < messenger.peerCount
        invariant 0 <= i <= messenger.peerCount
        invariant forall j | 0 <= j < i :: Some(inputStates[j]) == messenger.peerInputStates[j]
      {
        inputStates[i] := messenger.peerInputStates[i].value;
        i := i + 1;
      }
      inputStates[messenger.peerCount] := Last(bufferedLocalInputs);
    }

    /** One lockstep step: the step over everyone's input, the barrier reset, and the step count's wrapping increment. */
    method Step()
      requires Valid() && deterministicGame != null && |bufferedLocalInputs| > 0
      requires AllFilled(messenger.peerInputStates[..messenger.peerCount])
      modifies inputStates, deterministicGame.playerPositions, messenger.peerInputStates
      modifies this`stepCount, this`stepsTaken
      ensures Valid()
      ensures inputStates[..] == StepInputs(old(messenger.peerInputStates[..messenger.peerCount]),
                                            Last(bufferedLocalInputs))
      ensures Positions() == StepAll(old(Positions()), inputStates[..])
      ensures forall i | 0 <= i < MaxPeers :: messenger.peerInputStates[i].None?
      ensures stepCount == Wrap32(old(stepCount) + 1) && stepsTaken == old(stepsTaken) + 1
    {
      FillInputStates();
      deterministicGame.DeterministicStep(inputStates);
      messenger.ClearInputStates();
      stepCount := Wrap32(stepCount + 1);
      stepsTaken := stepsTaken + 1;
    }

    /** The barrier: a step is taken only when the timer has elapsed and every peer's slot is filled. */
    method TryStep(timerElapsed: bool)
      requires Valid() && deterministicGame != null && |bufferedLocalInputs| > 0
      modifies inputStates, deterministicGame.playerPositions, messenger.peerInputStates
      modifies this`stepCount, this`stepsTaken
      ensures Valid()
      ensures var ready := timerElapsed && AllFilled(old(messenger.peerInputStates[..messenger.peerCount]));
        && (ready ==>
              && inputStates[..] == StepInputs(old(messenger.peerInputStates[..messenger.peerCount]),
                                               Last(bufferedLocalInputs))
              && Positions() == StepAll(old(Positions()), inputStates[..])
              && (forall i | 0 <= i < MaxPeers :: messenger.peerInputStates[i].None?)
              && stepCount == Wrap32(old(stepCount) + 1) && stepsTaken == old(stepsTaken) + 1)
        && (!ready ==>
              && Positions() == old(Positions())
              && inputStates[..] == old(inputStates[..])
              && messenger.peerInputStates[..] == old(messenger.peerInputStates[..])
              && stepCount == old(stepCount) && stepsTaken == old(stepsTaken))
    {
      if timerElapsed {
        var all := messenger.HasAllPeerInputStates();
        if all {
          Step();
        }
      }
    }

    /**
     * Game1.UpdateInGame: creates the game on the first frame, buffers and sends the
     * local input window, and steps only when the timer has elapsed and every peer's
     * input for this step is in. Without a step, the step count, the positions and the
     * peer slots are unchanged; with one, the step count goes up by one (wrapping)
     * and the last local record is for the step just taken.
     */
    method UpdateInGame(left: bool, right: bool, up: bool, down: bool, timerElapsed: bool)
      requires Valid()
      modifies this`deterministicGame, this`inputStates, this`bufferedLocalInputs
      modifies this`stepCount, this`stepsTaken
      modifies messenger.buffer, messenger`sent, messenger.peerInputStates, inputStates
      modifies if deterministicGame != null then {deterministicGame.playerPositions} else {}
      ensures Valid() && deterministicGame != null
      ensures old(deterministicGame) != null ==> deterministicGame == old(deterministicGame) && inputStates == old(inputStates)
      ensures old(deterministicGame) == null ==>
        fresh(deterministicGame) && fresh(deterministicGame.playerPositions) && fresh(inputStates)
      ensures bufferedLocalInputs == Window(old(bufferedLocalInputs), old(stepCount), AxisOf(left, right), AxisOf(up, down))
      ensures messenger.buffer[..] == Overlay(old(messenger.buffer[..]), InputStatePacket(bufferedLocalInputs))
      ensures messenger.sent == old(messenger.sent) + Broadcast(InputStatePacket(bufferedLocalInputs), messenger.Directory())
      ensures var ready := timerElapsed && AllFilled(old(messenger.peerInputStates[..messenger.peerCount]));
        var start := if old(deterministicGame) == null then Origins(messenger.peerCount + 1) else old(Positions());
        && (ready ==>
              && inputStates[..] == StepInputs(old(messenger.peerInputStates[..messenger.peerCount]),
                                               Last(bufferedLocalInputs))
              && Positions() == StepAll(start, inputStates[..])
              && (forall i | 0 <= i < MaxPeers :: messenger.peerInputStates[i].None?)
              && stepCount == Wrap32(old(stepCount) + 1) && stepsTaken == old(stepsTaken) + 1
              && (old(stepsTaken) <= Int32Max ==> Last(bufferedLocalInputs).stepIndex == old(stepCount)))
        && (!ready ==>
              && Positions() == start
              && (old(deterministicGame) == null ==> inputStates[..] == seq(messenger.peerCount + 1, _ => ZeroInput))
              && (old(deterministicGame) != null ==> inputStates[..] == old(inputStates[..]))
              && messenger.peerInputStates[..] == old(messenger.peerInputStates[..])
              && stepCount == old(stepCount) && stepsTaken == old(stepsTaken))
    {
      EnsureGame();
      ghost var start := Positions();
      ghost var created := inputStates[..];
      SendLocalInput(left, right, up, down);
      assert Positions() == start && inputStates[..] == created;
      TryStep(timerElapsed);
    }
  }
}
