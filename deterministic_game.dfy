/**
 * The deterministic simulation: integer-only movement of 64x64 players against one
 * fixed 64x64 wall. Every sum is C# `int` arithmetic, so it wraps modulo 2^32.
 */
module Simulation {
  import opened Protocol
  import opened InputStates

  /** Pixels a player moves per step along an axis that is pressed. */
  const PlayerSpeed: int := 2
  /** Players are 64x64 boxes. */
  const PlayerSize: Int32 := 64

  /** MonoGame's Point, two `int` coordinates. */
  datatype Point = Point(x: Int32, y: Int32)

  /** The wall's top-left corner and its size; the game never assigns either. */
  const WallPosition: Point := Point(128, 128)
  const WallSize: Point := Point(64, 64)

  /** Math.Sign on `int`. */
  function Sign(v: int): (r: int)
    ensures r == -1 || r == 0 || r == 1
    ensures r == 0 <==> v == 0
    ensures r == 1 <==> v > 0
  {
    if v > 0 then 1 else if v < 0 then -1 else 0
  }

  /** DeterministicGame.IsColliding: the two boxes overlap, with both right and bottom edges computed by wrapping sums. */
  function IsColliding(x1: Int32, y1: Int32, width1: Int32, height1: Int32,
                       x2: Int32, y2: Int32, width2: Int32, height2: Int32): bool
  {
    x1 < Wrap32(x2 + width2) && Wrap32(x1 + width1) > x2 && y1 < Wrap32(y2 + height2) && Wrap32(y1 + height1) > y2
  }

  /** The collision test does not depend on which box comes first. */
  lemma IsCollidingSymmetric(x1: Int32, y1: Int32, width1: Int32, height1: Int32,
                             x2: Int32, y2: Int32, width2: Int32, height2: Int32)
    ensures IsColliding(x1, y1, width1, height1, x2, y2, width2, height2)
        == IsColliding(x2, y2, width2, height2, x1, y1, width1, height1)
  {
  }

  /** The point `(px, py)` lies in the half-open box with corner `(x, y)` and size `w` by `h`. */
  predicate InBox(px: int, py: int, x: int, y: int, w: int, h: int)
  {
    x <= px < x + w && y <= py < y + h
  }

  /**
   * For boxes of positive size whose edges do not overflow, IsColliding holds exactly
   * when the boxes have a point in common.
   */
  lemma IsCollidingMeansOverlap(x1: Int32, y1: Int32, width1: Int32, height1: Int32,
                                x2: Int32, y2: Int32, width2: Int32, height2: Int32)
    requires width1 > 0 && height1 > 0 && width2 > 0 && height2 > 0
    requires x1 + width1 <= Int32Max && y1 + height1 <= Int32Max
    requires x2 + width2 <= Int32Max && y2 + height2 <= Int32Max
    ensures IsColliding(x1, y1, width1, height1, x2, y2, width2, height2)
        <==> exists px: int, py: int :: InBox(px, py, x1, y1, width1, height1) && InBox(px, py, x2, y2, width2, height2)
  {
    if IsColliding(x1, y1, width1, height1, x2, y2, width2, height2) {
      var px := if x1 < x2 then x2 else x1;
      var py := if y1 < y2 then y2 else y1;
      assert InBox(px, py, x1, y1, width1, height1) && InBox(px, py, x2, y2, width2, height2);
    }
  }

  /** The player's box at `p` and the wall's box collide. */
  predicate HitsWall(p: Point)
  {
    IsColliding(p.x, p.y, PlayerSize, PlayerSize, WallPosition.x, WallPosition.y, WallSize.x, WallSize.y)
  }

  /**
   * One player's step: the X move is taken unless it would hit the wall, then the Y
   * move is tested from the already-updated X.
   */
  function MovePlayer(p: Point, input: InputState): Point
  {
    var motionX := Sign(input.axisX) * PlayerSpeed;
    var motionY := Sign(input.axisY) * PlayerSpeed;
    var x := if !HitsWall(Point(Wrap32(p.x + motionX), p.y)) then Wrap32(p.x + motionX) else p.x;
    var y := if !HitsWall(Point(x, Wrap32(p.y + motionY))) then Wrap32(p.y + motionY) else p.y;
    Point(x, y)
  }

  /**
   * Each coordinate either stays or moves by the sign of its axis times PlayerSpeed
   * (wrapping at the int range); a zero axis leaves its coordinate alone, and away
   * from the wall and the int range the move is always taken.
   */
  lemma MovePlayerDisplacement(p: Point, input: InputState)
    ensures var r := MovePlayer(p, input);
      && (r.x == p.x || r.x == Wrap32(p.x + Sign(input.axisX) * PlayerSpeed))
      && (r.y == p.y || r.y == Wrap32(p.y + Sign(input.axisY) * PlayerSpeed))
      && (input.axisX == 0 ==> r.x == p.x)
      && (input.axisY == 0 ==> r.y == p.y)
    ensures p.x < 0 && p.y < 0 && Int32Min + PlayerSpeed <= p.x && Int32Min + PlayerSpeed <= p.y ==>
      MovePlayer(p, input) == Point(p.x + Sign(input.axisX) * PlayerSpeed, p.y + Sign(input.axisY) * PlayerSpeed)
  {
  }

  /** A player clear of the wall before a step is clear of it after. */
  lemma MovePlayerStaysClear(p: Point, input: InputState)
    requires !HitsWall(p)
    ensures !HitsWall(MovePlayer(p, input))
  {
  }

  /** The positions after one step: player `i` moves by input `i`. */
  function StepAll(positions: seq<Point>, inputs: seq<InputState>): (r: seq<Point>)
    requires |positions| <= |inputs|
    ensures |r| == |positions|
  {
    seq(|positions|, i requires 0 <= i < |positions| => MovePlayer(positions[i], inputs[i]))
  }

  /** A player's position after the steps of `inputs`, one input per step. */
  function Run(p: Point, inputs: seq<InputState>): Point
    decreases |inputs|
  {
    if |inputs| == 0 then p else Run(MovePlayer(p, inputs[0]), inputs[1..])
  }

  /** However the inputs go, a player that starts clear of the wall never enters it. */
  lemma {:induction false} RunStaysClear(p: Point, inputs: seq<InputState>)
    requires !HitsWall(p)
    ensures !HitsWall(Run(p, inputs))
    decreases |inputs|
  {
    if |inputs| > 0 {
      MovePlayerStaysClear(p, inputs[0]);
      RunStaysClear(MovePlayer(p, inputs[0]), inputs[1..]);
    }
  }

  /** A player clear of the wall, whose box does not reach past the int range, shares no point with the wall. */
  lemma ClearIsDisjoint(p: Point)
    requires !HitsWall(p)
    requires p.x + PlayerSize <= Int32Max && p.y + PlayerSize <= Int32Max
    ensures forall px: int, py: int :: !(InBox(px, py, p.x, p.y, PlayerSize, PlayerSize)
                                        && InBox(px, py, WallPosition.x, WallPosition.y, WallSize.x, WallSize.y))
  {
    IsCollidingMeansOverlap(p.x, p.y, PlayerSize, PlayerSize, WallPosition.x, WallPosition.y, WallSize.x, WallSize.y);
  }

  /**
   * The body of DeterministicStep's loop for one player, on the position it holds by
   * reference: the X move, then the Y move tested from the updated X.
   */
  method StepPlayer(position: Point, inputState: InputState) returns (playerPosition: Point)
    ensures playerPosition == MovePlayer(position, inputState)
  {
    playerPosition := position;
    var playerMotionX := Sign(inputState.axisX) * PlayerSpeed;
    var playerMotionY := Sign(inputState.axisY) * PlayerSpeed;

    if !IsColliding(Wrap32(playerPosition.x + playerMotionX), playerPosition.y, 64, 64,
                    WallPosition.x, WallPosition.y, WallSize.x, WallSize.y) {
      playerPosition := playerPosition.(x := Wrap32(playerPosition.x + playerMotionX));
    }

    if !IsColliding(playerPosition.x, Wrap32(playerPosition.y + playerMotionY), 64, 64,
                    WallPosition.x, WallPosition.y, WallSize.x, WallSize.y) {
      playerPosition := playerPosition.(y := Wrap32(playerPosition.y + playerMotionY));
    }
  }

  class DeterministicGame {
    const playerPositions: array<Point>

    /** Every player is clear of the wall. */
    ghost predicate Valid()
      reads playerPositions
    {
      forall i | 0 <= i < playerPositions.Length :: !HitsWall(playerPositions[i])
    }

    /** DeterministicGame's constructor: `playerCount` players, all at (0, 0). */
    constructor (playerCount: nat)
      ensures Valid() && fresh(playerPositions)
      ensures playerPositions.Length == playerCount
      ensures forall i | 0 <= i < playerCount :: playerPositions[i] == Point(0, 0)
    {
      playerPositions := new Point[playerCount](_ => Point(0, 0));
    }

    /**
     * DeterministicGame.DeterministicStep: every player moves by its own input; the
     * inputs may be longer than the players.
     */
    method DeterministicStep(inputStates: array<InputState>)
      requires Valid()
      requires inputStates.Length >= playerPositions.Length
      modifies playerPositions
      ensures Valid()
      ensures playerPositions[..] == StepAll(old(playerPositions[..]), inputStates[..])
    {
      var i := 0;
      while i < playerPositions.Length
        invariant 0 <= i <= playerPositions.Length
        invariant forall j | 0 <= j < playerPositions.Length ::
          playerPositions[j] == if j < i then MovePlayer(old(playerPositions[j]), inputStates[j]) else old(playerPositions[j])
        invariant Valid()
      {
        MovePlayerStaysClear(playerPositions[i], inputStates[i]);
        playerPositions[i] := StepPlayer(playerPositions[i], inputStates[i]);
        i := i + 1;
      }
    }
  }
}
