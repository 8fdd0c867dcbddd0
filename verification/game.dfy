/** `Game`: the helpers of the example game's main loop — tile collision
    over the 64x64 world map, the wrap-around arithmetic it uses, the
    xorshift random source and the per-frame movement and animation step. */
module Game {
  import opened CTypes
  import opened Random

  /** The world map is 64 tiles square. */
  const MapSize: int := 64

  /** Tiles are 8 pixels square. */
  const TileSize: int := 8

  /** `worldTilemap`: one tile number per map cell, row by row. */
  type Tilemap = m: seq<int> | |m| == MapSize * MapSize witness seq(MapSize * MapSize, _ => 0)

  /** collisionTile: bushes (21, 22) and trees (56, 57) block movement. */
  predicate CollisionTile(tile: int)
  {
    tile == 21 || tile == 22 || tile == 56 || tile == 57
  }

  /** positiveModulo: C's truncating remainder, shifted into the sign of
      the divisor. For a positive divisor it is the mathematical residue
      (Dafny's Euclidean `%`); for a negative one it lies in (n, 0]. */
  function PositiveModulo(i: int, n: int): (r: int)
    requires n != 0
    ensures n > 0 ==> r == i % n && 0 <= r < n
    ensures n < 0 ==> n < r <= 0
  {
    var a := CRem(i, n);
    var r := CRem(a + n, n);
    if n > 0 then
      var q := CDiv(i, n) + CDiv(a + n, n) - 1;
      assert i == q * n + r by {
        assert q * n == CDiv(i, n) * n + CDiv(a + n, n) * n - n;
      }
      EuclidUnique(i, n, q, r);
      r
    else
      r
  }

  /** divRoundDown: the truncating quotient, one less for a negative
      dividend. */
  function DivRoundDown(i: int, n: int): (q: int)
    requires n != 0
    ensures i >= 0 ==> q == CDiv(i, n)
    ensures i < 0 ==> q == CDiv(i, n) - 1
  {
    if i < 0 then CDiv(i, n) - 1 else CDiv(i, n)
  }

  /** For a positive divisor divRoundDown is the floor of i/n, except on a
      negative exact multiple, where it is one below the floor (-8 over 8
      gives -2). */
  lemma DivRoundDownFloor(i: int, n: int)
    requires n > 0
    ensures i >= 0 || i % n != 0 ==> DivRoundDown(i, n) == i / n
    ensures i < 0 && i % n == 0 ==> DivRoundDown(i, n) == i / n - 1
  {
    var q := CDiv(i, n);
    var r := CRem(i, n);
    if i >= 0 {
      EuclidUnique(i, n, q, r);
    } else if r == 0 {
      EuclidUnique(i, n, q, 0);
    } else {
      EuclidUnique(i, n, q - 1, r + n);
    }
  }

  /** The tile column (or row) divRoundDown puts a pixel coordinate in,
      reduced by C's `%` to the range (-64, 64). */
  function TileCoordinate(target: int): (t: int)
    ensures -MapSize < t < MapSize
  {
    CRem(DivRoundDown(target, TileSize), MapSize)
  }

  /** A coordinate lies exactly on a tile boundary. */
  predicate OnBoundary(target: int)
  {
    CRem(target, TileSize) == 0
  }

  /** The largest row offset willBeCollision examines (offsets start at 1). */
  function LastRow(targetY: int): int
  {
    if OnBoundary(targetY) then 1 else 2
  }

  /** The largest column offset willBeCollision examines (offsets start at 0). */
  function LastColumn(targetX: int): int
  {
    if OnBoundary(targetX) then 1 else 2
  }

  /** The map index read for one offset pair: always inside the map. */
  function CellIndex(tileX: int, tileY: int, xOffset: int, yOffset: int): (k: int)
    ensures 0 <= k < MapSize * MapSize
  {
    var x := PositiveModulo(tileX + xOffset, MapSize);
    var y := PositiveModulo(tileY + yOffset, MapSize);
    y * MapSize + x
  }

  /** The cells willBeCollision examines for a target position: rows 1 to
      LastRow below the tile row and columns 0 to LastColumn from the tile
      column, wrapping round the map. */
  predicate InWindow(targetX: int, targetY: int, xOffset: int, yOffset: int)
  {
    1 <= yOffset <= LastRow(targetY) && 0 <= xOffset <= LastColumn(targetX)
  }

  /** Some cell of the window for a target position holds a blocking tile. */
  ghost predicate Blocked(tilemap: Tilemap, targetX: int, targetY: int)
  {
    exists xOffset, yOffset ::
      && InWindow(targetX, targetY, xOffset, yOffset)
      && CollisionTile(tilemap[CellIndex(TileCoordinate(targetX), TileCoordinate(targetY), xOffset, yOffset)])
  }

  /** willBeCollision, with the world map as a parameter: scans the window
      row by row and reports whether any cell in it holds a blocking tile. */
  method WillBeCollision(tilemap: Tilemap, targetX: int, targetY: int) returns (hit: bool)
    ensures hit <==> Blocked(tilemap, targetX, targetY)
  {
    var tileX := TileCoordinate(targetX);
    var tileY := TileCoordinate(targetY);
    var lastRow := LastRow(targetY);
    var lastColumn := LastColumn(targetX);
    var yOffset := 1;
    while yOffset <= lastRow
      invariant 1 <= yOffset <= lastRow + 1
      invariant forall x, y :: 1 <= y < yOffset && 0 <= x <= lastColumn ==>
                  !CollisionTile(tilemap[CellIndex(tileX, tileY, x, y)])
    {
      var xOffset := 0;
      while xOffset <= lastColumn
        invariant 0 <= xOffset <= lastColumn + 1
        invariant forall x :: 0 <= x < xOffset ==> !CollisionTile(tilemap[CellIndex(tileX, tileY, x, yOffset)])
      {
        if CollisionTile(tilemap[CellIndex(tileX, tileY, xOffset, yOffset)]) {
          assert InWindow(targetX, targetY, xOffset, yOffset);
          return true;
        }
        xOffset := xOffset + 1;
      }
      yOffset := yOffset + 1;
    }
    return false;
  }

  /** The four directions of the character. */
  datatype Direction = Up | Left | Down | Right

  /** The pad state read each frame. */
  datatype Keys = Keys(up: bool, down: bool, left: bool, right: bool)

  /** The loop variables of main: position, animation counters, facing and
      the static state of randomNumber. */
  datatype Player = Player(x: int, y: int, frame: int, frameSkip: int, currentFrame: int,
                           direction: Direction, rng: bv32)

  const LoopsPerFrame: int := 3
  const Speed: int := 1

  const DownStart: int := 3
  const DownEnd: int := 10
  const RightStart: int := 11
  const RightEnd: int := 21
  const LeftStart: int := 22
  const LeftEnd: int := 32
  const UpStart: int := 34
  const UpEnd: int := 41

  const DownIdle: int := 1
  const DownBlink: int := 2
  const RightIdle: int := 11
  const LeftIdle: int := 22
  const UpIdle: int := 33

  /** The state main starts its loop with, the character in the middle of
      the 240x160 screen. */
  const Start: Player := Player(120, 80, 0, 0, DownIdle, Down, RandomSeed)

  /** The animation counters and intended speeds after the key branches. */
  datatype Walk = Walk(frame: int, currentFrame: int, direction: Direction, xSpeed: int, ySpeed: int)

  /** One direction branch: restart the cycle once `frame` has reached
      end - start, then show frame `start + frame - 1`. */
  function Cycle(frame: int, start: int, end: int): (w: (int, int))
    requires 0 <= frame && start < end
    ensures 0 <= w.0 < end - start
    ensures w.0 == (if frame >= end - start then 0 else frame)
    ensures start - 1 <= w.1 <= end - 2
  {
    var f := if frame >= end - start then 0 else frame;
    (f, start + f - 1)
  }

  /** The four key branches, in the source's order (a later key overrides
      an earlier one's frame and facing). */
  function WalkStep(p: Player, keys: Keys): (w: Walk)
    requires p.frame >= 0
    ensures w.frame >= 0
    ensures w.xSpeed == (if keys.right then Speed else if keys.left then -Speed else 0)
    ensures w.ySpeed == (if keys.down then Speed else if keys.up then -Speed else 0)
    ensures w.direction == (if keys.right then Right else if keys.left then Left
                            else if keys.down then Down else if keys.up then Up else p.direction)
    ensures keys.right ==> RightStart - 1 <= w.currentFrame <= RightEnd - 2
    ensures !keys.right && keys.left ==> LeftStart - 1 <= w.currentFrame <= LeftEnd - 2
    ensures !keys.right && !keys.left && keys.down ==> DownStart - 1 <= w.currentFrame <= DownEnd - 2
    ensures !keys.right && !keys.left && !keys.down && keys.up ==> UpStart - 1 <= w.currentFrame <= UpEnd - 2
    ensures !(keys.up || keys.down || keys.left || keys.right) ==> w == Walk(p.frame, p.currentFrame, p.direction, 0, 0)
  {
    var w0 := Walk(p.frame, p.currentFrame, p.direction, 0, 0);
    var w1 := if keys.up then var c := Cycle(w0.frame, UpStart, UpEnd); Walk(c.0, c.1, Up, w0.xSpeed, -Speed) else w0;
    var w2 := if keys.down then var c := Cycle(w1.frame, DownStart, DownEnd); Walk(c.0, c.1, Down, w1.xSpeed, Speed) else w1;
    var w3 := if keys.left then var c := Cycle(w2.frame, LeftStart, LeftEnd); Walk(c.0, c.1, Left, -Speed, w2.ySpeed) else w2;
    if keys.right then var c := Cycle(w3.frame, RightStart, RightEnd); Walk(c.0, c.1, Right, Speed, w3.ySpeed) else w3
  }

  /** The idle switch when the character does not move: the facing's idle
      frame, with the occasional blink while facing down. On the first loop
      of a frame a new random number is drawn and the blink starts exactly
      when it is a multiple of 128; on the other loops a blink already
      showing is kept. */
  function Idle(currentFrame: int, frameSkip: int, direction: Direction, rng: bv32): (r: (int, bv32))
    ensures direction != Down ==> r.1 == rng
    ensures direction == Up ==> r.0 == UpIdle - 1
    ensures direction == Left ==> r.0 == LeftIdle - 1
    ensures direction == Right ==> r.0 == RightIdle - 1
    ensures direction == Down ==> r.0 == DownIdle - 1 || r.0 == DownBlink - 1
    ensures direction == Down && frameSkip != 0 ==> r.1 == rng
    ensures direction == Down && frameSkip == 0 ==> r.1 == Xorshift32(rng)
    ensures direction == Down && frameSkip == 0 ==>
              (r.0 == DownBlink - 1 <==> Xorshift32(rng) % 128 == 0)
    ensures direction == Down && frameSkip != 0 ==>
              (r.0 == DownBlink - 1 <==> currentFrame == DownBlink - 1)
  {
    match direction
    case Up => (UpIdle - 1, rng)
    case Left => (LeftIdle - 1, rng)
    case Right => (RightIdle - 1, rng)
    case Down =>
      var c := if (currentFrame == DownBlink - 1 && frameSkip == 0) || currentFrame != DownBlink - 1
               then DownIdle - 1 else currentFrame;
      if frameSkip == 0 then
        var next := Xorshift32(rng);
        (if next % 128 == 0 then DownBlink - 1 else c, next)
      else (c, rng)
  }

  /** What main keeps true from one loop iteration to the next. */
  predicate Invariant(p: Player)
  {
    && 0 <= p.frameSkip < LoopsPerFrame
    && p.frame >= 0
    && 0 <= p.currentFrame <= UpEnd - 2
  }

  /** main enters its loop with the invariant already true. */
  lemma StartInvariant()
    ensures Invariant(Start)
  {
  }

  /** The two collision tests of main: the horizontal move is checked from
      the current row, the vertical one from the current column, and a
      blocked move is dropped. */
  method Collide(tilemap: Tilemap, x: int, y: int, xSpeed: int, ySpeed: int) returns (dx: int, dy: int)
    ensures dx == if Blocked(tilemap, x + xSpeed, y) then 0 else xSpeed
    ensures dy == if Blocked(tilemap, x, y + ySpeed) then 0 else ySpeed
  {
    dx, dy := xSpeed, ySpeed;
    var blockedX := WillBeCollision(tilemap, x + xSpeed, y);
    if blockedX {
      dx := 0;
    }
    var blockedY := WillBeCollision(tilemap, x, y + ySpeed);
    if blockedY {
      dy := 0;
    }
  }

  /** The frame counters: `frameSkip` counts loops modulo LOOPS_PER_FRAME,
      and `frame` advances each time it wraps. */
  function Tick(frame: int, frameSkip: int): (c: (int, int))
    requires 0 <= frameSkip < LoopsPerFrame
    ensures c.1 == (frameSkip + 1) % LoopsPerFrame
    ensures c.0 == if c.1 == 0 then frame + 1 else frame
  {
    if frameSkip + 1 == LoopsPerFrame then (frame + 1, 0) else (frame, frameSkip + 1)
  }

  /** The frame shown after the collision tests: the walking frame while
      the character moves, the idle switch when it stands still. */
  function Pose(w: Walk, moving: bool, frameSkip: int, rng: bv32): (r: (int, bv32))
    requires 0 <= w.currentFrame <= UpEnd - 2
    ensures 0 <= r.0 <= UpEnd - 2
    ensures moving ==> r == (w.currentFrame, rng)
    ensures !moving ==> r == Idle(w.currentFrame, frameSkip, w.direction, rng)
  {
    if moving then (w.currentFrame, rng) else Idle(w.currentFrame, frameSkip, w.direction, rng)
  }

  /** One iteration of main's loop after the key state is read: the key
      branches, the collision tests on each axis, the idle frame, the move
      and the frame counters. */
  method Step(tilemap: Tilemap, p: Player, keys: Keys) returns (q: Player)
    requires Invariant(p)
    ensures Invariant(q)
    ensures q.frameSkip == (p.frameSkip + 1) % LoopsPerFrame
    ensures -Speed <= q.x - p.x <= Speed && -Speed <= q.y - p.y <= Speed
    ensures q.x != p.x ==> q.x - p.x == (if keys.right then Speed else -Speed)
    ensures q.y != p.y ==> q.y - p.y == (if keys.down then Speed else -Speed)
    ensures var dx := WalkStep(p, keys).xSpeed;
            q.x == if Blocked(tilemap, p.x + dx, p.y) then p.x else p.x + dx
    ensures var dy := WalkStep(p, keys).ySpeed;
            q.y == if Blocked(tilemap, p.x, p.y + dy) then p.y else p.y + dy
    ensures var w := WalkStep(p, keys);
            && q.direction == w.direction
            && q.frame == (if p.frameSkip + 1 == LoopsPerFrame then w.frame + 1 else w.frame)
    ensures var w := WalkStep(p, keys);
            q.x == p.x && q.y == p.y ==>
              (q.currentFrame, q.rng) == Idle(w.currentFrame, p.frameSkip, w.direction, p.rng)
    ensures q.x != p.x || q.y != p.y ==> q.currentFrame == WalkStep(p, keys).currentFrame && q.rng == p.rng
  {
    var w := WalkStep(p, keys);
    var xSpeed, ySpeed := Collide(tilemap, p.x, p.y, w.xSpeed, w.ySpeed);
    assert xSpeed == 0 || xSpeed == w.xSpeed;
    assert ySpeed == 0 || ySpeed == w.ySpeed;
    var moving := xSpeed != 0 || ySpeed != 0;
    var pose := Pose(w, moving, p.frameSkip, p.rng);
    var counters := Tick(w.frame, p.frameSkip);
    q := Player(p.x + xSpeed, p.y + ySpeed, counters.0, counters.1, pose.0, w.direction, pose.1);
    assert moving <==> q.x != p.x || q.y != p.y;
  }
}
