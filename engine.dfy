/**
 * The engine state: two fixed-size boards that swap roles after each
 * generation, the time of the last generation, and the redraw flag.
 */
module Engine {
  import opened Pixels
  import opened Rules

  datatype Option<T> = None | Some(value: T)

  /** Screen pixels per cell (`SCALE`). */
  const Scale: nat := 2
  /** Board width in cells (`GRID_WIDTH`). */
  const GridWidth: nat := 1920 / Scale
  /** Board height in cells (`GRID_HEIGHT`). */
  const GridHeight: nat := 1080 / Scale
  /** Cells on the board (`GRID_CELLS`). */
  const GridCells: nat := GridWidth * GridHeight
  /** Bytes in the drawn buffer (`GRID_BYTES`). */
  const GridBytes: nat := GridCells * ColorBytes

  /** Target generations per second (`UPDATES_PER_SECOND`). */
  const UpdatesPerSecond: nat := 24
  /** Minimum milliseconds between generations (`MILLIS_PER_UPDATE`), truncated. */
  const MillisPerUpdate: nat := 1000 / UpdatesPerSecond
  /** Timestamps are nanoseconds, the resolution of the clock. */
  const NanosPerMilli: nat := 1_000_000
  /** `Duration::from_millis(MILLIS_PER_UPDATE)` in nanoseconds. */
  const UpdateInterval: nat := MillisPerUpdate * NanosPerMilli

  /** The cells of a 2-D array as a sequence of rows. */
  function Cells(a: array2<Color>): (g: Grid)
    reads a
    ensures IsBoard(g, a.Length1, a.Length0)
    ensures forall r, c :: 0 <= r < a.Length0 && 0 <= c < a.Length1 ==> g[r][c] == a[r, c]
  {
    seq(a.Length0, r requires 0 <= r < a.Length0 reads a =>
      seq(a.Length1, c requires 0 <= c < a.Length1 reads a => a[r, c]))
  }

  /** The source's board has exactly `GRID_BYTES` bytes to draw. */
  lemma SourceBoardBytes(g: Grid)
    requires IsBoard(g, GridWidth, GridHeight)
    ensures |Flatten(g)| == GridBytes == 2073600
  {
    FlattenLength(g, GridWidth);
  }

  /** Counts the live cells of `cells`, as `filter(|v| v[0] > 0).count()` does. */
  method CountLive(cells: seq<Color>) returns (n: nat)
    ensures n == CountAlive(cells)
  {
    n := 0;
    for i := 0 to |cells|
      invariant n == CountAlive(cells[..i])
    {
      CountAliveAppend(cells[..i], [cells[i]]);
      assert cells[..i + 1] == cells[..i] + [cells[i]];
      if cells[i].red > 0 {
        n := n + 1;
      }
    }
    assert cells[..|cells|] == cells;
  }

  /**
   * The body of the update pass for one cell: the wrapped neighbour indices,
   * the live-neighbour count and the birth/survival rule, reading `board` only.
   */
  method ComputeCell(board: array2<Color>, r: nat, c: nat) returns (cell: Color)
    requires r < board.Length0 && c < board.Length1
    ensures cell == NextCell(Cells(board), board.Length1, board.Length0, r, c)
  {
    var w, h := board.Length1, board.Length0;
    var left, right, above, below :=
      (c + w - 1) % w, (c + 1) % w, (r + h - 1) % h, (r + 1) % h;
    assert left == Pred(c, w) && right == Succ(c, w) && above == Pred(r, h) && below == Succ(r, h);
    var neighbours := [
      board[above, left], board[above, c], board[above, right],
      board[r, left], board[r, right],
      board[below, left], board[below, c], board[below, right]];
    assert neighbours == Neighbours(Cells(board), w, h, r, c);
    var n := CountLive(neighbours);
    if n == 3 || (n == 2 && board[r, c].red > 0) {
      cell := White;
    } else {
      cell := Black;
    }
  }

  class GameState {
    const width: nat
    const height: nat
    /** The visible generation. */
    var curr: array2<Color>
    /** The write target of the next generation. */
    var next: array2<Color>
    /** When the last generation was computed, in nanoseconds. */
    var lastUpdate: nat
    /** Whether `curr` changed since it was last drawn. */
    var needsRedraw: bool

    /**
     * Both boards have the fixed positive shape, are distinct arrays, and hold
     * only white and black cells.
     */
    ghost predicate Valid()
      reads this, curr, next
    {
      Shaped() && IsTwoValued(Cells(curr)) && IsTwoValued(Cells(next))
    }

    /** Both boards have the fixed positive shape and are distinct arrays. */
    ghost predicate Shaped()
      reads this
    {
      && 0 < width && 0 < height
      && curr != next
      && curr.Length0 == height && curr.Length1 == width
      && next.Length0 == height && next.Length1 == width
    }

    /**
     * A fresh engine on a `w` by `h` board. `coins` stands for the random
     * generator: one flip per cell, `true` making the cell white.
     */
    constructor (w: nat, h: nat, coins: seq<seq<bool>>, startedAt: nat)
      requires 0 < w && 0 < h
      requires |coins| == h && forall r :: 0 <= r < h ==> |coins[r]| == w
      ensures Valid()
      ensures width == w && height == h && fresh(curr) && fresh(next)
      ensures forall r, c :: 0 <= r < h && 0 <= c < w ==>
        curr[r, c] == if coins[r][c] then White else Black
      ensures forall r, c :: 0 <= r < h && 0 <= c < w ==> next[r, c] == Black
      ensures lastUpdate == startedAt && needsRedraw
    {
      var board := new Color[h, w]((_, _) => Black);
      for r := 0 to h
        invariant forall i, j :: 0 <= i < h && 0 <= j < w ==>
          board[i, j] == if i < r && coins[i][j] then White else Black
      {
        for c := 0 to w
          invariant forall i, j :: 0 <= i < h && 0 <= j < w ==>
            board[i, j] == if (i < r || (i == r && j < c)) && coins[i][j] then White else Black
        {
          if coins[r][c] {
            board[r, c] := White;
          }
        }
      }
      width, height := w, h;
      curr := board;
      next := new Color[h, w]((_, _) => Black);
      lastUpdate := startedAt;
      needsRedraw := true;
    }

    /**
     * The update pass: writes every cell of `next` from `curr`, row by row,
     * with `curr` only read.
     */
    method ComputeNext()
      requires Shaped()
      modifies next
      ensures Cells(next) == NextGeneration(Cells(curr), width, height)
    {
      ghost var g := Cells(curr);
      ghost var g' := NextGeneration(g, width, height);
      for r := 0 to height
        invariant unchanged(curr)
        invariant forall i, j :: 0 <= i < r && 0 <= j < width ==> next[i, j] == g'[i][j]
      {
        for c := 0 to width
          invariant unchanged(curr)
          invariant forall i, j :: 0 <= i < r && 0 <= j < width ==> next[i, j] == g'[i][j]
          invariant forall j :: 0 <= j < c ==> next[r, j] == g'[r][j]
        {
          var cell := ComputeCell(curr, r, c);
          assert cell == g'[r][c];
          next[r, c] := cell;
        }
      }
      GridEquality(Cells(next), g', width, height);
    }

    /**
     * One call of the frame loop's update: nothing happens unless at least
     * `UpdateInterval` has passed since `lastUpdate` at time `now`; otherwise
     * the next generation is computed, the boards swap roles, `lastUpdate`
     * becomes `finishedAt` (the clock read after the pass) and a redraw is
     * requested.
     */
    method Update(now: nat, finishedAt: nat)
      requires Valid()
      requires lastUpdate <= now <= finishedAt
      modifies this, next
      ensures Valid()
      ensures now - old(lastUpdate) < UpdateInterval ==>
        && curr == old(curr) && next == old(next)
        && Cells(curr) == old(Cells(curr)) && Cells(next) == old(Cells(next))
        && lastUpdate == old(lastUpdate) && needsRedraw == old(needsRedraw)
      ensures now - old(lastUpdate) >= UpdateInterval ==>
        && curr == old(next) && next == old(curr)
        && Cells(curr) == NextGeneration(old(Cells(curr)), width, height)
        && Cells(next) == old(Cells(curr))
        && lastUpdate == finishedAt && needsRedraw
    {
      if !(now - lastUpdate >= UpdateInterval) {
        return;
      }
      ComputeNext();
      curr, next := next, curr;
      lastUpdate := finishedAt;
      needsRedraw := true;
    }

    /**
     * The buffer part of the frame loop's draw: when a redraw is pending,
     * hands out `curr` as a row-major RGBA byte buffer and clears the flag.
     */
    method Draw() returns (image: Option<seq<byte>>)
      requires Valid()
      modifies this`needsRedraw
      ensures Valid()
      ensures !needsRedraw
      ensures old(needsRedraw) ==> image == Some(Flatten(Cells(curr)))
      ensures !old(needsRedraw) ==> image == None
      ensures image.Some? ==> |image.value| == height * width * ColorBytes
    {
      image := None;
      if needsRedraw {
        var bytes := Flatten(Cells(curr));
        FlattenLength(Cells(curr), width);
        image := Some(bytes);
        needsRedraw := false;
      }
    }
  }

  /** Two boards of the same shape that agree cell by cell are equal. */
  lemma GridEquality(a: Grid, b: Grid, w: nat, h: nat)
    requires IsBoard(a, w, h) && IsBoard(b, w, h)
    requires forall r, c :: 0 <= r < h && 0 <= c < w ==> a[r][c] == b[r][c]
    ensures a == b
  {
    forall r | 0 <= r < h
      ensures a[r] == b[r]
    {
    }
  }

  /**
   * Two frames of the event loop: drawing twice with no generation in between
   * hands out the board once and then nothing; a generation followed by an
   * update one nanosecond short of the interval hands out the new board
   * once, unchanged by the second update.
   */
  method FrameLoopDiscipline(game: GameState, t: nat)
    returns (second: Option<seq<byte>>, third: Option<seq<byte>>, fourth: Option<seq<byte>>)
    requires game.Valid() && game.lastUpdate <= t
    modifies game, game.curr, game.next
    ensures game.Valid()
    ensures game.lastUpdate == t + UpdateInterval
    ensures second == None && fourth == None
    ensures third == Some(Flatten(NextGeneration(old(Cells(game.curr)), game.width, game.height)))
  {
    var first := game.Draw();
    second := game.Draw();

    game.Update(t + UpdateInterval, t + UpdateInterval);
    game.Update(t + 2 * UpdateInterval - 1, t + 2 * UpdateInterval - 1);
    third := game.Draw();
    fourth := game.Draw();
  }
}
