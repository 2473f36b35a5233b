/**
 * The Game-of-Life transition on a toroidal board, as pure functions:
 * the specification that the engine's update pass is proved against.
 */
module Rules {
  import opened Pixels

  /** A board as rows of cells. */
  type Grid = seq<seq<Color>>

  /** `g` has `h` rows of `w` cells each. */
  predicate IsBoard(g: Grid, w: nat, h: nat) {
    |g| == h && forall r :: 0 <= r < h ==> |g[r]| == w
  }

  /** Every cell of `g` is exactly white or exactly black. */
  predicate IsTwoValued(g: Grid) {
    forall r, c :: 0 <= r < |g| && 0 <= c < |g[r]| ==> IsBlackOrWhite(g[r][c])
  }

  /**
   * The wrapped predecessor of index `i` on an axis of length `n`; it
   * gives `left` for a column and `above` for a row.
   */
  function Pred(i: nat, n: nat): (p: nat)
    requires i < n
    ensures p < n
    ensures p == if i == 0 then n - 1 else i - 1
  {
    (i + n - 1) % n
  }

  /**
   * The wrapped successor of index `i` on an axis of length `n`; it
   * gives `right` for a column and `below` for a row.
   */
  function Succ(i: nat, n: nat): (s: nat)
    requires i < n
    ensures s < n
    ensures s == if i == n - 1 then 0 else i + 1
  {
    (i + 1) % n
  }

  /** The two wrapped steps undo each other. */
  lemma PredSuccInverse(i: nat, n: nat)
    requires i < n
    ensures Succ(Pred(i, n), n) == i
    ensures Pred(Succ(i, n), n) == i
  {
  }

  /** Row offsets of the eight Moore neighbours, in the order the engine reads them. */
  const RowOffsets: seq<int> := [-1, -1, -1, 0, 0, 1, 1, 1]

  /** Column offsets of the eight Moore neighbours, in the order the engine reads them. */
  const ColOffsets: seq<int> := [-1, 0, 1, -1, 1, -1, 0, 1]

  /** Brings a coordinate that is at most one step off the axis `[0, n)` back onto it. */
  function Wrap(x: int, n: nat): int {
    if x < 0 then x + n else if x >= n then x - n else x
  }

  /**
   * The eight wrapped neighbour coordinates (row, column) of cell `(r, c)`,
   * in the order the engine reads them: above-left, above, above-right,
   * left, right, below-left, below, below-right.
   */
  function NeighbourPositions(w: nat, h: nat, r: nat, c: nat): (ps: seq<(nat, nat)>)
    requires r < h && c < w
    ensures |ps| == 8
    ensures forall i :: 0 <= i < 8 ==> ps[i].0 < h && ps[i].1 < w
    ensures forall i :: 0 <= i < 8 ==>
      ps[i].0 == Wrap(r + RowOffsets[i], h) && ps[i].1 == Wrap(c + ColOffsets[i], w)
  {
    var left, right, above, below := Pred(c, w), Succ(c, w), Pred(r, h), Succ(r, h);
    [(above, left), (above, c), (above, right),
     (r, left), (r, right),
     (below, left), (below, c), (below, right)]
  }

  /** The eight cells around `(r, c)`, wrapping at the edges. */
  function Neighbours(g: Grid, w: nat, h: nat, r: nat, c: nat): (ns: seq<Color>)
    requires IsBoard(g, w, h) && r < h && c < w
    ensures |ns| == 8
    ensures forall i :: 0 <= i < 8 ==>
      0 <= Wrap(r + RowOffsets[i], h) < h && 0 <= Wrap(c + ColOffsets[i], w) < w &&
      ns[i] == g[Wrap(r + RowOffsets[i], h)][Wrap(c + ColOffsets[i], w)]
  {
    var ps := NeighbourPositions(w, h, r, c);
    seq(8, i requires 0 <= i < 8 => g[ps[i].0][ps[i].1])
  }

  /** Opposite neighbours have opposite offsets. */
  lemma OffsetsOpposite(i: nat)
    requires i < 8
    ensures RowOffsets[7 - i] == -RowOffsets[i] && ColOffsets[7 - i] == -ColOffsets[i]
  {
  }

  /** How many cells of `s` are alive. */
  function CountAlive(s: seq<Color>): (n: nat)
    ensures n <= |s|
  {
    if s == [] then 0 else (if IsAlive(s[0]) then 1 else 0) + CountAlive(s[1..])
  }

  /** The count is zero exactly when no cell is alive, and full exactly when all are. */
  lemma {:induction false} CountAliveExtremes(s: seq<Color>)
    ensures CountAlive(s) == 0 <==> forall i :: 0 <= i < |s| ==> !IsAlive(s[i])
    ensures CountAlive(s) == |s| <==> forall i :: 0 <= i < |s| ==> IsAlive(s[i])
  {
    if s != [] {
      CountAliveExtremes(s[1..]);
      assert forall i :: 1 <= i < |s| ==> s[i] == s[1..][i - 1];
    }
  }

  /** Counting over a concatenation adds the counts of its parts. */
  lemma {:induction false} CountAliveAppend(a: seq<Color>, b: seq<Color>)
    ensures CountAlive(a + b) == CountAlive(a) + CountAlive(b)
  {
    if a == [] {
      assert a + b == b;
    } else {
      assert (a + b)[1..] == a[1..] + b;
      CountAliveAppend(a[1..], b);
    }
  }

  /** The number of live cells among the eight wrapped neighbours of `(r, c)`. */
  function NeighbourCount(g: Grid, w: nat, h: nat, r: nat, c: nat): (n: nat)
    requires IsBoard(g, w, h) && r < h && c < w
    ensures n <= 8
  {
    CountAlive(Neighbours(g, w, h, r, c))
  }

  /**
   * The state of `(r, c)` in the next generation: white when exactly three
   * neighbours are alive, or when exactly two are and the cell itself is alive;
   * black otherwise.
   */
  function NextCell(g: Grid, w: nat, h: nat, r: nat, c: nat): (cell: Color)
    requires IsBoard(g, w, h) && r < h && c < w
    ensures IsBlackOrWhite(cell)
  {
    var n := NeighbourCount(g, w, h, r, c);
    if n == 3 || (n == 2 && IsAlive(g[r][c])) then White else Black
  }

  /** The whole next generation: every cell computed from `g` alone. */
  function NextGeneration(g: Grid, w: nat, h: nat): (g': Grid)
    requires IsBoard(g, w, h)
    ensures IsBoard(g', w, h) && IsTwoValued(g')
    ensures forall r, c :: 0 <= r < h && 0 <= c < w ==> g'[r][c] == NextCell(g, w, h, r, c)
  {
    seq(h, r requires 0 <= r < h =>
      seq(w, c requires 0 <= c < w => NextCell(g, w, h, r, c)))
  }

  /**
   * The rule read as birth and survival: a dead cell comes alive exactly
   * when three neighbours are alive; a live cell stays alive exactly when
   * two or three are; every other cell is dead in the next generation.
   */
  lemma BirthAndSurvival(g: Grid, w: nat, h: nat, r: nat, c: nat)
    requires IsBoard(g, w, h) && r < h && c < w
    ensures var n := NeighbourCount(g, w, h, r, c);
      && (!IsAlive(g[r][c]) ==> (IsAlive(NextGeneration(g, w, h)[r][c]) <==> n == 3))
      && (IsAlive(g[r][c]) ==> (IsAlive(NextGeneration(g, w, h)[r][c]) <==> n == 2 || n == 3))
      && (IsAlive(NextGeneration(g, w, h)[r][c]) <==> NextGeneration(g, w, h)[r][c] == White)
  {
  }

  /** The neighbour count is the number of wrapped neighbour coordinates holding a live cell. */
  lemma NeighbourCountByPositions(g: Grid, w: nat, h: nat, r: nat, c: nat)
    requires IsBoard(g, w, h) && r < h && c < w
    ensures var ps := NeighbourPositions(w, h, r, c);
      NeighbourCount(g, w, h, r, c) == |set i | 0 <= i < 8 && IsAlive(g[ps[i].0][ps[i].1])|
  {
    var ns := Neighbours(g, w, h, r, c);
    CountAliveIndices(ns);
    var ps := NeighbourPositions(w, h, r, c);
    assert (set i | 0 <= i < 8 && IsAlive(g[ps[i].0][ps[i].1])) == (set i | 0 <= i < |ns| && IsAlive(ns[i]));
  }

  /** `CountAlive` agrees with counting the indices of live cells. */
  lemma {:induction false} CountAliveIndices(s: seq<Color>)
    ensures CountAlive(s) == |set i | 0 <= i < |s| && IsAlive(s[i])|
  {
    if s != [] {
      var t := s[..|s| - 1];
      assert s == t + [s[|s| - 1]];
      CountAliveIndices(t);
      CountAliveAppend(t, [s[|s| - 1]]);
      var before := set i | 0 <= i < |t| && IsAlive(t[i]);
      var all := set i | 0 <= i < |s| && IsAlive(s[i]);
      if IsAlive(s[|s| - 1]) {
        assert all == before + {|s| - 1};
      } else {
        assert all == before;
      }
    }
  }

  /** The grid is a torus: the last column neighbours the first, and the last row the first. */
  lemma EdgesWrap(w: nat, h: nat, r: nat, c: nat)
    requires r < h && c < w
    ensures NeighbourPositions(w, h, r, w - 1)[4] == (r, 0)
    ensures NeighbourPositions(w, h, r, 0)[3] == (r, w - 1)
    ensures NeighbourPositions(w, h, h - 1, c)[6] == (0, c)
    ensures NeighbourPositions(w, h, 0, c)[1] == (h - 1, c)
    ensures NeighbourPositions(w, h, 0, 0)[0] == (h - 1, w - 1)
  {
  }

  /** Neighbourhood is symmetric: each neighbour of `(r, c)` has `(r, c)` among its own neighbours. */
  lemma NeighbourSymmetric(w: nat, h: nat, r: nat, c: nat, i: nat)
    requires r < h && c < w && i < 8
    ensures var p := NeighbourPositions(w, h, r, c)[i];
      NeighbourPositions(w, h, p.0, p.1)[7 - i] == (r, c)
  {
  }

  /**
   * On a board at least three cells wide and high the eight neighbours are
   * eight distinct cells, none of them `(r, c)` itself.
   */
  lemma NeighboursDistinct(w: nat, h: nat, r: nat, c: nat)
    requires 3 <= w && 3 <= h && r < h && c < w
    ensures var ps := NeighbourPositions(w, h, r, c);
      && (forall i, j :: 0 <= i < j < 8 ==> ps[i] != ps[j])
      && (forall i :: 0 <= i < 8 ==> ps[i] != (r, c))
  {
  }

  /**
   * On a board one cell wide, the left and right neighbours of a cell are the
   * cell itself, so a live cell counts itself twice.
   */
  lemma NarrowBoardCountsSelf(g: Grid, h: nat, r: nat)
    requires IsBoard(g, 1, h) && r < h
    ensures NeighbourPositions(1, h, r, 0)[3] == (r, 0)
    ensures NeighbourPositions(1, h, r, 0)[4] == (r, 0)
    ensures IsAlive(g[r][0]) ==> NeighbourCount(g, 1, h, r, 0) >= 2
  {
    var ns := Neighbours(g, 1, h, r, 0);
    assert ns == ns[..3] + [ns[3]] + [ns[4]] + ns[5..];
    CountAliveAppend(ns[..3] + [ns[3]] + [ns[4]], ns[5..]);
    CountAliveAppend(ns[..3] + [ns[3]], [ns[4]]);
    CountAliveAppend(ns[..3], [ns[3]]);
  }

  /** One for a live cell, zero for a dead one. */
  function Alive01(c: Color): nat {
    if IsAlive(c) then 1 else 0
  }

  /** The count of eight cells, written out term by term. */
  lemma CountAliveOfEight(s: seq<Color>)
    requires |s| == 8
    ensures CountAlive(s) == Alive01(s[0]) + Alive01(s[1]) + Alive01(s[2]) + Alive01(s[3])
                           + Alive01(s[4]) + Alive01(s[5]) + Alive01(s[6]) + Alive01(s[7])
  {
    assert s[1..][1..][1..][1..][1..][1..][1..][1..] == [];
    assert CountAlive(s[1..][1..][1..][1..][1..][1..][1..]) == Alive01(s[7]);
    assert CountAlive(s[1..][1..][1..][1..][1..][1..]) == Alive01(s[6]) + Alive01(s[7]);
    assert CountAlive(s[1..][1..][1..][1..][1..]) == Alive01(s[5]) + Alive01(s[6]) + Alive01(s[7]);
    assert CountAlive(s[1..][1..][1..][1..]) == Alive01(s[4]) + Alive01(s[5]) + Alive01(s[6]) + Alive01(s[7]);
    assert CountAlive(s[1..][1..][1..]) == Alive01(s[3]) + Alive01(s[4]) + Alive01(s[5]) + Alive01(s[6]) + Alive01(s[7]);
    assert CountAlive(s[1..][1..]) == Alive01(s[2]) + Alive01(s[3]) + Alive01(s[4]) + Alive01(s[5]) + Alive01(s[6]) + Alive01(s[7]);
  }

  /**
   * The blinker: a horizontal line of three live cells at row 5, columns 4
   * to 6, with every other cell of rows and columns 3 to 7 dead, turns into
   * a vertical line at column 5, rows 4 to 6.
   */
  lemma Blinker(g: Grid, w: nat, h: nat, r: nat, c: nat)
    requires IsBoard(g, w, h) && 8 <= w && 8 <= h
    requires forall i, j :: 3 <= i <= 7 && 3 <= j <= 7 ==> (IsAlive(g[i][j]) <==> i == 5 && 4 <= j <= 6)
    requires 4 <= r <= 6 && 4 <= c <= 6
    ensures IsAlive(NextGeneration(g, w, h)[r][c]) <==> c == 5
  {
    var ns := Neighbours(g, w, h, r, c);
    CountAliveOfEight(ns);
    assert ns == [g[r - 1][c - 1], g[r - 1][c], g[r - 1][c + 1], g[r][c - 1], g[r][c + 1],
                  g[r + 1][c - 1], g[r + 1][c], g[r + 1][c + 1]];
    WhiteIsAliveBlackIsDead();
  }
}
