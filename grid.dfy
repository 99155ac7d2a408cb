/** The value-level view of a Game of Life world: a square grid of `size * size`
    cells stored row-major in a sequence of booleans (live = true), the Moore
    neighbourhood of a cell without wrap-around at the edges, and one generation
    step driven by a rule that receives only the live-neighbour count. */
module Grid {

  /** Cell (x, y) lies on a size-by-size grid. */
  predicate InGrid(size: nat, x: int, y: int)
  {
    0 <= x < size && 0 <= y < size
  }

  lemma MulBound(size: nat, x: nat, y: nat)
    requires x < size && y < size
    ensures x * size + y < size * size
  {
    calc {
      x * size + y;
    <
      x * size + size;
    ==
      (x + 1) * size;
    <=  { MulMonotone(x + 1, size, size); }
      size * size;
    }
  }

  lemma MulMonotone(a: nat, b: nat, c: nat)
    requires a <= b
    ensures a * c <= b * c
  {
  }

  /** Row-major buffer position of cell (x, y): x selects the row, y the column. */
  function Index(size: nat, x: int, y: int): (k: nat)
    requires InGrid(size, x, y)
    ensures k < size * size
  {
    MulBound(size, x, y);
    x * size + y
  }

  /** Cells of an earlier row come before cells of a later row. */
  lemma RowOrder(size: nat, x1: int, y1: int, x2: int, y2: int)
    requires InGrid(size, x1, y1) && InGrid(size, x2, y2) && x1 < x2
    ensures Index(size, x1, y1) < Index(size, x2, y2)
  {
    calc {
      Index(size, x1, y1);
    ==
      x1 * size + y1;
    <
      x1 * size + size;
    ==
      (x1 + 1) * size;
    <=  { MulMonotone(x1 + 1, x2, size); }
      x2 * size;
    <=
      Index(size, x2, y2);
    }
  }

  /** Distinct cells of the grid occupy distinct buffer positions. */
  lemma IndexInjective(size: nat, x1: int, y1: int, x2: int, y2: int)
    requires InGrid(size, x1, y1) && InGrid(size, x2, y2)
    requires Index(size, x1, y1) == Index(size, x2, y2)
    ensures x1 == x2 && y1 == y2
  {
    if x1 < x2 {
      RowOrder(size, x1, y1, x2, y2);
    } else if x2 < x1 {
      RowOrder(size, x2, y2, x1, y1);
    }
  }

  /** Every buffer position k is the position of exactly the cell
      (k / size, k % size): walking the buffer in order is walking the grid
      row by row, x outer and y inner. */
  lemma IndexDivMod(size: nat, k: int)
    requires 0 <= k < size * size
    ensures size > 0
    ensures InGrid(size, k / size, k % size)
    ensures Index(size, k / size, k % size) == k
  {
    assert size > 0;
    var q, r := k / size, k % size;
    assert k == q * size + r;
    if q >= size {
      MulMonotone(size, q, size);
      assert false;
    }
  }

  /** The coordinates of a cell are recovered from its buffer position. */
  lemma IndexCoords(size: nat, x: int, y: int)
    requires InGrid(size, x, y)
    ensures Index(size, x, y) / size == x && Index(size, x, y) % size == y
  {
    var k := Index(size, x, y);
    IndexDivMod(size, k);
    IndexInjective(size, k / size, k % size, x, y);
  }

  /** The state of cell (x, y) in a row-major buffer. */
  function Cell(cells: seq<bool>, size: nat, x: int, y: int): bool
    requires |cells| == size * size && InGrid(size, x, y)
  {
    cells[Index(size, x, y)]
  }

  /** Row x of a row-major buffer: the run of size cells starting at x * size. */
  function Row(cells: seq<bool>, size: nat, x: int): (row: seq<bool>)
    requires |cells| == size * size && 0 <= x < size
    ensures |row| == size
  {
    MulMonotone(x + 1, size, size);
    cells[x * size .. (x + 1) * size]
  }

  /** The buffer is the rows laid end to end: cell (x, y) is entry y of row x. */
  lemma CellInRow(cells: seq<bool>, size: nat, x: int, y: int)
    requires |cells| == size * size && InGrid(size, x, y)
    ensures Cell(cells, size, x, y) == Row(cells, size, x)[y]
  {
  }

  /** Writing cell (x, y) changes that cell and no other. */
  lemma SetThenGet(cells: seq<bool>, size: nat, x: int, y: int, v: bool, a: int, b: int)
    requires |cells| == size * size && InGrid(size, x, y) && InGrid(size, a, b)
    ensures Cell(cells[Index(size, x, y) := v], size, a, b)
            == if (a, b) == (x, y) then v else Cell(cells, size, a, b)
  {
    if (a, b) != (x, y) && Index(size, a, b) == Index(size, x, y) {
      IndexInjective(size, a, b, x, y);
    }
  }

  /** (a, b) is on the grid and live; coordinates off the grid do not exist
      and so are never live. */
  predicate Alive(cells: seq<bool>, size: nat, a: int, b: int)
    requires |cells| == size * size
  {
    InGrid(size, a, b) && Cell(cells, size, a, b)
  }

  /** (dx, dy) is one of the eight steps to a Moore neighbour. */
  predicate IsMooreOffset(d: (int, int))
  {
    -1 <= d.0 <= 1 && -1 <= d.1 <= 1 && d != (0, 0)
  }

  /** (a, b) is a Moore neighbour of (x, y), whether or not it is on the grid. */
  predicate Near(x: int, y: int, a: int, b: int)
  {
    IsMooreOffset((a - x, b - y))
  }

  predicate Distinct(offs: seq<(int, int)>)
  {
    forall i, j :: 0 <= i < j < |offs| ==> offs[i] != offs[j]
  }

  /** The eight neighbour steps, in the order the neighbour count visits them. */
  function MooreOffsets(): (offs: seq<(int, int)>)
    ensures |offs| == 8 && Distinct(offs)
    ensures forall d :: d in offs <==> IsMooreOffset(d)
  {
    [(-1, -1), (0, -1), (1, -1), (-1, 0), (1, 0), (-1, 1), (0, 1), (1, 1)]
  }

  function Bit(b: bool): nat
  {
    if b then 1 else 0
  }

  /** Number of live cells among (x + dx, y + dy) for the steps in offs. */
  function CountLive(cells: seq<bool>, size: nat, x: int, y: int, offs: seq<(int, int)>): (n: nat)
    requires |cells| == size * size
    ensures n <= |offs|
  {
    if offs == [] then 0
    else Bit(Alive(cells, size, x + offs[0].0, y + offs[0].1)) + CountLive(cells, size, x, y, offs[1..])
  }

  /** Number of steps in offs that land on the grid. */
  function CountInGrid(size: nat, x: int, y: int, offs: seq<(int, int)>): nat
  {
    if offs == [] then 0
    else Bit(InGrid(size, x + offs[0].0, y + offs[0].1)) + CountInGrid(size, x, y, offs[1..])
  }

  /** Live-neighbour count of (x, y): live Moore neighbours that lie on the
      grid; there is no wrap-around. */
  function NeighbourCount(cells: seq<bool>, size: nat, x: int, y: int): (n: nat)
    requires |cells| == size * size
    ensures n <= 8
  {
    CountLive(cells, size, x, y, MooreOffsets())
  }

  /** Number of Moore neighbours of (x, y) that exist on the grid. */
  function CandidateCount(size: nat, x: int, y: int): nat
  {
    CountInGrid(size, x, y, MooreOffsets())
  }

  /** The neighbour count written out as eight guarded terms, one per step. */
  lemma NeighbourCountUnrolled(cells: seq<bool>, size: nat, x: int, y: int)
    requires |cells| == size * size
    ensures NeighbourCount(cells, size, x, y) ==
      Bit(Alive(cells, size, x - 1, y - 1)) + Bit(Alive(cells, size, x, y - 1)) +
      Bit(Alive(cells, size, x + 1, y - 1)) + Bit(Alive(cells, size, x - 1, y)) +
      Bit(Alive(cells, size, x + 1, y)) + Bit(Alive(cells, size, x - 1, y + 1)) +
      Bit(Alive(cells, size, x, y + 1)) + Bit(Alive(cells, size, x + 1, y + 1))
  {
    var offs := MooreOffsets();
    assert CountLive(cells, size, x, y, offs[8..]) == 0;
    assert CountLive(cells, size, x, y, offs[7..]) == Bit(Alive(cells, size, x + 1, y + 1));
    assert CountLive(cells, size, x, y, offs[6..]) == Bit(Alive(cells, size, x, y + 1)) + CountLive(cells, size, x, y, offs[7..]);
    assert CountLive(cells, size, x, y, offs[5..]) == Bit(Alive(cells, size, x - 1, y + 1)) + CountLive(cells, size, x, y, offs[6..]);
    assert CountLive(cells, size, x, y, offs[4..]) == Bit(Alive(cells, size, x + 1, y)) + CountLive(cells, size, x, y, offs[5..]);
    assert CountLive(cells, size, x, y, offs[3..]) == Bit(Alive(cells, size, x - 1, y)) + CountLive(cells, size, x, y, offs[4..]);
    assert CountLive(cells, size, x, y, offs[2..]) == Bit(Alive(cells, size, x + 1, y - 1)) + CountLive(cells, size, x, y, offs[3..]);
    assert CountLive(cells, size, x, y, offs[1..]) == Bit(Alive(cells, size, x, y - 1)) + CountLive(cells, size, x, y, offs[2..]);
    assert offs[0..] == offs;
  }

  /** Number of rows (or columns) among c - 1, c, c + 1 that exist on a grid of
      side size, for c on the grid. */
  function Span(size: nat, c: int): nat
  {
    1 + Bit(c > 0) + Bit(c < size - 1)
  }

  /** A cell has one existing neighbour per existing cell of the 3x3 block
      around it, itself excluded: 3 for a corner, 5 for an edge, 8 inside
      (0 on a one-cell grid). */
  lemma CandidateCountBySpan(size: nat, x: int, y: int)
    requires InGrid(size, x, y)
    ensures CandidateCount(size, x, y) == Span(size, x) * Span(size, y) - 1
  {
    var offs := MooreOffsets();
    assert CountInGrid(size, x, y, offs[8..]) == 0;
    assert CountInGrid(size, x, y, offs[7..]) == Bit(InGrid(size, x + 1, y + 1));
    assert CountInGrid(size, x, y, offs[6..]) == Bit(InGrid(size, x, y + 1)) + CountInGrid(size, x, y, offs[7..]);
    assert CountInGrid(size, x, y, offs[5..]) == Bit(InGrid(size, x - 1, y + 1)) + CountInGrid(size, x, y, offs[6..]);
    assert CountInGrid(size, x, y, offs[4..]) == Bit(InGrid(size, x + 1, y)) + CountInGrid(size, x, y, offs[5..]);
    assert CountInGrid(size, x, y, offs[3..]) == Bit(InGrid(size, x - 1, y)) + CountInGrid(size, x, y, offs[4..]);
    assert CountInGrid(size, x, y, offs[2..]) == Bit(InGrid(size, x + 1, y - 1)) + CountInGrid(size, x, y, offs[3..]);
    assert CountInGrid(size, x, y, offs[1..]) == Bit(InGrid(size, x, y - 1)) + CountInGrid(size, x, y, offs[2..]);
    assert offs[0..] == offs;
  }

  /** Only neighbours that exist on the grid are counted. */
  lemma {:induction false} CountLiveAtMostInGrid(cells: seq<bool>, size: nat, x: int, y: int, offs: seq<(int, int)>)
    requires |cells| == size * size
    ensures CountLive(cells, size, x, y, offs) <= CountInGrid(size, x, y, offs)
  {
    if offs != [] {
      CountLiveAtMostInGrid(cells, size, x, y, offs[1..]);
    }
  }

  lemma NeighbourCountAtMostCandidates(cells: seq<bool>, size: nat, x: int, y: int)
    requires |cells| == size * size && InGrid(size, x, y)
    ensures NeighbourCount(cells, size, x, y) <= CandidateCount(size, x, y)
    ensures NeighbourCount(cells, size, x, y) <= Span(size, x) * Span(size, y) - 1
  {
    CountLiveAtMostInGrid(cells, size, x, y, MooreOffsets());
    CandidateCountBySpan(size, x, y);
  }

  /** A corner cell has at most three live neighbours. */
  lemma CornerAtMostThree(cells: seq<bool>, size: nat, x: int, y: int)
    requires |cells| == size * size && InGrid(size, x, y)
    requires (x == 0 || x == size - 1) && (y == 0 || y == size - 1)
    ensures NeighbourCount(cells, size, x, y) <= 3
  {
    NeighbourCountAtMostCandidates(cells, size, x, y);
  }

  /** A cell on an edge of the grid has at most five live neighbours. */
  lemma EdgeAtMostFive(cells: seq<bool>, size: nat, x: int, y: int)
    requires |cells| == size * size && InGrid(size, x, y)
    requires x == 0 || x == size - 1 || y == 0 || y == size - 1
    ensures NeighbourCount(cells, size, x, y) <= 5
  {
    NeighbourCountAtMostCandidates(cells, size, x, y);
    assert Span(size, x) <= 2 || Span(size, y) <= 2;
  }

  /** Counting over the same steps in two grids gives the same number when the
      grids agree on whether each stepped-to cell is live. */
  lemma {:induction false} CountLiveAgree(c1: seq<bool>, c2: seq<bool>, size: nat, x: int, y: int, offs: seq<(int, int)>)
    requires |c1| == size * size && |c2| == size * size
    requires forall d :: d in offs ==> Alive(c1, size, x + d.0, y + d.1) == Alive(c2, size, x + d.0, y + d.1)
    ensures CountLive(c1, size, x, y, offs) == CountLive(c2, size, x, y, offs)
  {
    if offs != [] {
      assert offs[0] in offs;
      CountLiveAgree(c1, c2, size, x, y, offs[1..]);
    }
  }

  /** Two grids agree on every Moore neighbour of (x, y). */
  ghost predicate AgreeAround(c1: seq<bool>, c2: seq<bool>, size: nat, x: int, y: int)
    requires |c1| == size * size && |c2| == size * size
  {
    forall a, b :: Near(x, y, a, b) ==> Alive(c1, size, a, b) == Alive(c2, size, a, b)
  }

  /** The neighbour count of (x, y) depends only on its eight neighbours. */
  lemma NeighbourCountLocal(c1: seq<bool>, c2: seq<bool>, size: nat, x: int, y: int)
    requires |c1| == size * size && |c2| == size * size
    requires AgreeAround(c1, c2, size, x, y)
    ensures NeighbourCount(c1, size, x, y) == NeighbourCount(c2, size, x, y)
  {
    forall d | d in MooreOffsets()
      ensures Alive(c1, size, x + d.0, y + d.1) == Alive(c2, size, x + d.0, y + d.1)
    {
      assert Near(x, y, x + d.0, y + d.1);
    }
    CountLiveAgree(c1, c2, size, x, y, MooreOffsets());
  }

  /** Writing a cell that is not a neighbour of (x, y) leaves the neighbour
      count of (x, y) unchanged. */
  lemma NeighbourCountIgnoresOthers(cells: seq<bool>, size: nat, x: int, y: int, a: int, b: int, v: bool)
    requires |cells| == size * size && InGrid(size, a, b) && !Near(x, y, a, b)
    ensures NeighbourCount(cells[Index(size, a, b) := v], size, x, y) == NeighbourCount(cells, size, x, y)
  {
    var updated := cells[Index(size, a, b) := v];
    forall p, q | Near(x, y, p, q)
      ensures Alive(updated, size, p, q) == Alive(cells, size, p, q)
    {
      if InGrid(size, p, q) {
        SetThenGet(cells, size, a, b, v, p, q);
      }
    }
    NeighbourCountLocal(updated, cells, size, x, y);
  }

  /** The neighbour count of (x, y) never counts (x, y) itself. */
  lemma NeighbourCountExcludesSelf(cells: seq<bool>, size: nat, x: int, y: int, v: bool)
    requires |cells| == size * size && InGrid(size, x, y)
    ensures NeighbourCount(cells[Index(size, x, y) := v], size, x, y) == NeighbourCount(cells, size, x, y)
  {
    NeighbourCountIgnoresOthers(cells, size, x, y, x, y, v);
  }

  /** The live Moore neighbours of (x, y) that lie on the grid. */
  function LiveNeighbours(cells: seq<bool>, size: nat, x: int, y: int): set<(int, int)>
    requires |cells| == size * size
  {
    set a, b | x - 1 <= a <= x + 1 && y - 1 <= b <= y + 1 && Near(x, y, a, b) && Alive(cells, size, a, b) :: (a, b)
  }

  /** The live cells reached from (x, y) by the steps in offs. */
  function Reached(cells: seq<bool>, size: nat, x: int, y: int, offs: seq<(int, int)>): set<(int, int)>
    requires |cells| == size * size
  {
    set d | d in offs && Alive(cells, size, x + d.0, y + d.1) :: (x + d.0, y + d.1)
  }

  lemma ReachedCons(cells: seq<bool>, size: nat, x: int, y: int, offs: seq<(int, int)>)
    requires |cells| == size * size && offs != []
    ensures Reached(cells, size, x, y, offs) ==
      (if Alive(cells, size, x + offs[0].0, y + offs[0].1) then {(x + offs[0].0, y + offs[0].1)} else {})
      + Reached(cells, size, x, y, offs[1..])
  {
    forall d | d in offs
      ensures d == offs[0] || d in offs[1..]
    {
    }
  }

  /** A step that occurs once in offs reaches a cell no other step reaches. */
  lemma ReachedOnce(cells: seq<bool>, size: nat, x: int, y: int, offs: seq<(int, int)>)
    requires |cells| == size * size && offs != [] && offs[0] !in offs[1..]
    ensures (x + offs[0].0, y + offs[0].1) !in Reached(cells, size, x, y, offs[1..])
  {
    if (x + offs[0].0, y + offs[0].1) in Reached(cells, size, x, y, offs[1..]) {
      var e :| e in offs[1..] && (x + e.0, y + e.1) == (x + offs[0].0, y + offs[0].1);
      assert false;
    }
  }

  lemma {:induction false} CountLiveIsCardinality(cells: seq<bool>, size: nat, x: int, y: int, offs: seq<(int, int)>)
    requires |cells| == size * size && Distinct(offs)
    ensures CountLive(cells, size, x, y, offs) == |Reached(cells, size, x, y, offs)|
  {
    if offs == [] {
      assert Reached(cells, size, x, y, offs) == {};
    } else {
      assert Distinct(offs[1..]) by {
        forall i, j | 0 <= i < j < |offs[1..]| ensures offs[1..][i] != offs[1..][j] {
          assert offs[i + 1] != offs[j + 1];
        }
      }
      assert offs[0] !in offs[1..] by {
        forall j | 0 <= j < |offs[1..]| ensures offs[1..][j] != offs[0] {
          assert offs[0] != offs[j + 1];
        }
      }
      CountLiveIsCardinality(cells, size, x, y, offs[1..]);
      ReachedCons(cells, size, x, y, offs);
      ReachedOnce(cells, size, x, y, offs);
    }
  }

  /** The neighbour count is the number of live cells (x + dx, y + dy) with
      dx, dy in {-1, 0, 1}, not both zero, and both coordinates on the grid. */
  lemma NeighbourCountIsLiveNeighbours(cells: seq<bool>, size: nat, x: int, y: int)
    requires |cells| == size * size
    ensures NeighbourCount(cells, size, x, y) == |LiveNeighbours(cells, size, x, y)|
  {
    var reached, live := Reached(cells, size, x, y, MooreOffsets()), LiveNeighbours(cells, size, x, y);
    CountLiveIsCardinality(cells, size, x, y, MooreOffsets());
    LiveNeighboursReached(cells, size, x, y);
    ReachedLiveNeighbours(cells, size, x, y);
    assert reached == live;
  }

  lemma LiveNeighboursReached(cells: seq<bool>, size: nat, x: int, y: int)
    requires |cells| == size * size
    ensures LiveNeighbours(cells, size, x, y) <= Reached(cells, size, x, y, MooreOffsets())
  {
    forall p | p in LiveNeighbours(cells, size, x, y)
      ensures p in Reached(cells, size, x, y, MooreOffsets())
    {
      var d := (p.0 - x, p.1 - y);
      assert d in MooreOffsets() && p == (x + d.0, y + d.1);
    }
  }

  lemma ReachedLiveNeighbours(cells: seq<bool>, size: nat, x: int, y: int)
    requires |cells| == size * size
    ensures Reached(cells, size, x, y, MooreOffsets()) <= LiveNeighbours(cells, size, x, y)
  {
    forall p | p in Reached(cells, size, x, y, MooreOffsets())
      ensures p in LiveNeighbours(cells, size, x, y)
    {
      var d :| d in MooreOffsets() && Alive(cells, size, x + d.0, y + d.1) && p == (x + d.0, y + d.1);
      assert Near(x, y, p.0, p.1);
    }
  }

  /** The grid after one generation: each cell becomes what the rule makes of
      its live-neighbour count in the given grid. */
  function Step(cells: seq<bool>, size: nat, rule: int -> bool): (next: seq<bool>)
    requires |cells| == size * size
    ensures |next| == size * size
  {
    seq(size * size, k requires 0 <= k < size * size => rule(NeighbourCount(cells, size, k / size, k % size)))
  }

  /** Cell (x, y) of the next generation is the rule applied to the number of
      live neighbours (x, y) had in the previous generation. */
  lemma StepAt(cells: seq<bool>, size: nat, rule: int -> bool, x: int, y: int)
    requires |cells| == size * size && InGrid(size, x, y)
    ensures Cell(Step(cells, size, rule), size, x, y) == rule(NeighbourCount(cells, size, x, y))
  {
    IndexCoords(size, x, y);
  }

  /** Cells with equal neighbour counts before a step have equal states after it. */
  lemma StepEqualCounts(cells: seq<bool>, size: nat, rule: int -> bool, x1: int, y1: int, x2: int, y2: int)
    requires |cells| == size * size && InGrid(size, x1, y1) && InGrid(size, x2, y2)
    requires NeighbourCount(cells, size, x1, y1) == NeighbourCount(cells, size, x2, y2)
    ensures Cell(Step(cells, size, rule), size, x1, y1) == Cell(Step(cells, size, rule), size, x2, y2)
  {
    StepAt(cells, size, rule, x1, y1);
    StepAt(cells, size, rule, x2, y2);
  }

  /** A cell's next state depends only on its neighbours in the previous grid. */
  lemma StepLocal(c1: seq<bool>, c2: seq<bool>, size: nat, rule: int -> bool, x: int, y: int)
    requires |c1| == size * size && |c2| == size * size && InGrid(size, x, y)
    requires AgreeAround(c1, c2, size, x, y)
    ensures Cell(Step(c1, size, rule), size, x, y) == Cell(Step(c2, size, rule), size, x, y)
  {
    NeighbourCountLocal(c1, c2, size, x, y);
    StepAt(c1, size, rule, x, y);
    StepAt(c2, size, rule, x, y);
  }

  /** The rule sees only the neighbour count, so a cell's own state does not
      influence its next state. */
  lemma StepIgnoresOwnState(cells: seq<bool>, size: nat, rule: int -> bool, x: int, y: int, v: bool)
    requires |cells| == size * size && InGrid(size, x, y)
    ensures Cell(Step(cells[Index(size, x, y) := v], size, rule), size, x, y) == Cell(Step(cells, size, rule), size, x, y)
  {
    NeighbourCountExcludesSelf(cells, size, x, y, v);
    StepAt(cells[Index(size, x, y) := v], size, rule, x, y);
    StepAt(cells, size, rule, x, y);
  }
}
