/** The world state of the Game of Life: a square grid whose cells live in one
    mutable row-major buffer of `size * size` booleans (live = true). The
    buffer is updated in place one cell at a time; a generation step fills a
    freshly allocated state from the neighbour counts of this one. */
module Life {
  import opened Grid

  class State {
    const size: nat
    const data: array<bool>

    ghost predicate Valid()
    {
      data.Length == size * size
    }

    /** The cells, row-major: cell (x, y) is at position x * size + y. */
    function Cells(): seq<bool>
      reads data
    {
      data[..]
    }

    /** A world of size * size cells, every one of them dead. */
    constructor (size: nat)
      ensures this.size == size && Valid() && fresh(data)
      ensures |Cells()| == size * size
      ensures forall k :: 0 <= k < |Cells()| ==> !Cells()[k]
    {
      this.size := size;
      data := new bool[size * size](_ => false);
    }

    /** The state of cell (x, y), read at position x * size + y. */
    function Get(x: int, y: int): (alive: bool)
      reads data
      requires Valid() && InGrid(size, x, y)
      ensures alive == Cell(Cells(), size, x, y)
    {
      data[Index(size, x, y)]
    }

    /** Makes cell (x, y) live or dead; no other cell changes. */
    method Set(x: int, y: int, value: bool)
      requires Valid() && InGrid(size, x, y)
      modifies data
      ensures Cells() == old(Cells())[Index(size, x, y) := value]
      ensures Get(x, y) == value
      ensures forall a, b :: InGrid(size, a, b) && (a, b) != (x, y) ==> Get(a, b) == old(Get(a, b))
    {
      data[Index(size, x, y)] := value;
      forall a, b | InGrid(size, a, b)
        ensures Get(a, b) == if (a, b) == (x, y) then value else old(Get(a, b))
      {
        SetThenGet(old(Cells()), size, x, y, value, a, b);
      }
    }

    /** All cells row by row, x outer and y inner: size * size values, the one
        at position x * size + y being cell (x, y). */
    method Iterate() returns (values: seq<bool>)
      requires Valid()
      ensures |values| == size * size
      ensures forall x, y :: InGrid(size, x, y) ==> values[Index(size, x, y)] == Get(x, y)
      ensures values == Cells()
    {
      values := [];
      var i, rowStart := 0, 0;
      while i < size
        invariant 0 <= i <= size && rowStart == i * size
        invariant rowStart <= size * size
        invariant values == data[..rowStart]
      {
        assert rowStart + size == (i + 1) * size;
        MulMonotone(i + 1, size, size);
        var j := 0;
        while j < size
          invariant 0 <= j <= size
          invariant values == data[..rowStart + j]
        {
          assert Get(i, j) == data[rowStart + j];
          values := values + [Get(i, j)];
          j := j + 1;
        }
        i, rowStart := i + 1, rowStart + size;
      }
      assert data[..size * size] == data[..];
    }

    /** Number of live Moore neighbours of (x, y) that lie on the grid, counted
        by eight guarded reads with `size - 1` as the largest coordinate. */
    method TotalAliveNeighbours(x: int, y: int) returns (liveNeighbours: nat)
      requires Valid() && InGrid(size, x, y)
      ensures liveNeighbours == NeighbourCount(Cells(), size, x, y)
      ensures liveNeighbours <= 8
    {
      ghost var cells := Cells();
      ghost var firstFour := Bit(Alive(cells, size, x - 1, y - 1)) + Bit(Alive(cells, size, x, y - 1))
                             + Bit(Alive(cells, size, x + 1, y - 1)) + Bit(Alive(cells, size, x - 1, y));
      ghost var lastFour := Bit(Alive(cells, size, x + 1, y)) + Bit(Alive(cells, size, x - 1, y + 1))
                            + Bit(Alive(cells, size, x, y + 1)) + Bit(Alive(cells, size, x + 1, y + 1));
      var maxIndex := size - 1;
      liveNeighbours := 0;
      if x > 0 && y > 0 {
        if Get(x - 1, y - 1) {
          liveNeighbours := liveNeighbours + 1;
        }
      }
      if y > 0 {
        if Get(x, y - 1) {
          liveNeighbours := liveNeighbours + 1;
        }
      }
      if x < maxIndex && y > 0 {
        if Get(x + 1, y - 1) {
          liveNeighbours := liveNeighbours + 1;
        }
      }
      if x > 0 {
        if Get(x - 1, y) {
          liveNeighbours := liveNeighbours + 1;
        }
      }
      assert liveNeighbours == firstFour;
      if x < maxIndex {
        if Get(x + 1, y) {
          liveNeighbours := liveNeighbours + 1;
        }
      }
      if x > 0 && y < maxIndex {
        if Get(x - 1, y + 1) {
          liveNeighbours := liveNeighbours + 1;
        }
      }
      if y < maxIndex {
        if Get(x, y + 1) {
          liveNeighbours := liveNeighbours + 1;
        }
      }
      if x < maxIndex && y < maxIndex {
        if Get(x + 1, y + 1) {
          liveNeighbours := liveNeighbours + 1;
        }
      }
      assert liveNeighbours == firstFour + lastFour;
      NeighbourCountUnrolled(cells, size, x, y);
    }

    /** The next generation, as a new state of the same size: every cell is
        the rule applied to the live-neighbour count of that cell in this
        state. This state is left as it was. */
    method ApplyRuleSet(rule: int -> bool) returns (next: State)
      requires Valid()
      ensures fresh(next) && fresh(next.data) && next.Valid() && next.size == size
      ensures next.Cells() == Step(Cells(), size, rule)
      ensures unchanged(data)
    {
      next := new State(size);
      var i := 0;
      while i < size
        invariant 0 <= i <= size
        invariant fresh(next.data) && next.Valid() && next.size == size
        invariant forall a, b :: 0 <= a < i && 0 <= b < size ==>
                    next.Get(a, b) == rule(NeighbourCount(Cells(), size, a, b))
      {
        var j := 0;
        while j < size
          invariant 0 <= j <= size
          invariant forall a, b :: InGrid(size, a, b) && (a < i || (a == i && b < j)) ==>
                      next.Get(a, b) == rule(NeighbourCount(Cells(), size, a, b))
        {
          var n := TotalAliveNeighbours(i, j);
          next.Set(i, j, rule(n));
          j := j + 1;
        }
        i := i + 1;
      }
      forall k | 0 <= k < size * size
        ensures next.Cells()[k] == Step(Cells(), size, rule)[k]
      {
        IndexDivMod(size, k);
      }
    }
  }
}
