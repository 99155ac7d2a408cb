/** The neighbour count exactly as the guards of `total_alive_neighbours` are
    written, with `x < size` and `y < size` as the upper-edge tests. Each read
    uses the position `x * size + y` that `__setitem__` writes, that is a
    `__getitem__` whose `*key` unpacking is repaired. A read at
    a buffer position past the end raises an index error; a read at
    `y + 1 == size` lands in column 0 of the next row. The corrected count is
    `Life.State.TotalAliveNeighbours`, specified by `Grid.NeighbourCount`. */
module AsWritten {
  import opened Grid

  datatype Option<T> = None | Some(value: T)

  /** The upper guards as written: a coordinate may reach size, one past the
      last row or column; the lower guards keep it at 0 or more. */
  predicate InGridAsWritten(size: nat, a: int, b: int)
  {
    0 <= a <= size && 0 <= b <= size
  }

  /** The eight guarded reads for cell (x, y), in the order they happen:
      each is the guard as written and the buffer position read when it holds. */
  function GuardedReads(size: nat, x: int, y: int): (guarded: seq<(bool, int)>)
    requires InGrid(size, x, y)
    ensures |guarded| == 8
  {
    [ (x > 0 && y > 0, (x - 1) * size + (y - 1)),
      (y > 0, x * size + (y - 1)),
      (x < size && y > 0, (x + 1) * size + (y - 1)),
      (x > 0, (x - 1) * size + y),
      (x < size, (x + 1) * size + y),
      (x > 0 && y < size, (x - 1) * size + (y + 1)),
      (y < size, x * size + (y + 1)),
      (x < size && y < size, (x + 1) * size + (y + 1)) ]
  }

  /** Read i steps to the neighbour (a, b) by the i-th Moore step; its guard
      as written holds exactly when both coordinates lie in [0, size], and it
      reads position a * size + b. */
  lemma GuardedReadsAt(size: nat, x: int, y: int, i: int)
    requires InGrid(size, x, y) && 0 <= i < 8
    ensures var a, b := x + MooreOffsets()[i].0, y + MooreOffsets()[i].1;
      GuardedReads(size, x, y)[i] == (InGridAsWritten(size, a, b), a * size + b)
  {
  }

  /** Performs the reads whose guard holds, in order, and counts the live
      cells read; None stands for the index error raised by the first read
      outside the buffer. */
  function CountRead(cells: seq<bool>, guarded: seq<(bool, int)>): (r: Option<nat>)
    ensures r.Some? ==> r.value <= |guarded|
  {
    if guarded == [] then Some(0)
    else if !guarded[0].0 then CountRead(cells, guarded[1..])
    else if !(0 <= guarded[0].1 < |cells|) then None
    else match CountRead(cells, guarded[1..])
      case None => None
      case Some(n) => Some(Bit(cells[guarded[0].1]) + n)
  }

  /** The reads fail exactly when some read whose guard holds is outside the
      buffer. */
  lemma {:induction false} CountReadFails(cells: seq<bool>, guarded: seq<(bool, int)>)
    ensures CountRead(cells, guarded).None? <==> exists g :: g in guarded && g.0 && !(0 <= g.1 < |cells|)
  {
    if guarded != [] {
      CountReadFails(cells, guarded[1..]);
      assert forall g :: g in guarded <==> g == guarded[0] || g in guarded[1..];
    }
  }

  /** `total_alive_neighbours` as written, for a cell on the grid. */
  function Count(cells: seq<bool>, size: nat, x: int, y: int): (r: Option<nat>)
    requires |cells| == size * size && InGrid(size, x, y)
    ensures r.Some? ==> r.value <= 8
  {
    CountRead(cells, GuardedReads(size, x, y))
  }

  /** On the last row x = size - 1 the guard `x < size` lets the read of
      (x + 1, y) through, at position size * size + y, past the end of the
      buffer: every cell of that row raises an index error, so a generation
      step, which visits that row, never completes. */
  lemma LastRowReadsPastEnd(cells: seq<bool>, size: nat, y: int)
    requires |cells| == size * size && InGrid(size, size - 1, y)
    ensures Count(cells, size, size - 1, y).None?
  {
    var k := size * size + y;
    assert (size - 1 + 1) * size + y == k;
    assert (true, k) in GuardedReads(size, size - 1, y);
    CountReadFails(cells, GuardedReads(size, size - 1, y));
  }

  /** In the last column y = size - 1 the guard `y < size` lets the read of
      (x, y + 1) through, at the position of (x + 1, 0), which for a grid of
      side 3 or more is not a neighbour of (x, y). */
  lemma LastColumnReadsNextRow(size: nat, x: int)
    requires InGrid(size, x + 1, size - 1) && x >= 0
    ensures (true, Index(size, x + 1, 0)) in GuardedReads(size, x, size - 1)
    ensures size >= 3 ==> !Near(x, size - 1, x + 1, 0)
  {
  }

  /** A concrete grid that shows it: side 3, only (1, 0) live. Cell (0, 2) has
      no live neighbour, yet the as-written count reads (1, 0) in place of
      the missing (0, 3) and reports one. */
  lemma LastColumnMiscounts()
    ensures Count([false, false, false, true, false, false, false, false, false], 3, 0, 2) == Some(1)
    ensures NeighbourCount([false, false, false, true, false, false, false, false, false], 3, 0, 2) == 0
  {
    var cells := [false, false, false, true, false, false, false, false, false];
    var guarded := [(false, -2), (true, 1), (true, 4), (false, -1), (true, 5), (false, 0), (true, 3), (true, 6)];
    assert GuardedReads(3, 0, 2) == guarded;
    assert CountRead(cells, guarded[7..]) == Some(0);
    assert CountRead(cells, guarded[6..]) == Some(1);
    assert CountRead(cells, guarded[5..]) == Some(1);
    assert CountRead(cells, guarded[4..]) == Some(1);
    assert CountRead(cells, guarded[3..]) == Some(1);
    assert CountRead(cells, guarded[2..]) == Some(1);
    assert CountRead(cells, guarded[1..]) == Some(1);
    NeighbourCountUnrolled(cells, 3, 0, 2);
    assert !Alive(cells, 3, 0, 1) && !Alive(cells, 3, 1, 1) && !Alive(cells, 3, 1, 2);
  }

  /** A guarded read of cell (a, b), whose guard holds exactly when (a, b)
      is on the grid, adds one when that cell is live. */
  lemma ReadStep(cells: seq<bool>, size: nat, guarded: seq<(bool, int)>, a: int, b: int)
    requires |cells| == size * size && guarded != []
    requires guarded[0].0 <==> InGrid(size, a, b)
    requires guarded[0].0 ==> guarded[0].1 == a * size + b
    requires CountRead(cells, guarded[1..]).Some?
    ensures CountRead(cells, guarded) == Some(Bit(Alive(cells, size, a, b)) + CountRead(cells, guarded[1..]).value)
  {
  }

  /** Away from the last row and the last column the literal guards agree
      with the corrected ones, and so does the count. */
  lemma AgreesAwayFromUpperEdges(cells: seq<bool>, size: nat, x: int, y: int)
    requires |cells| == size * size && InGrid(size, x, y)
    requires x < size - 1 && y < size - 1
    ensures Count(cells, size, x, y) == Some(NeighbourCount(cells, size, x, y))
  {
    var guarded := GuardedReads(size, x, y);
    assert CountRead(cells, guarded[8..]) == Some(0);
    ReadStep(cells, size, guarded[7..], x + 1, y + 1);
    ReadStep(cells, size, guarded[6..], x, y + 1);
    ReadStep(cells, size, guarded[5..], x - 1, y + 1);
    ReadStep(cells, size, guarded[4..], x + 1, y);
    ReadStep(cells, size, guarded[3..], x - 1, y);
    ReadStep(cells, size, guarded[2..], x + 1, y - 1);
    ReadStep(cells, size, guarded[1..], x, y - 1);
    ReadStep(cells, size, guarded[0..], x - 1, y - 1);
    assert guarded[0..] == guarded;
    NeighbourCountUnrolled(cells, size, x, y);
  }
}
