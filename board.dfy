/**
 *  The board: its snake and ladder tables and the arithmetic that places
 *  cell `n` (1..100) on the 10x10 CSS grid, row 1 at the top, numbered in
 *  boustrophedon order from the bottom-left corner.
 */
module Board {

  import opened Options
  import opened JsNumber

  /** The two transport tables: snake head -> tail, ladder bottom -> top. */
  datatype Topology = Topology(snakes: map<int, int>, ladders: map<int, int>)

  const Size := 100

  const DefaultSnakes: map<int, int> :=
    map[16 := 6, 47 := 26, 49 := 11, 56 := 53, 62 := 19,
        64 := 60, 87 := 24, 93 := 73, 95 := 75, 98 := 78]

  const DefaultLadders: map<int, int> :=
    map[1 := 38, 4 := 14, 9 := 31, 21 := 42, 28 := 84,
        36 := 44, 51 := 67, 71 := 91, 80 := 100]

  const DefaultBoard := Topology(DefaultSnakes, DefaultLadders)

  // The key lists of the two default tables, spelled out for case analysis.
  predicate IsSnakeHead(c: int)
  {
    c == 16 || c == 47 || c == 49 || c == 56 || c == 62 || c == 64 || c == 87 || c == 93 || c == 95 || c == 98
  }

  predicate IsLadderBottom(c: int)
  {
    c == 1 || c == 4 || c == 9 || c == 21 || c == 28 || c == 36 || c == 51 || c == 71 || c == 80
  }

  /** Snakes go down, ladders go up, no cell holds both, and every cell is on the board. */
  predicate WellFormed(b: Topology)
  {
    (forall h :: h in b.snakes ==> 1 <= b.snakes[h] < h <= Size) &&
    (forall l :: l in b.ladders ==> 1 <= l < b.ladders[l] <= Size) &&
    (forall c :: c in b.snakes ==> c !in b.ladders)
  }

  lemma DefaultBoardWellFormed()
    ensures WellFormed(DefaultBoard)
  {
    forall h | h in DefaultSnakes
      ensures 1 <= DefaultSnakes[h] < h <= Size && h !in DefaultLadders
    {
      assert IsSnakeHead(h);
    }
    forall l | l in DefaultLadders
      ensures 1 <= l < DefaultLadders[l] <= Size
    {
      assert IsLadderBottom(l);
    }
  }

  lemma SnakeHeads(c: int)
    ensures c in DefaultSnakes <==> IsSnakeHead(c)
  {
  }

  lemma LadderBottoms(c: int)
    ensures c in DefaultLadders <==> IsLadderBottom(c)
  {
  }

  /** No destination of the default tables is itself a snake head or a ladder bottom. */
  lemma DefaultBoardHasNoChains()
    ensures forall h :: h in DefaultSnakes ==> DefaultSnakes[h] !in DefaultSnakes && DefaultSnakes[h] !in DefaultLadders
    ensures forall l :: l in DefaultLadders ==> DefaultLadders[l] !in DefaultSnakes && DefaultLadders[l] !in DefaultLadders
  {
    forall h | h in DefaultSnakes
      ensures DefaultSnakes[h] !in DefaultSnakes && DefaultSnakes[h] !in DefaultLadders
    {
      assert IsSnakeHead(h);
      SnakeHeads(DefaultSnakes[h]);
      LadderBottoms(DefaultSnakes[h]);
    }
    forall l | l in DefaultLadders
      ensures DefaultLadders[l] !in DefaultSnakes && DefaultLadders[l] !in DefaultLadders
    {
      assert IsLadderBottom(l);
      SnakeHeads(DefaultLadders[l]);
      LadderBottoms(DefaultLadders[l]);
    }
  }

  /** `table[cell]` read as a JavaScript condition: a missing key and the value 0 are both falsy. */
  function Lookup(table: map<int, int>, cell: int): (r: Option<int>)
    ensures r.Some? <==> cell in table && table[cell] != 0
    ensures r.Some? ==> r.value == table[cell]
  {
    if cell in table && table[cell] != 0 then Some(table[cell]) else None
  }

  /** The one transport a landing on `cell` triggers: a snake head is checked before a ladder bottom. */
  function TransportFrom(b: Topology, cell: int): (r: Option<int>)
    ensures r.Some? ==> (cell in b.snakes || cell in b.ladders) && r.value != 0
    ensures cell in b.snakes && b.snakes[cell] != 0 ==> r == Some(b.snakes[cell])
    ensures !(cell in b.snakes && b.snakes[cell] != 0) ==> r == Lookup(b.ladders, cell)
  {
    match Lookup(b.snakes, cell)
    case Some(tail) => Some(tail)
    case None => Lookup(b.ladders, cell)
  }

  /** On a well-formed board a transport exists exactly at the table keys, and it moves the right way. */
  lemma TransportOnWellFormed(b: Topology, cell: int)
    requires WellFormed(b)
    ensures TransportFrom(b, cell).Some? <==> cell in b.snakes || cell in b.ladders
    ensures cell in b.snakes ==> TransportFrom(b, cell) == Some(b.snakes[cell]) && b.snakes[cell] < cell
    ensures cell in b.ladders ==> TransportFrom(b, cell) == Some(b.ladders[cell]) && b.ladders[cell] > cell
    ensures TransportFrom(b, cell).Some? ==> 1 <= TransportFrom(b, cell).value <= Size
  {
  }

  /** The position `{ row, col }` of a cell in the CSS grid. */
  datatype GridPosition = GridPosition(row: int, col: int)

  function GetGridPosition(n: int): (g: GridPosition)
    ensures 1 <= n <= Size ==> 1 <= g.row <= 10 && 1 <= g.col <= 10
  {
    var r := (n - 1) / 10;  // Math.floor: Dafny's division by a positive divisor rounds down too
    var visualRow := 10 - r;
    var visualCol := if JsRem(r, 2) == 0 then JsRem(n - 1, 10) + 1 else 10 - JsRem(n - 1, 10);
    GridPosition(visualRow, visualCol)
  }

  /** The cell drawn at a grid slot: the inverse of GetGridPosition. */
  function CellAt(g: GridPosition): int
  {
    var r := 10 - g.row;
    var offset := if r % 2 == 0 then g.col - 1 else 10 - g.col;
    10 * r + offset + 1
  }

  lemma {:induction false} GridPositionRoundTrip(n: int)
    requires 1 <= n <= Size
    ensures CellAt(GetGridPosition(n)) == n
  {
    JsRemNonNegative(n - 1, 10);
    JsRemNonNegative((n - 1) / 10, 2);
  }

  lemma {:induction false} CellAtRoundTrip(g: GridPosition)
    requires 1 <= g.row <= 10 && 1 <= g.col <= 10
    ensures 1 <= CellAt(g) <= Size && GetGridPosition(CellAt(g)) == g
  {
    var r := 10 - g.row;
    var offset := if r % 2 == 0 then g.col - 1 else 10 - g.col;
    assert 0 <= offset < 10;
    var n := CellAt(g);
    assert n - 1 == 10 * r + offset;
    assert (n - 1) / 10 == r && (n - 1) % 10 == offset;
    JsRemNonNegative(n - 1, 10);
    JsRemNonNegative(r, 2);
  }

  /** Distinct cells get distinct grid slots, so the hundred cells fill the grid exactly once. */
  lemma GridPositionInjective(m: int, n: int)
    requires 1 <= m <= Size && 1 <= n <= Size
    requires GetGridPosition(m) == GetGridPosition(n)
    ensures m == n
  {
    GridPositionRoundTrip(m);
    GridPositionRoundTrip(n);
  }

  /** Cells 1-10 form the bottom row and cells 91-100 the top row. */
  lemma GridRowBands(n: int)
    requires 1 <= n <= Size
    ensures n <= 10 <==> GetGridPosition(n).row == 10
    ensures n >= 91 <==> GetGridPosition(n).row == 1
  {
  }

  /** The boustrophedon path: each cell's successor is its grid neighbour, sideways inside a band and straight up at a band's end. */
  lemma {:induction false} GridSuccessorAdjacent(n: int)
    requires 1 <= n < Size
    ensures n % 10 != 0 ==>
      GetGridPosition(n + 1).row == GetGridPosition(n).row &&
      Abs(GetGridPosition(n + 1).col - GetGridPosition(n).col) == 1
    ensures n % 10 == 0 ==>
      GetGridPosition(n + 1).row == GetGridPosition(n).row - 1 &&
      GetGridPosition(n + 1).col == GetGridPosition(n).col
  {
    JsRemNonNegative(n - 1, 10);
    JsRemNonNegative(n, 10);
    JsRemNonNegative((n - 1) / 10, 2);
    JsRemNonNegative(n / 10, 2);
  }

  lemma GridCorners()
    ensures GetGridPosition(1) == GridPosition(10, 1)
    ensures GetGridPosition(10) == GridPosition(10, 10) && GetGridPosition(11) == GridPosition(9, 10)
    ensures GetGridPosition(100) == GridPosition(1, 1)
  {
    JsRemNonNegative(0, 10);
    JsRemNonNegative(9, 10);
    JsRemNonNegative(10, 10);
    JsRemNonNegative(99, 10);
    JsRemNonNegative(0, 2);
    JsRemNonNegative(1, 2);
    JsRemNonNegative(9, 2);
  }
}
