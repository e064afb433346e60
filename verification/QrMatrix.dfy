/** Placement, masking and format information of a QR symbol over an arbitrary
    set of function cells, with the reader that recovers the placed bits. */
module QrMatrix {
  import opened Bits
  import opened QrBits

  type Cell = (int, int)
  type Grid = map<Cell, bit>

  /** Side length of version v. */
  predicate IsSide(n: nat) {
    n >= 21 && n % 4 == 1
  }

  lemma SideOfVersion(v: nat)
    requires v >= 1
    ensures IsSide(4 * v + 17)
  {
  }

  // ---- the zigzag ---------------------------------------------------------------------

  /** Right column of the k-th column pair; column 6 is stepped over. */
  function Right(n: nat, k: nat): int {
    if n - 1 - 2 * k > 6 then n - 1 - 2 * k else n - 2 - 2 * k
  }

  /** The cell visited at row counter row, half dc, of column pair k. */
  function CellOf(n: nat, k: nat, row: nat, dc: nat): Cell {
    (if k % 2 == 0 then n - 1 - row else row, Right(n, k) - dc)
  }

  /** The t-th visited cell: two cells a row, n rows a pair. */
  function CellAt(n: nat, t: nat): Cell
    requires n > 0
  {
    CellOf(n, t / 2 / n, t / 2 % n, t % 2)
  }

  function Steps(n: nat): nat {
    2 * (n * (n / 2))
  }

  /** Position of a column, counted from the right with column 6 left out. */
  function ColumnIndex(n: nat, c: int): int {
    if c > 6 then n - 1 - c else n - 2 - c
  }

  /** The step at which a cell outside column 6 is visited. */
  function StepOf(n: nat, cell: Cell): int {
    var d := ColumnIndex(n, cell.1);
    var k := d / 2;
    var row := if k % 2 == 0 then n - 1 - cell.0 else cell.0;
    2 * (n * k + row) + d % 2
  }

  ghost predicate InSymbol(n: nat, cell: Cell) {
    0 <= cell.0 < n && 0 <= cell.1 < n && cell.1 != 6
  }

  lemma {:induction false} StepParts(n: nat, k: nat, row: nat, dc: nat)
    requires row < n && dc < 2
    ensures var t := 2 * (n * k + row) + dc; t / 2 / n == k && t / 2 % n == row && t % 2 == dc
  {
    var t := 2 * (n * k + row) + dc;
    assert t / 2 == n * k + row;
    DivUnique(n * k + row, n, k, row);
  }

  lemma {:induction false} StepBound(n: nat, t: nat)
    requires IsSide(n) && t < Steps(n)
    ensures t / 2 / n < n / 2
    ensures t == 2 * (n * (t / 2 / n) + t / 2 % n) + t % 2
  {
    var h := t / 2;
    var k := h / n;
    assert h == n * k + h % n;
    if k >= n / 2 { MulMono(n, n / 2, k); }
  }

  lemma {:induction false} ColumnOfPair(n: nat, k: nat, dc: nat)
    requires IsSide(n) && k < n / 2 && dc < 2
    ensures 0 <= Right(n, k) - dc < n && Right(n, k) - dc != 6
    ensures ColumnIndex(n, Right(n, k) - dc) == 2 * k + dc
  {
  }

  lemma {:induction false} PairOfColumn(n: nat, c: nat, d: int)
    requires IsSide(n) && c < n && c != 6 && d == ColumnIndex(n, c)
    ensures 0 <= d && d / 2 < n / 2 && Right(n, d / 2) - d % 2 == c
  {
    assert d == 2 * (d / 2) + d % 2;
  }

  /** Every step visits a cell of the symbol outside column 6, at the step StepOf names. */
  lemma {:induction false} CellAtStep(n: nat, t: nat)
    requires IsSide(n) && t < Steps(n)
    ensures InSymbol(n, CellAt(n, t)) && StepOf(n, CellAt(n, t)) == t
  {
    StepBound(n, t);
    StepOfCellOf(n, t / 2 / n, t / 2 % n, t % 2);
  }

  lemma {:induction false} StepOfCellOf(n: nat, k: nat, row: nat, dc: nat)
    requires IsSide(n) && k < n / 2 && row < n && dc < 2
    ensures InSymbol(n, CellOf(n, k, row, dc))
    ensures StepOf(n, CellOf(n, k, row, dc)) == 2 * (n * k + row) + dc
  {
    ColumnOfPair(n, k, dc);
    var d := 2 * k + dc;
    assert d / 2 == k && d % 2 == dc;
  }

  /** ... and every such cell is visited, at that step. */
  lemma {:induction false} StepOfCell(n: nat, cell: Cell)
    requires IsSide(n) && InSymbol(n, cell)
    ensures 0 <= StepOf(n, cell) < Steps(n) && CellAt(n, StepOf(n, cell)) == cell
  {
    hide Right, Steps;
    var d := ColumnIndex(n, cell.1);
    var k := d / 2;
    var row := if k % 2 == 0 then n - 1 - cell.0 else cell.0;
    PairOfColumn(n, cell.1, d);
    StepParts(n, k, row, d % 2);
    StepFits(n, k, row, d % 2);
  }

  lemma {:induction false} StepFits(n: nat, k: nat, row: nat, dc: nat)
    requires k < n / 2 && row < n && dc < 2
    ensures 2 * (n * k + row) + dc < Steps(n)
  {
    MulMono(n, k + 1, n / 2);
    assert n * (k + 1) == n * k + n;
  }

  lemma {:induction false} CellAtInjective(n: nat, t: nat, u: nat)
    requires IsSide(n) && t < u < Steps(n)
    ensures CellAt(n, t) != CellAt(n, u)
  {
    CellAtStep(n, t);
    CellAtStep(n, u);
  }

  // ---- the free cells in scan order -----------------------------------------------------

  /** The cells outside fn among the first t visited. */
  function Scan(n: nat, fn: set<Cell>, t: nat): seq<Cell>
    requires n > 0
    decreases t, n
  {
    if t == 0 then []
    else Scan(n, fn, t - 1) + if CellAt(n, t - 1) in fn then [] else [CellAt(n, t - 1)]
  }

  lemma {:induction false} ScanPrefix(n: nat, fn: set<Cell>, t: nat, u: nat)
    requires n > 0 && t <= u
    ensures Scan(n, fn, t) <= Scan(n, fn, u)
    decreases u
  {
    if t == u {
    } else {
      ScanPrefix(n, fn, t, u - 1);
    }
  }

  lemma {:induction false} ScanMember(n: nat, fn: set<Cell>, t: nat, cell: Cell)
    requires n > 0
    ensures cell in Scan(n, fn, t) <==> cell !in fn && exists u :: 0 <= u < t && CellAt(n, u) == cell
    decreases t
  {
    if t == 0 {
    } else {
      ScanMember(n, fn, t - 1, cell);
    }
  }

  /** The free cells are visited once each ... */
  lemma {:induction false} ScanDistinct(n: nat, fn: set<Cell>, t: nat)
    requires IsSide(n) && t <= Steps(n)
    ensures forall i, j :: 0 <= i < j < |Scan(n, fn, t)| ==> Scan(n, fn, t)[i] != Scan(n, fn, t)[j]
    decreases t
  {
    if t == 0 {
    } else {
      var c := CellAt(n, t - 1);
      ScanDistinct(n, fn, t - 1);
      ScanMember(n, fn, t - 1, c);
      forall u | 0 <= u < t - 1 ensures CellAt(n, u) != c { CellAtInjective(n, u, t - 1); }
    }
  }

  /** ... and they are all the cells outside column 6 and the function cells. */
  lemma {:induction false} ScanCovers(n: nat, fn: set<Cell>, cell: Cell)
    requires IsSide(n)
    ensures cell in Scan(n, fn, Steps(n)) <==> InSymbol(n, cell) && cell !in fn
  {
    ScanMember(n, fn, Steps(n), cell);
    if InSymbol(n, cell) { StepOfCell(n, cell); }
    forall u | 0 <= u < Steps(n) && CellAt(n, u) == cell ensures InSymbol(n, cell) { CellAtStep(n, u); }
  }

  // ---- placing and reading --------------------------------------------------------------

  /** The first k bits written to the first k cells. */
  function Placed(g: Grid, cells: seq<Cell>, bits: seq<bit>, k: nat): Grid
    requires k <= |cells| && k <= |bits|
    decreases k, |bits|
  {
    if k == 0 then g else Placed(g, cells, bits, k - 1)[cells[k - 1] := bits[k - 1]]
  }

  function BitIn(g: Grid, cell: Cell): bit {
    if cell in g then g[cell] else 0
  }

  function Cellwise(g: Grid, cells: seq<Cell>, k: nat): seq<bit>
    requires k <= |cells|
  {
    seq(k, i requires 0 <= i < k => BitIn(g, cells[i]))
  }

  lemma {:induction false} PlacedAt(g: Grid, cells: seq<Cell>, bits: seq<bit>, k: nat, cell: Cell)
    requires k <= |cells| && k <= |bits|
    requires forall i, j :: 0 <= i < j < |cells| ==> cells[i] != cells[j]
    ensures var p := Placed(g, cells, bits, k);
            && p.Keys == g.Keys + (set i | 0 <= i < k :: cells[i])
            && (forall i :: 0 <= i < k && cells[i] == cell ==> p[cell] == bits[i])
            && (cell in g && cell !in cells[..k] ==> p[cell] == g[cell])
    decreases k
  {
    if k == 0 {
    } else {
      PlacedAt(g, cells, bits, k - 1, cell);
      assert cells[..k] == cells[..k - 1] + [cells[k - 1]];
    }
  }

  // ---- masking ------------------------------------------------------------------------------

  /** The eight mask predicates. */
  predicate MaskBit(m: nat, r: nat, c: nat) {
    if m == 0 then (r + c) % 2 == 0
    else if m == 1 then r % 2 == 0
    else if m == 2 then c % 3 == 0
    else if m == 3 then (r + c) % 3 == 0
    else if m == 4 then (r / 2 + c / 3) % 2 == 0
    else if m == 5 then r * c % 2 + r * c % 3 == 0
    else if m == 6 then (r * c % 2 + r * c % 3) % 2 == 0
    else ((r + c) % 2 + r * c % 3) % 2 == 0
  }

  predicate Flips(fn: set<Cell>, m: nat, cell: Cell) {
    cell !in fn && cell.0 >= 0 && cell.1 >= 0 && MaskBit(m, cell.0, cell.1)
  }

  function Masked(g: Grid, fn: set<Cell>, m: nat): Grid {
    map cell | cell in g :: if Flips(fn, m, cell) then 1 - g[cell] else g[cell]
  }

  /** Masking twice restores the symbol, and function cells never change. */
  lemma {:induction false} MaskInvolution(g: Grid, fn: set<Cell>, m: nat)
    ensures Masked(Masked(g, fn, m), fn, m) == g
    ensures forall cell :: cell in fn && cell in g ==> Masked(g, fn, m)[cell] == g[cell]
  {
  }

  // ---- format information ---------------------------------------------------------------------

  /** The 15-bit format words of level M, masks 0 to 7. */
  const FORMAT: seq<nat> := [0x5412, 0x5125, 0x5E7C, 0x5B4B, 0x45F9, 0x40CE, 0x4F97, 0x4AA0]

  /** Cell of bit i next to the top-left finder. */
  function Copy1(i: nat): Cell {
    if i <= 5 then (8, i) else if i == 6 then (8, 7) else if i == 7 then (8, 8)
    else if i == 8 then (7, 8) else (14 - i, 8)
  }

  /** Cell of bit i next to the other two finders. */
  function Copy2(n: nat, i: nat): Cell {
    if i < 7 then (n - 1 - i, 8) else (8, n - 15 + i)
  }

  /** The cells in the order they are written: bit i of copy 1, then of copy 2. */
  function FormatCells(n: nat): (s: seq<Cell>)
    ensures |s| == 30
  {
    seq(30, j requires 0 <= j < 30 => if j % 2 == 0 then Copy1(j / 2) else Copy2(n, j / 2))
  }

  function FormatBits(word: nat): (s: seq<bit>)
    ensures |s| == 30
  {
    seq(30, j requires 0 <= j < 30 => word / Pow2(j / 2) % 2)
  }

  function Formatted(g: Grid, n: nat, word: nat): Grid {
    Placed(g, FormatCells(n), FormatBits(word), 30)
  }

  lemma {:induction false} CopiesDistinct(n: nat, i: nat, j: nat)
    requires n >= 21 && i < 15 && j < 15
    ensures Copy1(i) != Copy2(n, j)
    ensures i < j ==> Copy1(i) != Copy1(j) && Copy2(n, i) != Copy2(n, j)
  {
  }

  lemma {:induction false} FormatCellsDistinct(n: nat)
    requires n >= 21
    ensures forall i, j :: 0 <= i < j < 30 ==> FormatCells(n)[i] != FormatCells(n)[j]
  {
    forall i, j | 0 <= i < j < 30 ensures FormatCells(n)[i] != FormatCells(n)[j] {
      CopiesDistinct(n, i / 2, j / 2);
      CopiesDistinct(n, j / 2, i / 2);
    }
  }

  /** The word read from one copy, most significant bit first. */
  function ReadWord(g: Grid, cells: seq<Cell>): nat
    requires |cells| == 15
  {
    NumOf(seq(15, j requires 0 <= j < 15 => BitIn(g, cells[14 - j])))
  }

  function Copy1Cells(): (s: seq<Cell>)
    ensures |s| == 15
  {
    seq(15, i requires 0 <= i < 15 => Copy1(i))
  }

  function Copy2Cells(n: nat): (s: seq<Cell>)
    ensures |s| == 15
  {
    seq(15, i requires 0 <= i < 15 => Copy2(n, i))
  }

  lemma {:induction false} FormatAt(g: Grid, n: nat, word: nat, i: nat)
    requires n >= 21 && i < 15
    ensures var f := Formatted(g, n, word);
            && Copy1(i) in f && f[Copy1(i)] == word / Pow2(i) % 2
            && Copy2(n, i) in f && f[Copy2(n, i)] == word / Pow2(i) % 2
  {
    var cells, bits := FormatCells(n), FormatBits(word);
    FormatCellsDistinct(n);
    FormatEntry(n, word, i);
    PlacedAt(g, cells, bits, 30, Copy1(i));
    PlacedAt(g, cells, bits, 30, Copy2(n, i));
  }

  lemma {:induction false} WordReadBack(f: Grid, cells: seq<Cell>, word: nat)
    requires |cells| == 15 && word < 32768
    requires forall i :: 0 <= i < 15 ==> cells[i] in f && f[cells[i]] == word / Pow2(i) % 2
    ensures ReadWord(f, cells) == word
  {
    hide BitsOf, NumOf;
    var w := 15;
    var s := seq(15, j requires 0 <= j < 15 => BitIn(f, cells[14 - j]));
    forall j | 0 <= j < 15 ensures s[j] == BitsOf(word, w)[j] { BitAt(word, w, 14 - j); }
    assert s == BitsOf(word, w);
    FifteenBits(word, w);
  }

  lemma {:induction false} FifteenBits(word: nat, w: nat)
    requires w == 15 && word < 32768
    ensures NumOf(BitsOf(word, w)) == word
  {
    assert Pow2(15) == 32768;
    NumOfBits(word, w);
  }

  /** Both copies of the format information read back as the word written. */
  lemma {:induction false} FormatReadBack(g: Grid, n: nat, word: nat)
    requires n >= 21 && word < 32768
    ensures ReadWord(Formatted(g, n, word), Copy1Cells()) == word
    ensures ReadWord(Formatted(g, n, word), Copy2Cells(n)) == word
  {
    var f := Formatted(g, n, word);
    forall i | 0 <= i < 15
      ensures Copy1(i) in f && f[Copy1(i)] == word / Pow2(i) % 2
      ensures Copy2(n, i) in f && f[Copy2(n, i)] == word / Pow2(i) % 2
    {
      FormatAt(g, n, word, i);
    }
    WordReadBack(f, Copy1Cells(), word);
    WordReadBack(f, Copy2Cells(n), word);
  }

  /** The mask a format word names. */
  function MaskOf(word: nat): int {
    if word == 0x5412 then 0 else if word == 0x5125 then 1 else if word == 0x5E7C then 2
    else if word == 0x5B4B then 3 else if word == 0x45F9 then 4 else if word == 0x40CE then 5
    else if word == 0x4F97 then 6 else if word == 0x4AA0 then 7 else -1
  }

  // ---- the whole symbol -----------------------------------------------------------------------

  /** Bits placed on the blank symbol g, masked with m, format information written. */
  function Symbol(g: Grid, n: nat, fn: set<Cell>, bits: seq<bit>, m: nat): Grid
    requires n > 0 && m < 8 && |bits| <= |Scan(n, fn, Steps(n))|
  {
    Formatted(Masked(Placed(g, Scan(n, fn, Steps(n)), bits, |bits|), fn, m), n, FORMAT[m])
  }

  /** Reads the mask from the format information, unmasks and collects the free cells. */
  function ReadSymbol(g: Grid, fn: set<Cell>, cells: seq<Cell>, k: nat): seq<bit>
    requires k <= |cells|
  {
    var m := MaskOf(ReadWord(g, Copy1Cells()));
    if m < 0 then [] else Cellwise(Masked(g, fn, m), cells, k)
  }

  /** Whatever mask is chosen, a reader of the finished symbol recovers the placed
      bits, as long as the format cells are function cells. */
  lemma {:induction false} SymbolRoundTrip(g: Grid, n: nat, fn: set<Cell>, bits: seq<bit>, m: nat)
    requires IsSide(n) && m < 8 && |bits| <= |Scan(n, fn, Steps(n))|
    requires forall c :: c in FormatCells(n) ==> c in fn
    ensures ReadSymbol(Symbol(g, n, fn, bits, m), fn, Scan(n, fn, Steps(n)), |bits|) == bits
  {
    var cells := Scan(n, fn, Steps(n));
    var p := Placed(g, cells, bits, |bits|);
    var q := Masked(p, fn, m);
    var s := Formatted(q, n, FORMAT[m]);
    ScanDistinct(n, fn, Steps(n));
    FormatReadBack(q, n, FORMAT[m]);
    MaskInvolution(p, fn, m);
    forall i | 0 <= i < |bits| ensures BitIn(Masked(s, fn, m), cells[i]) == bits[i] {
      PlacedAt(g, cells, bits, |bits|, cells[i]);
      FormatKeeps(q, n, FORMAT[m], fn, cells, i);
      assert Masked(q, fn, m)[cells[i]] == p[cells[i]];
    }
    assert Cellwise(Masked(s, fn, m), cells, |bits|) == bits;
  }

  /** Writing the format information leaves the free cells alone. */
  lemma {:induction false} FormatKeeps(g: Grid, n: nat, word: nat, fn: set<Cell>, cells: seq<Cell>, i: nat)
    requires n >= 21 && cells == Scan(n, fn, Steps(n)) && i < |cells| && cells[i] in g
    requires forall c :: c in FormatCells(n) ==> c in fn
    ensures cells[i] in Formatted(g, n, word) && Formatted(g, n, word)[cells[i]] == g[cells[i]]
  {
    ScanMember(n, fn, Steps(n), cells[i]);
    FormatCellsDistinct(n);
    PlacedAt(g, FormatCells(n), FormatBits(word), 30, cells[i]);
  }

  // ---- the loops over the matrix ----------------------------------------------------------------

  ghost function GridOf(a: array2<bit>): Grid
    reads a
  {
    map r: int, c: int | 0 <= r < a.Length0 && 0 <= c < a.Length1 :: (r, c) := a[r, c]
  }

  ghost function FnOf(fn: array2<bool>): set<Cell>
    reads fn
  {
    set r: int, c: int | 0 <= r < fn.Length0 && 0 <= c < fn.Length1 && fn[r, c] :: (r, c)
  }

  lemma FnMember(fn: array2<bool>, r: nat, c: nat)
    requires r < fn.Length0 && c < fn.Length1
    ensures (r, c) in FnOf(fn) <==> fn[r, c]
  {
  }

  method SetCell(mod: array2<bit>, r: nat, c: nat, v: bit)
    requires r < mod.Length0 && c < mod.Length1
    modifies mod
    ensures GridOf(mod) == old(GridOf(mod))[(r, c) := v]
  {
    mod[r, c] := v;
  }

  /** cnt[t] free cells come among the first t of the scan, and cells lists them all. */
  ghost predicate ScanTable(n: nat, fn: set<Cell>, cells: seq<Cell>, cnt: seq<nat>)
    requires n > 0
  {
    && |cnt| == Steps(n) + 1 && cnt[0] == 0 && cnt[Steps(n)] == |cells|
    && forall t {:trigger CellAt(n, t)} :: 0 <= t < Steps(n) ==>
         if CellAt(n, t) in fn then cnt[t + 1] == cnt[t]
         else cnt[t + 1] == cnt[t] + 1 <= |cells| && cells[cnt[t]] == CellAt(n, t)
  }

  lemma {:induction false} ScanTabulated(n: nat, fn: set<Cell>) returns (cnt: seq<nat>)
    requires n > 0
    ensures ScanTable(n, fn, Scan(n, fn, Steps(n)), cnt)
  {
    var cells := Scan(n, fn, Steps(n));
    cnt := seq(Steps(n) + 1, t requires 0 <= t <= Steps(n) => |Scan(n, fn, t)|);
    forall t | 0 <= t < Steps(n)
      ensures if CellAt(n, t) in fn then cnt[t + 1] == cnt[t]
              else cnt[t + 1] == cnt[t] + 1 <= |cells| && cells[cnt[t]] == CellAt(n, t)
    {
      ScanPrefix(n, fn, t + 1, Steps(n));
    }
  }

  /** The table entry of the cell at row counter row, half dc, of pair k. */
  lemma {:induction false} TableEntry(
      n: nat, fn: set<Cell>, cells: seq<Cell>, cnt: seq<nat>, k: nat, row: nat, dc: nat, t: nat)
    requires IsSide(n) && ScanTable(n, fn, cells, cnt)
    requires k < n / 2 && row < n && dc < 2 && t == 2 * (n * k + row) + dc
    ensures t + 1 < |cnt|
    ensures 0 <= CellOf(n, k, row, dc).1 < n
    ensures if CellOf(n, k, row, dc) in fn then cnt[t + 1] == cnt[t]
            else cnt[t + 1] == cnt[t] + 1 <= |cells| && cells[cnt[t]] == CellOf(n, k, row, dc)
  {
    StepParts(n, k, row, dc);
    StepFits(n, k, row, dc);
    ColumnOfPair(n, k, dc);
    assert CellAt(n, t) == CellOf(n, k, row, dc);
  }

  /** With c free cells passed, bi bits have been placed on g0 to give g. */
  ghost predicate Progress(g0: Grid, g: Grid, cells: seq<Cell>, bits: seq<bit>, c: nat, bi: nat) {
    && bi == (if c < |bits| then c else |bits|) && bi <= |cells|
    && g == Placed(g0, cells, bits, bi)
  }

  lemma {:induction false} ProgressStep(
      g0: Grid, g: Grid, cells: seq<Cell>, bits: seq<bit>, c: nat, bi: nat, cell: Cell)
    requires Progress(g0, g, cells, bits, c, bi) && bi < |bits| && c < |cells| && cells[c] == cell
    ensures Progress(g0, g[cell := bits[bi]], cells, bits, c + 1, bi + 1)
  {
  }

  /** A placement starts with nothing passed, and is over once every step is. */
  lemma {:induction false} ProgressEnds(
      n: nat, fn: set<Cell>, cells: seq<Cell>, cnt: seq<nat>, g0: Grid, bits: seq<bit>)
    requires n > 0 && ScanTable(n, fn, cells, cnt)
    ensures 0 < |cnt| && Progress(g0, g0, cells, bits, cnt[0], 0)
    ensures Steps(n) < |cnt|
    ensures forall g, bi :: Progress(g0, g, cells, bits, cnt[Steps(n)], bi) ==>
              g == Placed(g0, cells, bits, if |bits| < |cells| then |bits| else |cells|)
  {
  }

  /** Direction and right column after k column pairs. */
  ghost predicate AtPair(n: nat, k: nat, upward: bool, right: int) {
    && k <= n / 2 && upward == (k % 2 == 0)
    && right == if n - 1 - 2 * k >= 6 then n - 1 - 2 * k else n - 2 - 2 * k
  }

  lemma {:induction false} PairStart(n: nat)
    requires IsSide(n)
    ensures AtPair(n, 0, true, n - 1)
  {
  }

  lemma {:induction false} PairStep(n: nat, k: nat, upward: bool, right: int)
    requires IsSide(n) && AtPair(n, k, upward, right) && right >= 1
    ensures var r := if right == 6 then 5 else right;
            k < n / 2 && upward == (k % 2 == 0) && r == Right(n, k) && AtPair(n, k + 1, !upward, r - 2)
  {
  }

  lemma {:induction false} PairEnd(n: nat, k: nat, upward: bool, right: int)
    requires IsSide(n) && AtPair(n, k, upward, right) && right < 1
    ensures k == n / 2
  {
  }

  ghost function NextPair(n: nat, k: nat, t: nat): (k': nat)
    requires t == 2 * (n * k)
    ensures k' == k + 1 && t + 2 * n == 2 * (n * k')
  {
    assert n * (k + 1) == n * k + n;
    k + 1
  }

  /** The placement loop of qrBuildMatrix. */
  method PlaceData(mod: array2<bit>, fn: array2<bool>, n: nat, bits: seq<bit>)
    requires IsSide(n) && mod.Length0 == mod.Length1 == n && fn.Length0 == fn.Length1 == n
    modifies mod
    ensures var cells := Scan(n, FnOf(fn), Steps(n));
            var k := if |bits| < |cells| then |bits| else |cells|;
            GridOf(mod) == Placed(old(GridOf(mod)), cells, bits, k)
  {
    ghost var cnt := ScanTabulated(n, FnOf(fn));
    PlaceInto(mod, fn, n, bits, Scan(n, FnOf(fn), Steps(n)), cnt);
  }

  method PlaceInto(
      mod: array2<bit>, fn: array2<bool>, n: nat, bits: seq<bit>, ghost cells: seq<Cell>, ghost cnt: seq<nat>)
    requires IsSide(n) && mod.Length0 == mod.Length1 == n && fn.Length0 == fn.Length1 == n
    requires ScanTable(n, FnOf(fn), cells, cnt)
    modifies mod
    ensures GridOf(mod) == Placed(old(GridOf(mod)), cells, bits, if |bits| < |cells| then |bits| else |cells|)
  {
    hide GridOf, FnOf, ScanTable, Progress, Placed, AtPair;
    ghost var g0 := GridOf(mod);
    ProgressEnds(n, FnOf(fn), cells, cnt, g0, bits);
    var bi, upward, right := 0, true, n - 1;
    ghost var k, t := 0, 0;
    PairStart(n);
    while right >= 1
      invariant AtPair(n, k, upward, right)
      invariant t == 2 * (n * k) < |cnt|
      invariant Progress(g0, GridOf(mod), cells, bits, cnt[t], bi)
      decreases right
    {
      PairStep(n, k, upward, right);
      if right == 6 { right := 5; }
      bi := PlacePair(mod, fn, n, bits, bi, upward, right, k, t, g0, cells, cnt);
      upward := !upward;
      right := right - 2;
      k, t := NextPair(n, k, t), t + 2 * n;
    }
    PairEnd(n, k, upward, right);
  }

  /** Both columns of one pair, bottom to top or top to bottom. */
  method PlacePair(mod: array2<bit>, fn: array2<bool>, n: nat, bits: seq<bit>, start: nat, upward: bool, right: int,
                   ghost k: nat, ghost t0: nat, ghost g0: Grid, ghost cells: seq<Cell>, ghost cnt: seq<nat>)
      returns (bi: nat)
    requires IsSide(n) && mod.Length0 == mod.Length1 == n && fn.Length0 == fn.Length1 == n
    requires k < n / 2 && upward == (k % 2 == 0) && right == Right(n, k)
    requires ScanTable(n, FnOf(fn), cells, cnt) && t0 == 2 * (n * k) < |cnt|
    requires Progress(g0, GridOf(mod), cells, bits, cnt[t0], start)
    modifies mod
    ensures t0 + 2 * n < |cnt| && Progress(g0, GridOf(mod), cells, bits, cnt[t0 + 2 * n], bi)
  {
    hide GridOf, FnOf, Progress, CellAt;
    bi := start;
    for row := 0 to n
      invariant t0 + 2 * row < |cnt| && Progress(g0, GridOf(mod), cells, bits, cnt[t0 + 2 * row], bi)
    {
      var r := if upward then n - 1 - row else row;
      ghost var t := t0 + 2 * row;
      for dc := 0 to 2
        invariant t + dc < |cnt| && Progress(g0, GridOf(mod), cells, bits, cnt[t + dc], bi)
      {
        TableEntry(n, FnOf(fn), cells, cnt, k, row, dc, t + dc);
        bi := PlaceCell(mod, fn, bits, bi, r, right - dc, g0, cells, cnt[t + dc], cnt[t + dc + 1]);
      }
    }
  }

  /** One cell of the scan takes the next bit unless it is a function cell. */
  method PlaceCell(mod: array2<bit>, fn: array2<bool>, bits: seq<bit>, start: nat, r: nat, c: nat,
                   ghost g0: Grid, ghost cells: seq<Cell>, ghost before: nat, ghost after: nat)
      returns (bi: nat)
    requires r < mod.Length0 == fn.Length0 && c < mod.Length1 == fn.Length1
    requires Progress(g0, GridOf(mod), cells, bits, before, start)
    requires if (r, c) in FnOf(fn) then after == before
             else after == before + 1 <= |cells| && cells[before] == (r, c)
    modifies mod
    ensures Progress(g0, GridOf(mod), cells, bits, after, bi)
  {
    hide GridOf, FnOf, Placed;
    bi := start;
    FnMember(fn, r, c);
    if !fn[r, c] {
      if bi < |bits| {
        ghost var g := GridOf(mod);
        ghost var g' := g[(r, c) := bits[bi]];
        ProgressStep(g0, g, cells, bits, before, bi, (r, c));
        SetCell(mod, r, c, bits[bi]);
        bi := bi + 1;
        assert Progress(g0, g', cells, bits, after, bi);
        assert GridOf(mod) == g';
      }
    }
  }

  /** qrApplyMask: a masked copy of the matrix. */
  method ApplyMask(mod: array2<bit>, fn: array2<bool>, n: nat, m: nat) returns (out: array2<bit>)
    requires mod.Length0 == mod.Length1 == n && fn.Length0 == fn.Length1 == n
    ensures fresh(out) && out.Length0 == out.Length1 == n
    ensures GridOf(out) == Masked(GridOf(mod), FnOf(fn), m)
  {
    out := new bit[n, n]((r, c) requires 0 <= r < n && 0 <= c < n reads mod => mod[r, c]);
    for r := 0 to n
      invariant forall i, j :: 0 <= i < n && 0 <= j < n ==>
        out[i, j] == if i < r && !fn[i, j] && MaskBit(m, i, j) then 1 - mod[i, j] else mod[i, j]
    {
      for c := 0 to n
        invariant forall i, j :: 0 <= i < n && 0 <= j < n ==>
          out[i, j] == if (i < r || (i == r && j < c)) && !fn[i, j] && MaskBit(m, i, j) then 1 - mod[i, j]
                       else mod[i, j]
      {
        if !fn[r, c] && MaskBit(m, r, c) {
          out[r, c] := 1 - out[r, c];
        }
      }
    }
  }

  /** qrWriteFormat: both copies of the format word, bit by bit. */
  method WriteFormat(mod: array2<bit>, n: nat, m: nat)
    requires n >= 21 && mod.Length0 == mod.Length1 == n && m < 8
    modifies mod
    ensures GridOf(mod) == Formatted(old(GridOf(mod)), n, FORMAT[m])
  {
    hide GridOf, FormatBits, FormatCells, Placed;
    var word := FORMAT[m];
    ghost var g0, cells, bits := GridOf(mod), FormatCells(n), FormatBits(FORMAT[m]);
    PlacedNone(g0, cells, bits);
    for i := 0 to 15
      invariant GridOf(mod) == Placed(g0, cells, bits, 2 * i)
    {
      var v := word / Pow2(i) % 2;
      var p, q := Copy1(i), Copy2(n, i);
      FormatEntry(n, word, i);
      PlacedTwice(g0, cells, bits, 2 * i);
      SetCell(mod, p.0, p.1, v);
      SetCell(mod, q.0, q.1, v);
    }
  }

  lemma {:induction false} PlacedNone(g: Grid, cells: seq<Cell>, bits: seq<bit>)
    ensures Placed(g, cells, bits, 0) == g
  {
  }

  lemma {:induction false} FormatEntry(n: nat, word: nat, i: nat)
    requires i < 15
    ensures FormatCells(n)[2 * i] == Copy1(i) && FormatCells(n)[2 * i + 1] == Copy2(n, i)
    ensures FormatBits(word)[2 * i] == FormatBits(word)[2 * i + 1] == word / Pow2(i) % 2
  {
    var h := 2 * i + 1;
    assert 2 * i / 2 == i && h / 2 == i && h % 2 == 1;
  }

  lemma {:induction false} PlacedTwice(g: Grid, cells: seq<Cell>, bits: seq<bit>, k: nat)
    requires k + 2 <= |cells| && k + 2 <= |bits|
    ensures Placed(g, cells, bits, k + 2)
         == Placed(g, cells, bits, k)[cells[k] := bits[k]][cells[k + 1] := bits[k + 1]]
  {
    assert Placed(g, cells, bits, k + 1) == Placed(g, cells, bits, k)[cells[k] := bits[k]];
  }
}
