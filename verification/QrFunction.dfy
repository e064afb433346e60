/** The function cells that the encoder marks before it places data: finders, timing strips, dark
    module, alignment patterns and format information; and the room they leave. */
module QrFunction {
  import opened Basics
  import opened Bits
  import opened Gf256
  import opened QrBits
  import opened QrCodewords
  import opened QrMatrix
  import opened QrSymbol

  // ---- the cells --------------------------------------------------------------------------

  /** The cells of a rectangle that lie in a symbol of side n. */
  ghost function Area(n: nat, r0: int, r1: int, c0: int, c1: int): set<Cell> {
    set r: int, c: int | 0 <= r < n && 0 <= c < n && r0 <= r < r1 && c0 <= c < c1 :: (r, c)
  }

  /** A finder pattern and its separator around the 7 by 7 square at (tr, tc). */
  ghost function FinderCells(n: nat, tr: int, tc: int): set<Cell> {
    Area(n, tr - 1, tr + 8, tc - 1, tc + 8)
  }

  ghost function FixedCells(n: nat): set<Cell> {
    FinderCells(n, 0, 0) + FinderCells(n, 0, n - 7) + FinderCells(n, n - 7, 0)
    + Area(n, 6, 7, 0, n) + Area(n, 0, n, 6, 7) + Area(n, n - 8, n - 7, 8, 9)
  }

  /** Alignment centre coordinates of a version. */
  function AlignPositions(version: nat): seq<nat> {
    if version <= 1 then []
    else if version <= 6 then [6, 4 * version + 10]
    else [6, 2 * version + 8, 4 * version + 10]
  }

  ghost function AlignmentCells(n: nat, center: Cell): set<Cell> {
    Area(n, center.0 - 2, center.0 + 3, center.1 - 2, center.1 + 3)
  }

  /** Centres whose cell is a function cell already get no pattern. */
  ghost function WithAlignment(n: nat, fn: set<Cell>, center: Cell): set<Cell> {
    if center in fn then fn else fn + AlignmentCells(n, center)
  }

  /** The patterns of one row of centres, then of all rows. */
  ghost function WithRow(n: nat, fn: set<Cell>, r: nat, cs: seq<nat>): set<Cell> {
    if |cs| == 0 then fn else WithAlignment(n, WithRow(n, fn, r, cs[..|cs| - 1]), (r, cs[|cs| - 1]))
  }

  ghost function WithRows(n: nat, fn: set<Cell>, rs: seq<nat>, cs: seq<nat>): set<Cell>
    decreases |rs|
  {
    if |rs| == 0 then fn else WithRow(n, WithRows(n, fn, rs[..|rs| - 1], cs), rs[|rs| - 1], cs)
  }

  ghost function FormatSet(n: nat): set<Cell> {
    set c | c in FormatCells(n)
  }

  ghost function FunctionCells(version: nat): set<Cell> {
    var n, ps := 4 * version + 17, AlignPositions(version);
    WithRows(n, FixedCells(n), ps, ps) + FormatSet(n)
  }

  // ---- marking them -------------------------------------------------------------------------

  lemma {:induction false} AreaNext(n: nat, r0: int, r1: int, c0: int, c1: int)
    requires r0 <= r1 && c0 <= c1
    ensures Area(n, r0, r1 + 1, c0, c1) == Area(n, r0, r1, c0, c1) + Area(n, r1, r1 + 1, c0, c1)
    ensures Area(n, r0, r1, c0, c1 + 1) == Area(n, r0, r1, c0, c1) + Area(n, r0, r1, c1, c1 + 1)
    ensures Area(n, r0, r0, c0, c1) == Area(n, r0, r1, c0, c0) == {}
  {
  }

  /** put with a function flag: cells outside the symbol are ignored. */
  method Put(fn: array2<bool>, n: nat, r: int, c: int)
    requires fn.Length0 == fn.Length1 == n
    modifies fn
    ensures FnOf(fn) == old(FnOf(fn)) + Area(n, r, r + 1, c, c + 1)
  {
    if 0 <= r < n && 0 <= c < n { fn[r, c] := true; }
  }

  /** The two nested loops over a pattern. */
  method PutArea(fn: array2<bool>, n: nat, r0: int, r1: int, c0: int, c1: int)
    requires fn.Length0 == fn.Length1 == n && r0 <= r1 && c0 <= c1
    modifies fn
    ensures FnOf(fn) == old(FnOf(fn)) + Area(n, r0, r1, c0, c1)
  {
    hide FnOf, Area;
    ghost var f0 := FnOf(fn);
    var r := r0;
    AreaNext(n, r0, r1, c0, c1);
    while r < r1
      invariant r0 <= r <= r1 && FnOf(fn) == f0 + Area(n, r0, r, c0, c1)
    {
      ghost var f1 := FnOf(fn);
      var c := c0;
      AreaNext(n, r, r + 1, c0, c1);
      while c < c1
        invariant c0 <= c <= c1 && FnOf(fn) == f1 + Area(n, r, r + 1, c0, c)
      {
        Put(fn, n, r, c);
        AreaNext(n, r, r + 1, c0, c);
        c := c + 1;
      }
      AreaNext(n, r0, r, c0, c1);
      r := r + 1;
    }
  }

  /** The timing strips, cell by cell along both. */
  method PutTiming(fn: array2<bool>, n: nat)
    requires fn.Length0 == fn.Length1 == n
    modifies fn
    ensures FnOf(fn) == old(FnOf(fn)) + Area(n, 6, 7, 0, n) + Area(n, 0, n, 6, 7)
  {
    hide FnOf, Area;
    ghost var f0 := FnOf(fn);
    AreaNext(n, 6, 7, 0, n);
    AreaNext(n, 0, n, 6, 7);
    for i := 0 to n
      invariant FnOf(fn) == f0 + Area(n, 6, 7, 0, i) + Area(n, 0, i, 6, 7)
    {
      Put(fn, n, 6, i);
      Put(fn, n, i, 6);
      AreaNext(n, 6, 7, 0, i);
      AreaNext(n, 0, i, 6, 7);
    }
  }

  method PutFixed(fn: array2<bool>, n: nat)
    requires fn.Length0 == fn.Length1 == n && FnOf(fn) == {}
    modifies fn
    ensures FnOf(fn) == FixedCells(n)
  {
    hide FnOf, Area;
    PutArea(fn, n, -1, 8, -1, 8);
    PutArea(fn, n, -1, 8, n - 8, n + 1);
    PutArea(fn, n, n - 8, n + 1, -1, 8);
    PutTiming(fn, n);
    Put(fn, n, n - 8, 8);
  }

  method PutAlignments(fn: array2<bool>, n: nat, ps: seq<nat>)
    requires fn.Length0 == fn.Length1 == n && forall i :: 0 <= i < |ps| ==> ps[i] < n
    modifies fn
    ensures FnOf(fn) == WithRows(n, old(FnOf(fn)), ps, ps)
  {
    hide FnOf, Area;
    ghost var f0 := FnOf(fn);
    for i := 0 to |ps|
      invariant FnOf(fn) == WithRows(n, f0, ps[..i], ps)
    {
      ghost var f1 := FnOf(fn);
      for j := 0 to |ps|
        invariant FnOf(fn) == WithRow(n, f1, ps[i], ps[..j])
      {
        FnMember(fn, ps[i], ps[j]);
        assert ps[..j + 1][..j] == ps[..j];
        var r: int, c: int := ps[i], ps[j];
        if !fn[r, c] {
          PutArea(fn, n, r - 2, r + 3, c - 2, c + 3);
        }
      }
      assert ps[..|ps|] == ps && ps[..i + 1][..i] == ps[..i];
    }
    assert ps[..|ps|] == ps;
  }

  method PutFormat(fn: array2<bool>, n: nat)
    requires fn.Length0 == fn.Length1 == n >= 21
    modifies fn
    ensures FnOf(fn) == old(FnOf(fn)) + FormatSet(n)
  {
    hide FnOf, Area, FormatCells;
    ghost var f0 := FnOf(fn);
    var cells := FormatCells(n);
    for i := 0 to 30
      invariant FnOf(fn) == f0 + set c | c in cells[..i]
    {
      FormatInGrid(n, i);
      SingleArea(n, cells[i]);
      Put(fn, n, cells[i].0, cells[i].1);
      assert cells[..i + 1] == cells[..i] + [cells[i]];
    }
    assert cells[..30] == cells;
  }

  lemma {:induction false} SingleArea(n: nat, cell: Cell)
    requires 0 <= cell.0 < n && 0 <= cell.1 < n
    ensures Area(n, cell.0, cell.0 + 1, cell.1, cell.1 + 1) == {cell}
  {
  }

  lemma {:induction false} FormatInGrid(n: nat, i: nat)
    requires n >= 21 && i < 30
    ensures var c := FormatCells(n)[i]; 0 <= c.0 < n && 0 <= c.1 < n && c.1 != 6
  {
  }

  /** The function cells of qrBuildMatrix, marked in the order of the source. */
  method BuildFunctionCells(version: nat) returns (fn: array2<bool>)
    requires 1 <= version <= 10
    ensures fresh(fn) && fn.Length0 == fn.Length1 == 4 * version + 17
    ensures FnOf(fn) == FunctionCells(version)
  {
    hide FnOf, FixedCells, WithRows, FormatSet;
    var n := 4 * version + 17;
    fn := new bool[n, n]((_, _) => false);
    assert FnOf(fn) == {} by { NoCells(fn); }
    PutFixed(fn, n);
    PutAlignments(fn, n, AlignPositions(version));
    PutFormat(fn, n);
  }

  lemma NoCells(fn: array2<bool>)
    requires forall r, c :: 0 <= r < fn.Length0 && 0 <= c < fn.Length1 ==> !fn[r, c]
    ensures FnOf(fn) == {}
  {
  }

  // ---- counting cells ------------------------------------------------------------------------

  ghost function RowOf(r: int, c0: int, c1: int): set<Cell>
    requires c0 <= c1
    decreases c1 - c0
  {
    if c0 == c1 then {} else RowOf(r, c0, c1 - 1) + {(r, c1 - 1)}
  }

  ghost function Rect(r0: int, r1: int, c0: int, c1: int): set<Cell>
    requires r0 <= r1 && c0 <= c1
    decreases r1 - r0
  {
    if r0 == r1 then {} else Rect(r0, r1 - 1, c0, c1) + RowOf(r1 - 1, c0, c1)
  }

  lemma {:induction false} InRow(r: int, c0: int, c1: int, cell: Cell)
    requires c0 <= c1
    ensures cell in RowOf(r, c0, c1) <==> cell.0 == r && c0 <= cell.1 < c1
    decreases c1 - c0
  {
    if c0 == c1 {
    } else {
      InRow(r, c0, c1 - 1, cell);
    }
  }

  lemma {:induction false} InRect(r0: int, r1: int, c0: int, c1: int, cell: Cell)
    requires r0 <= r1 && c0 <= c1
    ensures cell in Rect(r0, r1, c0, c1) <==> r0 <= cell.0 < r1 && c0 <= cell.1 < c1
    decreases r1 - r0
  {
    if r0 == r1 {
    } else {
      InRect(r0, r1 - 1, c0, c1, cell);
      InRow(r1 - 1, c0, c1, cell);
    }
  }

  lemma {:induction false} Disjoint(a: set<Cell>, b: set<Cell>)
    requires a !! b
    ensures |a + b| == |a| + |b|
  {
  }

  lemma {:induction false} RowCount(r: int, c0: int, c1: int)
    requires c0 <= c1
    ensures |RowOf(r, c0, c1)| == c1 - c0
    decreases c1 - c0
  {
    if c0 == c1 {
    } else {
      RowCount(r, c0, c1 - 1);
      InRow(r, c0, c1 - 1, (r, c1 - 1));
      Disjoint(RowOf(r, c0, c1 - 1), {(r, c1 - 1)});
    }
  }

  lemma {:induction false} RowBelow(r0: int, r1: int, c0: int, c1: int)
    requires r0 <= r1 && c0 <= c1
    ensures Rect(r0, r1, c0, c1) !! RowOf(r1, c0, c1)
  {
    hide Rect, RowOf;
    forall cell: Cell ensures !(cell in Rect(r0, r1, c0, c1) && cell in RowOf(r1, c0, c1)) {
      InRect(r0, r1, c0, c1, cell);
      InRow(r1, c0, c1, cell);
    }
  }

  lemma {:induction false} RectCount(r0: int, r1: int, c0: int, c1: int)
    requires r0 <= r1 && c0 <= c1
    ensures |Rect(r0, r1, c0, c1)| == (r1 - r0) * (c1 - c0)
    decreases r1 - r0
  {
    if r0 == r1 {
    } else {
      RectCount(r0, r1 - 1, c0, c1);
      RowCount(r1 - 1, c0, c1);
      RowBelow(r0, r1 - 1, c0, c1);
      Disjoint(Rect(r0, r1 - 1, c0, c1), RowOf(r1 - 1, c0, c1));
      assert (r1 - r0) * (c1 - c0) == (r1 - 1 - r0) * (c1 - c0) + (c1 - c0);
    }
  }

  lemma {:induction false} RectsApart(r0: int, r1: int, c0: int, c1: int, s0: int, s1: int, d0: int, d1: int)
    requires r0 <= r1 && c0 <= c1 && s0 <= s1 && d0 <= d1
    requires r1 <= s0 || s1 <= r0 || c1 <= d0 || d1 <= c0
    ensures Rect(r0, r1, c0, c1) !! Rect(s0, s1, d0, d1)
  {
    hide Rect;
    forall cell: Cell ensures !(cell in Rect(r0, r1, c0, c1) && cell in Rect(s0, s1, d0, d1)) {
      InRect(r0, r1, c0, c1, cell);
      InRect(s0, s1, d0, d1, cell);
    }
  }

  lemma {:induction false} ElementCount(cells: seq<Cell>)
    requires forall i, j :: 0 <= i < j < |cells| ==> cells[i] != cells[j]
    ensures |set c | c in cells| == |cells|
    decreases |cells|
  {
    if |cells| == 0 {
      assert (set c | c in cells) == {};
    } else {
      var n := |cells| - 1;
      ElementCount(cells[..n]);
      assert cells == cells[..n] + [cells[n]];
      assert (set c | c in cells) == (set c | c in cells[..n]) + {cells[n]};
      Disjoint(set c | c in cells[..n], {cells[n]});
    }
  }

  lemma {:induction false} InArea(n: nat, r0: int, r1: int, c0: int, c1: int, cell: Cell)
    ensures cell in Area(n, r0, r1, c0, c1) <==>
              0 <= cell.0 < n && 0 <= cell.1 < n && r0 <= cell.0 < r1 && c0 <= cell.1 < c1
  {
    assert cell == (cell.0, cell.1);
  }

  // ---- the function cells outside column 6 -------------------------------------------------------

  /** The left finders without column 6, and the right one. */
  ghost function FinderCover(n: nat): set<Cell>
    requires n >= 21
  {
    (Rect(0, 8, 0, 6) + Rect(0, 8, 7, 8)) + (Rect(n - 8, n, 0, 6) + Rect(n - 8, n, 7, 8)) + Rect(0, 8, n - 8, n)
  }

  ghost function FixedCover(n: nat): set<Cell>
    requires n >= 21
  {
    FinderCover(n) + Rect(6, 7, 8, n - 8) + ({(n - 8, 8)} + FormatSet(n))
  }

  lemma {:induction false} FinderCount(n: nat)
    requires n >= 21
    ensures |FinderCover(n)| == 176
  {
    hide Rect;
    var a, b := Rect(0, 8, 0, 6), Rect(0, 8, 7, 8);
    var c, d, e := Rect(n - 8, n, 0, 6), Rect(n - 8, n, 7, 8), Rect(0, 8, n - 8, n);
    RectCount(0, 8, 0, 6);
    RectCount(0, 8, 7, 8);
    RectCount(n - 8, n, 0, 6);
    RectCount(n - 8, n, 7, 8);
    RectCount(0, 8, n - 8, n);
    RectsApart(0, 8, 0, 6, 0, 8, 7, 8);
    RectsApart(n - 8, n, 0, 6, n - 8, n, 7, 8);
    RectsApart(0, 8, 0, 6, n - 8, n, 0, 6);
    RectsApart(0, 8, 0, 6, n - 8, n, 7, 8);
    RectsApart(0, 8, 7, 8, n - 8, n, 0, 6);
    RectsApart(0, 8, 7, 8, n - 8, n, 7, 8);
    RectsApart(0, 8, 0, 6, 0, 8, n - 8, n);
    RectsApart(0, 8, 7, 8, 0, 8, n - 8, n);
    RectsApart(n - 8, n, 0, 6, 0, 8, n - 8, n);
    RectsApart(n - 8, n, 7, 8, 0, 8, n - 8, n);
    Disjoint(a, b);
    Disjoint(c, d);
    Disjoint(a + b, c + d);
    Disjoint((a + b) + (c + d), e);
  }

  /** What is in the finders' cover, by coordinates. */
  lemma {:induction false} InFinders(n: nat, cell: Cell)
    requires n >= 21
    ensures cell in FinderCover(n) <==>
              || (0 <= cell.0 < 8 && (0 <= cell.1 < 6 || cell.1 == 7 || n - 8 <= cell.1 < n))
              || (n - 8 <= cell.0 < n && (0 <= cell.1 < 6 || cell.1 == 7))
  {
    hide Rect;
    InRect(0, 8, 0, 6, cell);
    InRect(0, 8, 7, 8, cell);
    InRect(n - 8, n, 0, 6, cell);
    InRect(n - 8, n, 7, 8, cell);
    InRect(0, 8, n - 8, n, cell);
  }

  lemma {:induction false} FormatPlaces(n: nat, cell: Cell)
    requires n >= 21 && cell in FormatSet(n)
    ensures 0 <= cell.0 < n && 0 <= cell.1 < n && cell.1 != 6 && cell.0 != 6
    ensures cell.0 == 8 || (cell.1 == 8 && cell.0 != n - 8)
  {
    var i :| 0 <= i < 30 && FormatCells(n)[i] == cell;
  }

  lemma {:induction false} FixedCount(n: nat)
    requires n >= 21
    ensures |FixedCover(n)| == n + 191
  {
    hide FinderCover, Rect, FormatCells;
    var a, b, c, d := FinderCover(n), Rect(6, 7, 8, n - 8), {(n - 8, 8)}, FormatSet(n);
    FinderCount(n);
    RectCount(6, 7, 8, n - 8);
    FormatCellsDistinct(n);
    ElementCount(FormatCells(n));
    forall cell: Cell
      ensures !(cell in a && cell in b) && !(cell in c && cell in d) && !(cell in a + b && cell in c + d)
    {
      InFinders(n, cell);
      InRect(6, 7, 8, n - 8, cell);
      if cell in d { FormatPlaces(n, cell); }
    }
    Disjoint(a, b);
    Disjoint(c, d);
    Disjoint(a + b, c + d);
  }

  /** Every cell of the cover is a fixed or format cell that the scan visits. */
  lemma {:induction false} CoverFixed(n: nat, cell: Cell)
    requires n >= 21 && cell in FixedCover(n)
    ensures cell in FixedCells(n) + FormatSet(n) && InSymbol(n, cell)
  {
    hide Area, Rect, FormatSet, FinderCover;
    InFinders(n, cell);
    InRect(6, 7, 8, n - 8, cell);
    InArea(n, -1, 8, -1, 8, cell);
    InArea(n, -1, 8, n - 8, n + 1, cell);
    InArea(n, n - 8, n + 1, -1, 8, cell);
    InArea(n, 6, 7, 0, n, cell);
    InArea(n, n - 8, n - 7, 8, 9, cell);
    if cell in FormatSet(n) { FormatPlaces(n, cell); }
  }

  lemma {:induction false} FindersCovered(n: nat, cell: Cell)
    requires n >= 21 && cell.1 != 6
    requires cell in FinderCells(n, 0, 0) + FinderCells(n, 0, n - 7) + FinderCells(n, n - 7, 0)
    ensures cell in FinderCover(n)
  {
    hide Area, Rect;
    InArea(n, -1, 8, -1, 8, cell);
    InArea(n, -1, 8, n - 8, n + 1, cell);
    InArea(n, n - 8, n + 1, -1, 8, cell);
    InRect(0, 8, 0, 6, cell);
    InRect(0, 8, 7, 8, cell);
    InRect(n - 8, n, 0, 6, cell);
    InRect(n - 8, n, 7, 8, cell);
    InRect(0, 8, n - 8, n, cell);
  }

  lemma {:induction false} TimingCovered(n: nat, cell: Cell)
    requires n >= 21 && cell.1 != 6
    requires cell in Area(n, 6, 7, 0, n) + Area(n, 0, n, 6, 7) + Area(n, n - 8, n - 7, 8, 9)
    ensures cell in FinderCover(n) + Rect(6, 7, 8, n - 8) + {(n - 8, 8)}
  {
    hide Area, Rect;
    InArea(n, 6, 7, 0, n, cell);
    InArea(n, 0, n, 6, 7, cell);
    InArea(n, n - 8, n - 7, 8, 9, cell);
    InRect(0, 8, 0, 6, cell);
    InRect(0, 8, 7, 8, cell);
    InRect(0, 8, n - 8, n, cell);
    InRect(6, 7, 8, n - 8, cell);
  }

  lemma {:induction false} FixedCovered(n: nat, cell: Cell)
    requires n >= 21 && cell in FixedCells(n) + FormatSet(n) && cell.1 != 6
    ensures cell in FixedCover(n)
  {
    hide Area, Rect, FinderCells, FinderCover, FormatSet;
    if cell in FinderCells(n, 0, 0) + FinderCells(n, 0, n - 7) + FinderCells(n, n - 7, 0) {
      FindersCovered(n, cell);
    } else if cell !in FormatSet(n) {
      TimingCovered(n, cell);
    }
  }

  /** The alignment patterns at the centres off row and column 6. */
  ghost function AlignCover(p: nat, q: nat): set<Cell> {
    if p == q then Rect(p - 2, p + 3, p - 2, p + 3)
    else
      (Rect(p - 2, p + 3, p - 2, p + 3) + Rect(p - 2, p + 3, q - 2, q + 3))
      + (Rect(q - 2, q + 3, p - 2, p + 3) + Rect(q - 2, q + 3, q - 2, q + 3))
  }

  lemma {:induction false} AlignCount(p: nat, q: nat)
    requires p == q || p + 5 <= q
    ensures |AlignCover(p, q)| == if p == q then 25 else 100
  {
    hide Rect;
    var a, b := Rect(p - 2, p + 3, p - 2, p + 3), Rect(p - 2, p + 3, q - 2, q + 3);
    var c, d := Rect(q - 2, q + 3, p - 2, p + 3), Rect(q - 2, q + 3, q - 2, q + 3);
    RectCount(p - 2, p + 3, p - 2, p + 3);
    RectCount(p - 2, p + 3, q - 2, q + 3);
    RectCount(q - 2, q + 3, p - 2, p + 3);
    RectCount(q - 2, q + 3, q - 2, q + 3);
    if p != q {
      RectsApart(p - 2, p + 3, p - 2, p + 3, p - 2, p + 3, q - 2, q + 3);
      RectsApart(q - 2, q + 3, p - 2, p + 3, q - 2, q + 3, q - 2, q + 3);
      RectsApart(p - 2, p + 3, p - 2, p + 3, q - 2, q + 3, p - 2, p + 3);
      RectsApart(p - 2, p + 3, p - 2, p + 3, q - 2, q + 3, q - 2, q + 3);
      RectsApart(p - 2, p + 3, q - 2, q + 3, q - 2, q + 3, p - 2, p + 3);
      RectsApart(p - 2, p + 3, q - 2, q + 3, q - 2, q + 3, q - 2, q + 3);
      Disjoint(a, b);
      Disjoint(c, d);
      Disjoint(a + b, c + d);
    }
  }

  ghost predicate HasStrips(n: nat, fn: set<Cell>) {
    forall i: int :: 0 <= i < n ==> (6, i) in fn && (i, 6) in fn
  }

  lemma {:induction false} StripsFixed(n: nat)
    requires n > 6
    ensures HasStrips(n, FixedCells(n))
  {
    hide Area, FinderCells;
    forall i: int | 0 <= i < n ensures (6, i) in FixedCells(n) && (i, 6) in FixedCells(n) {
      InArea(n, 6, 7, 0, n, (6, i));
      InArea(n, 0, n, 6, 7, (i, 6));
    }
  }

  /** The centres of row 6 are all taken. */
  lemma {:induction false} RowTaken(n: nat, fn: set<Cell>, cs: seq<nat>)
    requires HasStrips(n, fn) && n > 6 && forall i :: 0 <= i < |cs| ==> cs[i] < n
    ensures WithRow(n, fn, 6, cs) == fn
    decreases |cs|
  {
    hide AlignmentCells;
    if |cs| == 0 {
    } else {
      RowTaken(n, fn, cs[..|cs| - 1]);
    }
  }

  lemma {:induction false} PatternIsRect(n: nat, r: nat, c: nat)
    requires 2 <= r < n - 2 && 2 <= c < n - 2
    ensures AlignmentCells(n, (r, c)) == Rect(r - 2, r + 3, c - 2, c + 3)
  {
    hide Area, Rect;
    var a, b := AlignmentCells(n, (r, c)), Rect(r - 2, r + 3, c - 2, c + 3);
    forall cell: Cell ensures cell in a <==> cell in b {
      InArea(n, r - 2, r + 3, c - 2, c + 3, cell);
      InRect(r - 2, r + 3, c - 2, c + 3, cell);
    }
  }

  /** A row with one free centre, p, gets its pattern. */
  lemma {:induction false} RowOne(n: nat, fn: set<Cell>, r: nat, p: nat)
    requires HasStrips(n, fn) && r < n && (r, p) !in fn
    ensures WithRow(n, fn, r, [6, p]) == fn + AlignmentCells(n, (r, p))
  {
    hide AlignmentCells;
    assert [6, p][..1] == [6] && [6][..0] == [];
    assert WithRow(n, fn, r, [6]) == WithAlignment(n, WithRow(n, fn, r, []), (r, 6)) == fn;
  }

  /** ... and one with two free centres gets both. */
  lemma {:induction false} RowTwo(n: nat, fn: set<Cell>, r: nat, p: nat, q: nat)
    requires HasStrips(n, fn) && r < n && (r, p) !in fn && (r, q) !in fn && p + 5 <= q
    ensures WithRow(n, fn, r, [6, p, q]) == fn + (AlignmentCells(n, (r, p)) + AlignmentCells(n, (r, q)))
  {
    RowOne(n, fn, r, p);
    hide Area;
    InArea(n, r - 2, r + 3, p - 2, p + 3, (r, q));
    assert (r, q) !in AlignmentCells(n, (r, p));
    assert [6, p, q][..2] == [6, p];
    hide AlignmentCells;
    assert WithRow(n, fn, r, [6, p, q]) == WithAlignment(n, WithRow(n, fn, r, [6, p]), (r, q));
  }

  /** The fixed cells are near the top or the left edge. */
  lemma {:induction false} FixedNearEdge(n: nat, cell: Cell)
    requires n >= 21 && cell in FixedCells(n)
    ensures cell.0 <= 8 || cell.1 <= 8
  {
    hide Area;
    InArea(n, -1, 8, -1, 8, cell);
    InArea(n, -1, 8, n - 8, n + 1, cell);
    InArea(n, n - 8, n + 1, -1, 8, cell);
    InArea(n, 6, 7, 0, n, cell);
    InArea(n, 0, n, 6, 7, cell);
    InArea(n, n - 8, n - 7, 8, 9, cell);
  }

  lemma {:induction false} OnePattern(n: nat, fn: set<Cell>, p: nat)
    requires HasStrips(n, fn) && (p, p) !in fn && 6 < p < n - 2
    ensures WithRows(n, fn, [6, p], [6, p]) == fn + AlignCover(p, p)
  {
    hide Rect, AlignmentCells, WithRow, HasStrips;
    assert [6, p][..1] == [6] && [6][..0] == [];
    assert WithRows(n, fn, [6], [6, p]) == WithRow(n, WithRows(n, fn, [], [6, p]), 6, [6, p]);
    RowTaken(n, fn, [6, p]);
    RowOne(n, fn, p, p);
    PatternIsRect(n, p, p);
  }

  lemma {:induction false} FourPatterns(n: nat, fn: set<Cell>, p: nat, q: nat)
    requires HasStrips(n, fn) && 6 < p && p + 5 <= q < n - 2
    requires (p, p) !in fn && (p, q) !in fn && (q, p) !in fn && (q, q) !in fn
    ensures WithRows(n, fn, [6, p, q], [6, p, q]) == fn + AlignCover(p, q)
  {
    var cs := [6, p, q];
    assert cs[..2] == [6, p] && [6, p][..1] == [6] && [6][..0] == [];
    assert WithRows(n, fn, [6], cs) == WithRow(n, WithRows(n, fn, [], cs), 6, cs);
    assert WithRows(n, fn, [6, p], cs) == WithRow(n, WithRows(n, fn, [6], cs), p, cs);
    assert WithRows(n, fn, cs, cs) == WithRow(n, WithRows(n, fn, [6, p], cs), q, cs);
    hide Area, Rect, WithRow, WithRows;
    RowTaken(n, fn, cs);
    RowTwo(n, fn, p, p, q);
    var g := fn + (AlignmentCells(n, (p, p)) + AlignmentCells(n, (p, q)));
    InArea(n, p - 2, p + 3, p - 2, p + 3, (q, p));
    InArea(n, p - 2, p + 3, q - 2, q + 3, (q, p));
    InArea(n, p - 2, p + 3, p - 2, p + 3, (q, q));
    InArea(n, p - 2, p + 3, q - 2, q + 3, (q, q));
    assert (q, p) !in g && (q, q) !in g;
    hide AlignmentCells;
    RowTwo(n, g, q, p, q);
    PatternIsRect(n, p, p);
    PatternIsRect(n, p, q);
    PatternIsRect(n, q, p);
    PatternIsRect(n, q, q);
  }

  /** Cells that the alignment patterns of a version take. */
  function AlignRoom(version: nat): nat {
    if version <= 1 then 0 else if version <= 6 then 25 else 100
  }

  /** The cells of the alignment patterns of a version: one pattern up to version 6, four above. */
  ghost function AlignmentsOf(version: nat): set<Cell> {
    if version <= 1 then {}
    else if version <= 6 then AlignCover(4 * version + 10, 4 * version + 10)
    else AlignCover(2 * version + 8, 4 * version + 10)
  }

  lemma {:induction false} AlignmentsCount(version: nat)
    requires version >= 1
    ensures |AlignmentsOf(version)| == AlignRoom(version)
  {
    hide AlignCover;
    if version <= 6 {
      AlignCount(4 * version + 10, 4 * version + 10);
    } else {
      AlignCount(2 * version + 8, 4 * version + 10);
    }
  }

  lemma {:induction false} InAlignments(version: nat, cell: Cell)
    requires version >= 1 && cell in AlignmentsOf(version)
    ensures var n := 4 * version + 17; 8 < cell.0 < n && 8 < cell.1 < n
  {
    hide Rect;
    var p, q := if version <= 6 then 4 * version + 10 else 2 * version + 8, 4 * version + 10;
    InRect(p - 2, p + 3, p - 2, p + 3, cell);
    InRect(p - 2, p + 3, q - 2, q + 3, cell);
    InRect(q - 2, q + 3, p - 2, p + 3, cell);
    InRect(q - 2, q + 3, q - 2, q + 3, cell);
  }

  /** The function cells of a version, pattern by pattern. */
  lemma {:induction false} FunctionCellsAre(version: nat)
    requires 1 <= version <= 10
    ensures var n := 4 * version + 17; FunctionCells(version) == FixedCells(n) + AlignmentsOf(version) + FormatSet(n)
  {
    hide FixedCells, FormatSet, AlignCover, HasStrips;
    var n := 4 * version + 17;
    StripsFixed(n);
    if version > 1 {
      var p, q := if version <= 6 then 4 * version + 10 else 2 * version + 8, 4 * version + 10;
      forall cell: Cell | cell.0 > 8 && cell.1 > 8 ensures cell !in FixedCells(n) {
        if cell in FixedCells(n) { FixedNearEdge(n, cell); }
      }
      assert (p, p) !in FixedCells(n) && (p, q) !in FixedCells(n);
      assert (q, p) !in FixedCells(n) && (q, q) !in FixedCells(n);
      hide WithRows;
      if version <= 6 { OnePattern(n, FixedCells(n), p); } else { FourPatterns(n, FixedCells(n), p, q); }
    }
  }

  // ---- the room they leave --------------------------------------------------------------------

  /** The function cells among the first t visited. */
  ghost function Hits(n: nat, fn: set<Cell>, t: nat): set<Cell>
    requires n > 0
    decreases t, n
  {
    if t == 0 then {}
    else Hits(n, fn, t - 1) + if CellAt(n, t - 1) in fn then {CellAt(n, t - 1)} else {}
  }

  lemma {:induction false} HitVisited(n: nat, fn: set<Cell>, t: nat, cell: Cell)
    requires n > 0 && cell in Hits(n, fn, t)
    ensures cell in fn && exists u :: 0 <= u < t && CellAt(n, u) == cell
    decreases t
  {
    hide CellAt;
    if t == 0 {
    } else if cell in Hits(n, fn, t - 1) {
      HitVisited(n, fn, t - 1, cell);
    }
  }

  /** Every visited cell is free or hit, and none twice. */
  lemma {:induction false} ScanCount(n: nat, fn: set<Cell>, t: nat)
    requires IsSide(n) && t <= Steps(n)
    ensures |Scan(n, fn, t)| + |Hits(n, fn, t)| == t
    decreases t
  {
    hide CellAt, Steps;
    if t == 0 {
    } else {
      ScanCount(n, fn, t - 1);
      var c := CellAt(n, t - 1);
      if c in Hits(n, fn, t - 1) {
        HitVisited(n, fn, t - 1, c);
        var u :| 0 <= u < t - 1 && CellAt(n, u) == c;
        CellAtInjective(n, u, t - 1);
      }
    }
  }

  lemma {:induction false} HitIn(n: nat, fn: set<Cell>, t: nat, u: nat)
    requires n > 0 && u < t && CellAt(n, u) in fn
    ensures CellAt(n, u) in Hits(n, fn, t)
    decreases t
  {
    hide CellAt;
    if u == t - 1 {
    } else {
      HitIn(n, fn, t - 1, u);
    }
  }

  /** The visited function cells of a version are exactly so many. */
  lemma {:induction false} HitsCount(version: nat)
    requires 1 <= version <= 10
    ensures var n := 4 * version + 17;
            IsSide(n) && |Hits(n, FunctionCells(version), Steps(n))| == n + 191 + AlignRoom(version)
  {
    hide FunctionCells, FixedCells, FormatSet, FixedCover, Hits, AlignRoom, CellAt, Steps, AlignmentsOf;
    var n := 4 * version + 17;
    SideOfVersion(version);
    var fn, cover := FunctionCells(version), AlignmentsOf(version);
    var hits := Hits(n, fn, Steps(n));
    FunctionCellsAre(version);
    forall cell: Cell ensures cell in hits <==> cell in FixedCover(n) + cover { HitExactly(version, cell); }
    assert hits == FixedCover(n) + cover;
    forall cell: Cell ensures !(cell in FixedCover(n) && cell in cover) { CoversApart(version, cell); }
    Disjoint(FixedCover(n), cover);
    FixedCount(n);
    AlignmentsCount(version);
  }

  lemma {:induction false} CoversApart(version: nat, cell: Cell)
    requires version >= 1
    ensures !(cell in FixedCover(4 * version + 17) && cell in AlignmentsOf(version))
  {
    hide FixedCells, FormatSet, FixedCover, AlignmentsOf;
    var n := 4 * version + 17;
    if cell in FixedCover(n) && cell in AlignmentsOf(version) {
      CoverFixed(n, cell);
      InAlignments(version, cell);
      if cell in FixedCells(n) { FixedNearEdge(n, cell); } else { FormatPlaces(n, cell); }
    }
  }

  lemma {:induction false} HitExactly(version: nat, cell: Cell)
    requires 1 <= version <= 10
    ensures var n := 4 * version + 17;
            cell in Hits(n, FunctionCells(version), Steps(n)) <==> cell in FixedCover(n) + AlignmentsOf(version)
  {
    hide FunctionCells, FixedCells, FormatSet, FixedCover, Hits, CellAt, Steps, AlignmentsOf, StepOf;
    var n, fn := 4 * version + 17, FunctionCells(version);
    SideOfVersion(version);
    FunctionCellsAre(version);
    if cell in Hits(n, fn, Steps(n)) {
      HitVisited(n, fn, Steps(n), cell);
      var u :| 0 <= u < Steps(n) && CellAt(n, u) == cell;
      CellAtStep(n, u);
      if cell !in AlignmentsOf(version) { FixedCovered(n, cell); }
    }
    if cell in FixedCover(n) + AlignmentsOf(version) {
      if cell in FixedCover(n) { CoverFixed(n, cell); } else { InAlignments(version, cell); }
      StepOfCell(n, cell);
      HitIn(n, fn, Steps(n), StepOf(n, cell));
    }
  }

  /** Codewords of a version. */
  function CodewordCount(version: nat): nat
    requires 1 <= version <= 10
  {
    var v := VERSIONS[version - 1];
    v.dataBytes + v.ecPerBlock * NumBlocks(v)
  }

  /** Cells that the encoder leaves free without using them: the version information it does not draw,
      and the alignment patterns it leaves out on the timing strips. */
  function Unused(version: nat): nat {
    if version <= 6 then 0 else 76
  }

  /** Free cells against the codewords and the remainder bits of every version. */
  lemma {:induction false} BitsFit(version: nat)
    requires 1 <= version <= 10
    ensures var n := 4 * version + 17;
            8 * CodewordCount(version) + REMAINDER_BITS[version - 1] + Unused(version)
            + n + 191 + AlignRoom(version) == Steps(n)
  {
    if version <= 5 { BitsFitLow(version); } else { BitsFitHigh(version); }
  }

  lemma {:induction false} BitsFitLow(version: nat)
    requires 1 <= version <= 5
    ensures var n := 4 * version + 17;
            8 * CodewordCount(version) + REMAINDER_BITS[version - 1] + Unused(version)
            + n + 191 + AlignRoom(version) == Steps(n)
  {
    assert version == 1 || version == 2 || version == 3 || version == 4 || version == 5;
  }

  lemma {:induction false} BitsFitHigh(version: nat)
    requires 6 <= version <= 10
    ensures var n := 4 * version + 17;
            8 * CodewordCount(version) + REMAINDER_BITS[version - 1] + Unused(version)
            + n + 191 + AlignRoom(version) == Steps(n)
  {
    assert version == 6 || version == 7 || version == 8 || version == 9 || version == 10;
  }

  /** The codewords and remainder bits of a version fill its free cells exactly, but for 76 cells in
      versions 7 to 10. */
  lemma {:induction false} RoomForSymbol(text: seq<byte>, version: nat, codewords: seq<byte>)
    requires IsEncoding(text, version, codewords)
    ensures var n := 4 * version + 17;
            && IsSide(n)
            && |Scan(n, FunctionCells(version), Steps(n))| == |SymbolBits(version, codewords)| + Unused(version)
  {
    var n := 4 * version + 17;
    assert |codewords| == CodewordCount(version);
    assert |SymbolBits(version, codewords)| == 8 * |codewords| + REMAINDER_BITS[version - 1];
    hide FunctionCells, Hits, Scan, CodewordCount, Steps, AlignRoom, IsEncoding, SymbolBits, IsSide, Unused;
    HitsCount(version);
    BitsFit(version);
    ScanCount(n, FunctionCells(version), Steps(n));
  }

  /** The whole path with the encoder's own function cells: whatever mask is chosen, scanning the
      finished symbol gives back the text exactly when it fitted its version. */
  lemma {:induction false} FinishedSymbolScans(text: seq<byte>, version: nat, codewords: seq<byte>, blank: Grid, m: nat)
    requires Selected(|text|, version) && IsEncoding(text, version, codewords) && m < 8
    ensures var n, fn, bits := 4 * version + 17, FunctionCells(version), SymbolBits(version, codewords);
            && IsSide(n) && |bits| <= |Scan(n, fn, Steps(n))|
            && var g := Symbol(blank, n, fn, bits, m);
            && TextIn(ReadSymbol(g, fn, Scan(n, fn, Steps(n)), |bits|), version, |codewords|)
               == if Fits(|text|, version) then Some(text) else None
  {
    var n, fn, bits := 4 * version + 17, FunctionCells(version), SymbolBits(version, codewords);
    assert forall c :: c in FormatCells(n) ==> c in fn by { assert FormatSet(n) <= fn; }
    hide FunctionCells, Scan, Symbol, ReadSymbol, TextIn, Fits, IsEncoding, Selected, SymbolBits, Steps, FormatCells;
    RoomForSymbol(text, version, codewords);
    ScanRecoversText(text, version, codewords, blank, n, fn, m, bits);
  }

  // ---- the loops put together -------------------------------------------------------------------

  /** The codeword and remainder bits of qrBuildMatrix. */
  method CodewordBits(version: nat, codewords: seq<byte>) returns (bits: seq<bit>)
    requires 1 <= version <= 10
    ensures bits == SymbolBits(version, codewords)
  {
    hide BitsOf;
    bits := [];
    for i := 0 to |codewords|
      invariant bits == Unpack(codewords[..i])
    {
      bits := Push(bits, codewords[i], W);
      assert codewords[..i + 1][..i] == codewords[..i];
    }
    assert codewords[..|codewords|] == codewords;
    for i := 0 to REMAINDER_BITS[version - 1]
      invariant bits == Unpack(codewords) + ZeroBits(i)
    {
      bits := bits + [0];
      assert ZeroBits(i + 1) == ZeroBits(i) + [0];
    }
  }

  /** A matrix whose modules are drawn by some rule before data is placed. */
  ghost function Drawing(n: nat, draw: (nat, nat) -> bit): Grid {
    map r: int, c: int | 0 <= r < n && 0 <= c < n :: (r, c) := draw(r, c)
  }

  method Draw(n: nat, draw: (nat, nat) -> bit) returns (mod: array2<bit>)
    ensures fresh(mod) && mod.Length0 == mod.Length1 == n && GridOf(mod) == Drawing(n, draw)
  {
    mod := new bit[n, n];
    forall r: nat, c: nat | r < n && c < n {
      mod[r, c] := draw(r, c);
    }
    assert forall cell: Cell | cell in GridOf(mod) :: cell == (cell.0, cell.1) && cell in Drawing(n, draw);
    assert forall cell: Cell | cell in Drawing(n, draw) :: cell == (cell.0, cell.1) && cell in GridOf(mod);
  }

  /** Placement, qrApplyMask and qrWriteFormat in a row. */
  method FinishMatrix(mod: array2<bit>, fn: array2<bool>, n: nat, bits: seq<bit>, m: nat) returns (out: array2<bit>)
    requires IsSide(n) && mod.Length0 == mod.Length1 == n && fn.Length0 == fn.Length1 == n
    requires m < 8 && |bits| <= |Scan(n, FnOf(fn), Steps(n))|
    modifies mod
    ensures fresh(out) && out.Length0 == out.Length1 == n
    ensures GridOf(out) == Symbol(old(GridOf(mod)), n, FnOf(fn), bits, m)
  {
    hide GridOf, FnOf, Scan, Steps, Placed, Masked, Formatted;
    PlaceData(mod, fn, n, bits);
    out := ApplyMask(mod, fn, n, m);
    WriteFormat(out, n, m);
  }

  /** qrBuildMatrix, masked and formatted, whatever was drawn in the function cells. */
  method BuildSymbol(version: nat, bits: seq<bit>, draw: (nat, nat) -> bit, m: nat) returns (out: array2<bit>)
    requires 1 <= version <= 10 && m < 8 && IsSide(4 * version + 17)
    requires |bits| <= |Scan(4 * version + 17, FunctionCells(version), Steps(4 * version + 17))|
    ensures fresh(out) && out.Length0 == out.Length1 == 4 * version + 17
    ensures GridOf(out) == Symbol(Drawing(4 * version + 17, draw), 4 * version + 17, FunctionCells(version), bits, m)
  {
    hide GridOf, FnOf, FunctionCells, Scan, Steps, Symbol, Drawing;
    var n := 4 * version + 17;
    var mod := Draw(n, draw);
    var fn := BuildFunctionCells(version);
    out := FinishMatrix(mod, fn, n, bits, m);
  }

  /** Scanning a matrix that holds len codewords gives back the text exactly when it fitted. */
  ghost predicate ScansBack(text: seq<byte>, version: nat, len: nat, g: Grid) {
    && Selected(|text|, version)
    && var n, fn, bits := 4 * version + 17, FunctionCells(version), 8 * len + REMAINDER_BITS[version - 1];
    && IsSide(n) && bits <= |Scan(n, fn, Steps(n))|
    && TextIn(ReadSymbol(g, fn, Scan(n, fn, Steps(n)), bits), version, len)
       == if Fits(|text|, version) then Some(text) else None
  }

  lemma {:induction false} SymbolScansBack(text: seq<byte>, version: nat, codewords: seq<byte>, blank: Grid, m: nat)
    requires Selected(|text|, version) && IsEncoding(text, version, codewords) && m < 8
    ensures var n, fn, bits := 4 * version + 17, FunctionCells(version), SymbolBits(version, codewords);
            && IsSide(n) && |bits| <= |Scan(n, fn, Steps(n))|
            && ScansBack(text, version, |codewords|, Symbol(blank, n, fn, bits, m))
  {
    assert |SymbolBits(version, codewords)| == 8 * |codewords| + REMAINDER_BITS[version - 1];
    hide FunctionCells, Scan, Symbol, ReadSymbol, TextIn, Fits, IsEncoding, SymbolBits, Steps;
    FinishedSymbolScans(text, version, codewords, blank, m);
  }

  /** qrSVG up to rendering: the matrix it ends with, for any mask, scans back to the text exactly when
      the text fitted its version. */
  method EncodeToMatrix(t: Tables, text: seq<byte>, draw: (nat, nat) -> bit, m: nat)
      returns (version: nat, len: nat, out: array2?<bit>)
    requires t.Valid() && m < 8
    ensures out == null <==> |text| > 216
    ensures out != null ==> ScansBack(text, version, len, GridOf(out))
  {
    version, len, out := 0, 0, null;
    var r := QrEncode(t, text);
    if r.Codewords? {
      version, len := r.version, |r.data|;
      SymbolScansBack(text, version, r.data, Drawing(4 * version + 17, draw), m);
      assert 1 <= version <= 10;
      hide GridOf, FunctionCells, Scan, Symbol, IsEncoding, SymbolBits, Steps, ScansBack, Selected, Drawing;
      var bits := CodewordBits(version, r.data);
      out := BuildSymbol(version, bits, draw, m);
    }
  }
}
