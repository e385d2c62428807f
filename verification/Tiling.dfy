/** How tinyBLAS::mnpack cuts the output into tiles and which thread computes each cell. */
module Tiling {
  import opened Arith

  datatype Registers = R16 | R32

  function Min(a: nat, b: nat): nat {
    if a < b then a else b
  }

  /** The dispatch table: `(RM, RN)` for a region of `dm` rows and `dn` columns, or `(0, 0)`
      where the switch falls to `default`. */
  function Shape(regs: Registers, dm: nat, dn: nat): (s: (nat, nat))
    ensures dm == 0 || dn == 0 <==> s == (0, 0)
    ensures dm > 0 && dn > 0 ==> 1 <= s.0 <= dm && 1 <= s.1 <= dn
    ensures s.0 == 1 ==> dm == 1
    ensures s.1 == 1 ==> dn == 1
  {
    match regs
    case R32 =>
      var key := Min(dm, 5) * 16 + Min(dn, 5);
      if key == 0x55 then (5, 5)
      else if key in {0x54, 0x53, 0x52, 0x45, 0x44, 0x43, 0x42, 0x35, 0x34, 0x33, 0x32,
                      0x25, 0x24, 0x23, 0x22} then (2, 2)
      else if key in {0x51, 0x41, 0x31, 0x21} then (2, 1)
      else if key in {0x15, 0x14, 0x13, 0x12} then (1, 2)
      else if key == 0x11 then (1, 1)
      else (0, 0)
    case R16 =>
      var key := Min(dm, 4) * 16 + Min(dn, 3);
      if key == 0x43 then (4, 3)
      else if key in {0x42, 0x33, 0x32, 0x23, 0x22} then (2, 2)
      else if key in {0x41, 0x31, 0x21} then (2, 1)
      else if key in {0x13, 0x12} then (1, 2)
      else if key == 0x11 then (1, 1)
      else (0, 0)
  }

  function Quot(a: nat, d: nat): nat
    requires d > 0
  {
    a / d
  }

  /** Row-major numbering of a grid `w` wide. */
  function Index(y: nat, w: nat, x: nat): nat {
    y * w + x
  }

  /** A region of the output: rows `m0 <= i < m`, columns `n0 <= j < n`. */
  datatype Region = Region(m0: nat, m: nat, n0: nat, n: nat) {
    predicate Valid() { m0 <= m && n0 <= n }

    predicate Has(i: int, j: int) { m0 <= i < m && n0 <= j < n }

    ghost function Cells(): set<(int, int)> {
      set i, j | m0 <= i < m && n0 <= j < n :: (i, j)
    }
  }

  /** Where whole multiples of `d`, counted from `lo`, stop short of `hi`. */
  function Edge(lo: nat, hi: nat, d: nat): (e: nat)
    requires 1 <= d <= hi - lo
    ensures lo + d <= e <= hi
  {
    FloorMultiple(hi - lo, d);
    lo + (hi - lo) / d * d
  }

  /** The tile of job number `job` in a grid `xtiles` wide whose corner is `(m0, n0)`. */
  function TileAt(m0: nat, n0: nat, xtiles: nat, rm: nat, rn: nat, job: nat): Region
    requires xtiles > 0
  {
    var ii := m0 + Quot(job, xtiles) * rm;
    var jj := n0 + job % xtiles * rn;
    Region(ii, ii + rm, jj, jj + rn)
  }

  /** Jobs a thread takes: `tiles / nth`, rounded up. */
  function Share(tiles: nat, nth: nat): nat
    requires nth > 0
  {
    Quot(tiles + nth - 1, nth)
  }

  /** The grid of `RM` x `RN` tiles one call of tinyBLAS::gemm covers, and its split over threads. */
  datatype Grid = Grid(r: Region, RM: nat, RN: nat, nth: nat) {
    predicate Valid() {
      r.Valid() && 1 <= RM <= r.m - r.m0 && 1 <= RN <= r.n - r.n0 && nth >= 1
    }

    function YTiles(): nat requires Valid() { Quot(r.m - r.m0, RM) }

    function XTiles(): (x: nat)
      requires Valid()
      ensures x >= 1
    {
      DivPositive(r.n - r.n0, RN);
      Quot(r.n - r.n0, RN)
    }

    function Tiles(): nat requires Valid() { XTiles() * YTiles() }

    function Duty(): nat requires Valid() { Share(Tiles(), nth) }

    /** The part of the region the tiles cover. */
    function Covered(): (c: Region)
      requires Valid()
      ensures c.Valid() && c.m0 == r.m0 && c.n0 == r.n0
      ensures r.m0 < c.m <= r.m && r.n0 < c.n <= r.n
    {
      Region(r.m0, Edge(r.m0, r.m, RM), r.n0, Edge(r.n0, r.n, RN))
    }

    /** The number of the tile that holds cell `(i, j)`. */
    function Job(i: nat, j: nat): nat
      requires Valid() && Covered().Has(i, j)
    {
      Index(Quot(i - r.m0, RM), XTiles(), Quot(j - r.n0, RN))
    }

    /** The cells of tile `job`. */
    function Tile(job: nat): (t: Region)
      requires Valid() && job < Tiles()
      ensures t.Valid()
    {
      TileAt(r.m0, r.n0, XTiles(), RM, RN, job)
    }

    /** The cells of the tiles numbered `lo <= job < hi`. */
    ghost function JobCells(lo: nat, hi: nat): set<(int, int)>
      requires Valid()
    {
      var c := Covered();
      set i, j | c.m0 <= i < c.m && c.n0 <= j < c.n && lo <= Job(i, j) < hi :: (i, j)
    }
  }

  lemma IndexInverse(y: nat, h: nat, x: nat, w: nat)
    requires y < h && x < w
    ensures Index(y, w, x) < w * h
    ensures Index(y, w, x) / w == y && Index(y, w, x) % w == x
  {
    MulLe(y + 1, h, w);
    DivMod(Index(y, w, x), w, y, x);
  }

  /** One axis: the tile a coordinate falls in. */
  lemma Cut(lo: nat, hi: nat, d: nat, i: nat)
    requires 1 <= d <= hi - lo && lo <= i < Edge(lo, hi, d)
    ensures (i - lo) / d < (hi - lo) / d
    ensures lo + (i - lo) / d * d <= i < lo + (i - lo) / d * d + d
  {
    DivBelow(i - lo, d, (hi - lo) / d);
    FloorLe(i - lo, d);
  }

  /** One axis: the coordinates tile `q` holds. */
  lemma Span(lo: nat, hi: nat, d: nat, q: nat, i: nat)
    requires 1 <= d <= hi - lo && q < (hi - lo) / d && lo + q * d <= i < lo + q * d + d
    ensures lo <= i < Edge(lo, hi, d) && (i - lo) / d == q
  {
    MulLe(q + 1, (hi - lo) / d, d);
    DivMod(i - lo, d, q, i - lo - q * d);
  }

  /** Every covered cell lies in exactly the tile that `Job` names. */
  lemma JobInRange(g: Grid, i: nat, j: nat)
    requires g.Valid() && g.Covered().Has(i, j)
    ensures g.Job(i, j) < g.Tiles()
    ensures g.Tile(g.Job(i, j)).Has(i, j)
  {
    Cut(g.r.m0, g.r.m, g.RM, i);
    Cut(g.r.n0, g.r.n, g.RN, j);
    IndexInverse((i - g.r.m0) / g.RM, g.YTiles(), (j - g.r.n0) / g.RN, g.XTiles());
  }

  lemma TileIsJob(g: Grid, job: nat, i: nat, j: nat)
    requires g.Valid() && job < g.Tiles() && g.Tile(job).Has(i, j)
    ensures g.Covered().Has(i, j) && g.Job(i, j) == job
  {
    DivBelow(job, g.XTiles(), g.YTiles());
    Span(g.r.m0, g.r.m, g.RM, job / g.XTiles(), i);
    Span(g.r.n0, g.r.n, g.RN, job % g.XTiles(), j);
    FloorLe(job, g.XTiles());
  }

  /** Running one more job adds exactly the cells of its tile, none of them seen before. */
  lemma JobCellsStep(g: Grid, lo: nat, job: nat)
    requires g.Valid() && lo <= job < g.Tiles()
    ensures g.JobCells(lo, job + 1) == g.JobCells(lo, job) + g.Tile(job).Cells()
    ensures g.JobCells(lo, job) !! g.Tile(job).Cells()
  {
    var t, c := g.Tile(job), g.Covered();
    forall i, j | t.Has(i, j)
      ensures c.Has(i, j) && g.Job(i, j) == job
    {
      TileIsJob(g, job, i, j);
    }
    forall i, j | c.Has(i, j) && g.Job(i, j) == job
      ensures t.Has(i, j)
    {
      JobInRange(g, i, j);
    }
    forall p | p in g.JobCells(lo, job + 1)
      ensures p in g.JobCells(lo, job) + t.Cells()
    {
      if g.Job(p.0, p.1) == job {
        assert t.Has(p.0, p.1);
      }
    }
    forall p | p in t.Cells()
      ensures p in g.JobCells(lo, job + 1) && p !in g.JobCells(lo, job)
    {
      assert t.Has(p.0, p.1);
    }
  }

  // ----- ownership -----

  function GridOf(regs: Registers, nth: nat, r: Region): (g: Grid)
    requires r.Valid() && nth >= 1 && Shape(regs, r.m - r.m0, r.n - r.n0) != (0, 0)
    ensures g.Valid() && g.r == r && g.nth == nth
    ensures (g.RM == 1 ==> r.m - r.m0 == 1) && (g.RN == 1 ==> r.n - r.n0 == 1)
  {
    var (rm, rn) := Shape(regs, r.m - r.m0, r.n - r.n0);
    Grid(r, rm, rn, nth)
  }

  /** The two regions left over below and to the right of the tiles. */
  function Below(g: Grid): (b: Region)
    requires g.Valid()
    ensures b.Valid() && b.m - b.m0 < g.r.m - g.r.m0 && b.n - b.n0 <= g.r.n - g.r.n0
  {
    Region(g.Covered().m, g.r.m, g.r.n0, g.Covered().n)
  }

  function Right(g: Grid): (b: Region)
    requires g.Valid()
    ensures b.Valid() && b.m - b.m0 == g.r.m - g.r.m0 && b.n - b.n0 < g.r.n - g.r.n0
  {
    Region(g.r.m0, g.r.m, g.Covered().n, g.r.n)
  }

  /** The thread whose share of the jobs holds the tile of `(i, j)`. */
  function TileOwner(g: Grid, i: nat, j: nat): (ith: nat)
    requires g.Valid() && g.Covered().Has(i, j)
    ensures ith < g.nth
  {
    JobInRange(g, i, j);
    DutyPositive(g);
    DivBelow(g.Job(i, j), g.Duty(), g.nth);
    Quot(g.Job(i, j), g.Duty())
  }

  /** The thread that computes cell `(i, j)`. */
  function Owner(regs: Registers, nth: nat, r: Region, i: nat, j: nat): (ith: nat)
    requires r.Valid() && r.Has(i, j) && nth >= 1
    ensures ith < nth
    decreases r.m - r.m0 + (r.n - r.n0)
  {
    var g := GridOf(regs, nth, r);
    if g.Covered().Has(i, j) then TileOwner(g, i, j)
    else if j < g.Covered().n then Owner(regs, nth, Below(g), i, j)
    else Owner(regs, nth, Right(g), i, j)
  }

  lemma DutyPositive(g: Grid)
    requires g.Valid() && g.Tiles() > 0
    ensures g.Duty() >= 1
    ensures g.Tiles() <= g.nth * g.Duty()
  {
    var a := g.Tiles() + g.nth - 1;
    DivPositive(a, g.nth);
    assert a == a / g.nth * g.nth + a % g.nth;
  }

  /** The cells of a region that thread `ith` computes. */
  ghost function Owned(regs: Registers, nth: nat, r: Region, ith: nat): set<(int, int)>
    requires r.Valid() && nth >= 1
  {
    set i, j | r.m0 <= i < r.m && r.n0 <= j < r.n && Owner(regs, nth, r, i, j) == ith :: (i, j)
  }

  function First(duty: nat, ith: nat): nat { duty * ith }

  function Start(g: Grid, ith: nat): nat requires g.Valid() { First(g.Duty(), ith) }

  function End(g: Grid, ith: nat): nat
    requires g.Valid()
  {
    if Start(g, ith) + g.Duty() > g.Tiles() then g.Tiles() else Start(g, ith) + g.Duty()
  }

  lemma JobOwner(g: Grid, ith: nat, job: nat)
    requires g.Valid() && job < g.Tiles()
    ensures g.Duty() >= 1
    ensures job / g.Duty() == ith <==> Start(g, ith) <= job < End(g, ith)
  {
    DutyPositive(g);
    var d := g.Duty();
    assert job == job / d * d + job % d;
    if job / d == ith {
    } else if Start(g, ith) <= job < Start(g, ith) + d {
      DivMod(job, d, ith, job - d * ith);
    }
  }

  lemma CoveredOwner(regs: Registers, nth: nat, g: Grid, ith: nat, i: nat, j: nat)
    requires g.r.Valid() && nth >= 1 && Shape(regs, g.r.m - g.r.m0, g.r.n - g.r.n0) != (0, 0)
    requires g == GridOf(regs, nth, g.r) && g.Covered().Has(i, j)
    ensures Owner(regs, nth, g.r, i, j) == ith
       <==> Start(g, ith) <= g.Job(i, j) < End(g, ith)
  {
    JobInRange(g, i, j);
    JobOwner(g, ith, g.Job(i, j));
  }

  lemma OwnedCases(regs: Registers, nth: nat, g: Grid, ith: nat, i: nat, j: nat)
    requires g.r.Valid() && nth >= 1 && Shape(regs, g.r.m - g.r.m0, g.r.n - g.r.n0) != (0, 0)
    requires g == GridOf(regs, nth, g.r) && g.r.Has(i, j)
    ensures Owner(regs, nth, g.r, i, j) == ith <==>
      || (g.Covered().Has(i, j) && Start(g, ith) <= g.Job(i, j) < End(g, ith))
      || (Below(g).Has(i, j) && Owner(regs, nth, Below(g), i, j) == ith)
      || (Right(g).Has(i, j) && Owner(regs, nth, Right(g), i, j) == ith)
  {
    if g.Covered().Has(i, j) {
      CoveredOwner(regs, nth, g, ith, i, j);
    }
  }

  /** A thread's share of a region: its tiles, and its shares of the two leftovers. */
  lemma OwnedSplit(regs: Registers, nth: nat, r: Region, ith: nat)
    requires r.Valid() && nth >= 1 && Shape(regs, r.m - r.m0, r.n - r.n0) != (0, 0)
    ensures var g := GridOf(regs, nth, r);
      var tiles := g.JobCells(Start(g, ith), End(g, ith));
      var below := Owned(regs, nth, Below(g), ith);
      var right := Owned(regs, nth, Right(g), ith);
      Owned(regs, nth, r, ith) == tiles + below + right && tiles !! below && (tiles + below) !! right
  {
    var g := GridOf(regs, nth, r);
    var tiles := g.JobCells(Start(g, ith), End(g, ith));
    var below := Owned(regs, nth, Below(g), ith);
    var right := Owned(regs, nth, Right(g), ith);
    forall p: (int, int)
      ensures p in Owned(regs, nth, r, ith) <==> p in tiles || p in below || p in right
    {
      if r.Has(p.0, p.1) {
        OwnedCases(regs, nth, g, ith, p.0, p.1);
      }
    }
  }
}
