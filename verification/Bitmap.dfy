/** The exFAT allocation bitmap: finding a free cluster and flipping runs of bits through
    the window. */
module Bitmap {
  import opened Arithmetic
  import opened Bytes
  import opened VolumeWindow
  import opened FatTable

  // ---- Bits of a byte

  /** Bit j, that is b & (1 << j). */
  function BitOf(b: nat, j: nat): bool
    decreases j
  {
    if j == 0 then b % 2 == 1 else BitOf(b / 2, j - 1)
  }

  /** b ^ (1 << j). */
  function Flip(b: nat, j: nat): nat
    decreases j
  {
    if j == 0 then (if b % 2 == 1 then b - 1 else b + 1) else b % 2 + 2 * Flip(b / 2, j - 1)
  }

  ghost function Pow2(n: nat): nat { if n == 0 then 1 else 2 * Pow2(n - 1) }

  lemma {:induction false} FlipBound(b: nat, j: nat, n: nat)
    requires j < n && b < Pow2(n)
    ensures Flip(b, j) < Pow2(n)
    decreases j
  {
    if j > 0 {
      FlipBound(b / 2, j - 1, n - 1);
    }
  }

  lemma FlipByte(b: byte, j: nat)
    requires j < 8
    ensures Flip(b, j) < 256
  {
    assert Pow2(8) == 256 by {
      assert Pow2(4) == 16;
      assert Pow2(8) == 2 * (2 * (2 * (2 * Pow2(4))));
    }
    FlipBound(b, j, 8);
  }

  /** Exactly bit j is inverted. */
  lemma {:induction false} FlipBits(b: nat, j: nat, i: nat)
    ensures BitOf(Flip(b, j), i) == if i == j then !BitOf(b, j) else BitOf(b, i)
    decreases j
  {
    if j == 0 {
      assert Flip(b, 0) / 2 == b / 2;
    } else {
      var r := Flip(b / 2, j - 1);
      assert (b % 2 + 2 * r) / 2 == r && (b % 2 + 2 * r) % 2 == b % 2;
      if i > 0 {
        FlipBits(b / 2, j - 1, i - 1);
      }
    }
  }

  // ---- The bitmap of a volume

  const PER_SECTOR := 4096

  /** Sectors the bitmap takes, at the top of the cluster heap. */
  function BitmapSectors(g: Geometry): nat { (g.nFatent + 4093) / PER_SECTOR }

  ghost predicate BitmapFits(g: Geometry) {
    g.Valid() && g.fsType == ExFat && g.database + BitmapSectors(g) <= g.nSectors
  }

  lemma FitsAlways(g: Geometry)
    requires g.Valid() && g.fsType == ExFat
    ensures BitmapFits(g)
  {
    HeapSize(g, g.nFatent);
  }

  lemma {:induction false} HeapSize(g: Geometry, c: nat)
    requires g.csize > 0 && c >= 2
    ensures g.ClusterBase(c) >= g.database + (c - 2)
    decreases c
  {
    if c > 2 {
      HeapSize(g, c - 1);
    }
  }

  /** Every bit of the bitmap sectors; bit k stands for cluster k + 2. */
  ghost function Bits(g: Geometry, v: seq<Sector>): (b: seq<bool>)
    requires BitmapFits(g) && |v| == g.nSectors
    ensures |b| == PER_SECTOR * BitmapSectors(g)
  {
    seq(PER_SECTOR * BitmapSectors(g),
        k requires 0 <= k < PER_SECTOR * BitmapSectors(g) => BitOf(v[g.database + k / PER_SECTOR][k / 8 % SS], k % 8))
  }

  /** Where bit k lies, in the arithmetic of the code. */
  lemma BitPlace(k: nat)
    ensures k / 8 / SS == k / PER_SECTOR
  {
    assert k == PER_SECTOR * (k / PER_SECTOR) + k % PER_SECTOR;
  }

  lemma BitDistinct(k: nat, m: nat)
    requires k / PER_SECTOR == m / PER_SECTOR && k / 8 % SS == m / 8 % SS && k % 8 == m % 8
    ensures k == m
  {
    BitPlace(k);
    BitPlace(m);
    assert k == 8 * (k / 8) + k % 8 && m == 8 * (m / 8) + m % 8;
    assert k / 8 == SS * (k / 8 / SS) + k / 8 % SS && m / 8 == SS * (m / 8 / SS) + m / 8 % SS;
  }

  /** Sectors outside the bitmap are the same. */
  ghost predicate SameOutsideBitmap(g: Geometry, v: seq<Sector>, w: seq<Sector>)
    requires |v| == |w| == g.nSectors
  {
    forall s | 0 <= s < g.nSectors && !(g.database <= s < g.database + BitmapSectors(g)) :: v[s] == w[s]
  }

  lemma FlipSetsBit(g: Geometry, v: seq<Sector>, k: nat)
    requires BitmapFits(g) && |v| == g.nSectors && k < PER_SECTOR * BitmapSectors(g)
    ensures var s, i := g.database + k / PER_SECTOR, k / 8 % SS;
      && Flip(v[s][i], k % 8) < 256
      && var w := v[s := v[s][i := Flip(v[s][i], k % 8)]];
         Bits(g, w) == Bits(g, v)[k := !Bits(g, v)[k]] && SameOutsideBitmap(g, v, w)
  {
    var s, i := g.database + k / PER_SECTOR, k / 8 % SS;
    FlipByte(v[s][i], k % 8);
    var w := v[s := v[s][i := Flip(v[s][i], k % 8)]];
    var b, b' := Bits(g, v), Bits(g, w);
    forall m | 0 <= m < |b| ensures b'[m] == if m == k then !b[k] else b[m] {
      FlipBits(v[s][i], k % 8, m % 8);
      if m / PER_SECTOR == k / PER_SECTOR && m / 8 % SS == i && m % 8 == k % 8 {
        BitDistinct(m, k);
      }
    }
  }

  /** Reads bit k from the window, which is already in place. */
  method TestBit(vol: Volume, k: nat) returns (b: bool)
    requires vol.Valid() && BitmapFits(vol.g) && k < PER_SECTOR * BitmapSectors(vol.g)
    requires vol.winsect == vol.g.database + k / PER_SECTOR
    ensures b == Bits(vol.g, vol.View())[k]
  {
    hide BitOf;
    b := BitOf(vol.win[k / 8 % SS], k % 8);
    assert vol.win[..] == vol.View()[vol.winsect];
    assert vol.win[k / 8 % SS] == vol.win[..][k / 8 % SS];
  }

  /** Inverts bit k in the window, which is already in place. */
  method FlipBit(vol: Volume, k: nat)
    requires vol.Valid() && BitmapFits(vol.g) && k < PER_SECTOR * BitmapSectors(vol.g)
    requires vol.winsect == vol.g.database + k / PER_SECTOR
    modifies vol`wflag, vol.win
    ensures vol.Valid()
    ensures Bits(vol.g, vol.View()) == Bits(vol.g, old(vol.View()))[k := !Bits(vol.g, old(vol.View()))[k]]
    ensures SameOutsideBitmap(vol.g, old(vol.View()), vol.View())
  {
    hide Bits, Flip, SameOutsideBitmap;
    FlipSetsBit(vol.g, vol.View(), k);
    ghost var v := vol.View();
    var i := k / 8 % SS;
    assert vol.win[i] == v[vol.winsect][i] by {
      assert vol.win[..] == v[vol.winsect];
      assert vol.win[..][i] == vol.win[i];
    }
    vol.Poke(i, Flip(vol.win[i], k % 8));
  }

  // ---- find_bitmap for one cluster

  /** First clear bit in lo .. hi-1, or hi if there is none. */
  function FirstClear(b: seq<bool>, lo: nat, hi: nat): (k: nat)
    requires lo <= hi <= |b|
    ensures lo <= k <= hi && (forall m | lo <= m < k :: b[m]) && (k < hi ==> !b[k])
    decreases hi - lo
  {
    if lo == hi || !b[lo] then lo else FirstClear(b, lo + 1, hi)
  }

  /** The first free cluster of n, circularly from bit `start`; 0 if all are in use. */
  function FindFree(b: seq<bool>, n: nat, start: nat): (c: nat)
    requires n <= |b| && start < n
    ensures c == 0 <==> forall m | 0 <= m < n :: b[m]
    ensures c != 0 ==> 2 <= c < n + 2 && !b[c - 2]
  {
    var k := FirstClear(b, start, n);
    if k < n then k + 2
    else
      var m := FirstClear(b, 0, start);
      if m < start then m + 2 else 0
  }

  /** Everything scanned on the way from start to val is in use. */
  ghost predicate Scanned(b: seq<bool>, n: nat, start: nat, val: nat)
    requires n <= |b| && start < n && val < n
  {
    if val >= start then forall m | start <= m < val :: b[m]
    else (forall m | start <= m < n :: b[m]) && (forall m | 0 <= m < val :: b[m])
  }

  /** One bit of the scan. */
  lemma ScanBit(b: seq<bool>, n: nat, start: nat, val: nat)
    requires n <= |b| && start < n && val < n && Scanned(b, n, start, val)
    ensures var next := if val + 1 >= n then 0 else val + 1;
      && (!b[val] ==> FindFree(b, n, start) == val + 2)
      && (b[val] && next == start ==> FindFree(b, n, start) == 0)
      && (b[val] && next != start ==> Scanned(b, n, start, next))
  {
  }

  /** The bit at which a search from cluster clst starts. */
  function StartBit(n: nat, clst: nat): nat
    requires clst < DWORD
  {
    if Sub32(clst, 2) >= n then 0 else Sub32(clst, 2)
  }

  /** find_bitmap for a single cluster: the first free one, circularly from clst; 0 if none. */
  method FindBitmap(vol: Volume, clst: nat) returns (r: nat)
    requires vol.Valid() && BitmapFits(vol.g) && clst < DWORD
    modifies vol`disk, vol`wflag, vol`winsect, vol.win
    ensures vol.Valid() && vol.View() == old(vol.View())
    ensures r == FindFree(Bits(vol.g, vol.View()), vol.g.nFatent - 2, StartBit(vol.g.nFatent - 2, clst))
  {
    hide Volume.Valid, Volume.View, Bits, FindFree, Scanned;
    var n := vol.g.nFatent - 2;
    ghost var b := Bits(vol.g, vol.View());
    var start := StartBit(n, clst);
    var val: nat := start;
    ghost var left: int := n;
    ScanStart(b, n, start);
    while true
      invariant vol.Valid() && vol.View() == old(vol.View()) && val < n && Scanned(b, n, start, val)
      invariant left == Remaining(n, start, val)
      decreases left
    {
      BitPlace(val);
      vol.MoveWindow(vol.g.database + val / 8 / SS);
      ghost var before := left;
      var leave := false;
      while !leave
        invariant vol.Valid() && vol.View() == old(vol.View()) && val < n && Scanned(b, n, start, val)
        invariant left == Remaining(n, start, val) && left <= before && (leave ==> left < before)
        invariant !leave ==> vol.winsect == vol.g.database + val / PER_SECTOR
        decreases left, !leave
      {
        ScanBit(b, n, start, val);
        RemainingNext(n, start, val);
        var bv := TestBit(vol, val);
        var scl := val;
        SectorEnd(val);
        val := val + 1;
        if val >= n {
          val := 0;
          leave := true;
        } else if val % PER_SECTOR == 0 {
          leave := true;
        }
        if !bv {
          return scl + 2;
        }
        if val == start {
          return 0;
        }
        left := left - 1;
      }
    }
  }

  lemma ScanStart(b: seq<bool>, n: nat, start: nat)
    requires n <= |b| && start < n
    ensures Scanned(b, n, start, start)
  {
  }

  ghost function Remaining(n: nat, start: nat, val: nat): int {
    if val >= start then n - (val - start) else start - val
  }

  lemma RemainingNext(n: nat, start: nat, val: nat)
    requires start < n && val < n
    ensures var next := if val + 1 >= n then 0 else val + 1;
      next != start ==> Remaining(n, start, next) == Remaining(n, start, val) - 1
    ensures Remaining(n, start, val) > 0
  {
  }

  lemma SectorEnd(k: nat)
    ensures (k + 1) % PER_SECTOR != 0 ==> (k + 1) / PER_SECTOR == k / PER_SECTOR
    ensures (k + 1) % PER_SECTOR == 0 ==> (k + 1) / PER_SECTOR == k / PER_SECTOR + 1
  {
  }

  // ---- change_bitmap

  /** b with the m bits from k on set to x. */
  function SetRun(b: seq<bool>, k: nat, m: nat, x: bool): (r: seq<bool>)
    requires k + m <= |b|
    ensures |r| == |b| && forall i | 0 <= i < |b| :: r[i] == if k <= i < k + m then x else b[i]
  {
    if m == 0 then b else SetRun(b, k, m - 1, x)[k + m - 1 := x]
  }

  /** How many of the ncl bits from k on differ from x, before the first that does not. */
  function Leading(b: seq<bool>, k: nat, ncl: nat, x: bool): (m: nat)
    requires k + ncl <= |b|
    ensures m <= ncl && (forall i | k <= i < k + m :: b[i] != x) && (m < ncl ==> b[k + m] == x)
    decreases ncl
  {
    if ncl == 0 || b[k] == x then 0 else 1 + Leading(b, k + 1, ncl - 1, x)
  }

  lemma LeadingIs(b: seq<bool>, k: nat, ncl: nat, x: bool, m: nat)
    requires k + ncl <= |b| && m <= ncl && (forall i | k <= i < k + m :: b[i] != x) && (m < ncl ==> b[k + m] == x)
    ensures Leading(b, k, ncl, x) == m
  {
    var l := Leading(b, k, ncl, x);
    assert l < ncl ==> b[k + l] == x;
  }

  /** The run from k0 has been flipped up to, but not including, bit k. */
  ghost predicate Flipped(b: seq<bool>, now: seq<bool>, k0: nat, k: nat, x: bool) {
    && k0 <= k <= |b| && now == SetRun(b, k0, k - k0, x)
    && forall i | k0 <= i < k :: b[i] != x
  }

  lemma FlippedNext(b: seq<bool>, now: seq<bool>, k0: nat, k: nat, x: bool)
    requires Flipped(b, now, k0, k, x) && k < |b|
    ensures |now| == |b| && now[k] == b[k]
    ensures now[k] != x ==> Flipped(b, now[k := !now[k]], k0, k + 1, x)
  {
  }

  lemma FlippedEnd(b: seq<bool>, now: seq<bool>, k0: nat, k: nat, ncl: nat, x: bool)
    requires Flipped(b, now, k0, k, x) && k0 + ncl <= |b| && k <= k0 + ncl && (k < k0 + ncl ==> b[k] == x)
    ensures Leading(b, k0, ncl, x) == k - k0 && now == SetRun(b, k0, k - k0, x)
  {
    LeadingIs(b, k0, ncl, x, k - k0);
  }

  /** One bit of a run: flipped, unless it has the value already. */
  method FlipNext(vol: Volume, k: nat, bv: bool, ghost k0: nat, ghost b: seq<bool>, ghost v0: seq<Sector>)
    returns (same: bool)
    requires vol.Valid() && BitmapFits(vol.g) && k + 2 < vol.g.nFatent && |v0| == vol.g.nSectors
    requires |b| == PER_SECTOR * BitmapSectors(vol.g) && Flipped(b, Bits(vol.g, vol.View()), k0, k, bv)
    requires vol.winsect == vol.g.database + k / PER_SECTOR && SameOutsideBitmap(vol.g, v0, vol.View())
    modifies vol`wflag, vol.win
    ensures vol.Valid() && SameOutsideBitmap(vol.g, v0, vol.View()) && (same <==> b[k] == bv)
    ensures Flipped(b, Bits(vol.g, vol.View()), k0, if same then k else k + 1, bv)
  {
    hide Volume.Valid, Volume.View, Geometry.Valid, BitmapFits, BitmapSectors, Bits, SameOutsideBitmap, BitOf, SetRun,
         Flipped;
    InBitmap(vol.g, k);
    FlippedNext(b, Bits(vol.g, vol.View()), k0, k, bv);
    var bit := TestBit(vol, k);
    same := bv == bit;
    if !same {
      ghost var v := vol.View();
      FlipBit(vol, k);
      SameBitmapTrans(vol.g, v0, v, vol.View());
    }
  }

  /** change_bitmap: flips the run of ncl bits from clst on to bv; it stops with an error at
      the first bit that has that value already, leaving the bits before it flipped. */
  method ChangeBitmap(vol: Volume, clst: nat, ncl: nat, bv: bool) returns (res: FResult)
    requires vol.Valid() && BitmapFits(vol.g) && 2 <= clst && 0 < ncl && clst + ncl <= vol.g.nFatent
    modifies vol`disk, vol`wflag, vol`winsect, vol.win
    ensures vol.Valid()
    ensures var b := Bits(vol.g, old(vol.View()));
      var m := Leading(b, clst - 2, ncl, bv);
      && Bits(vol.g, vol.View()) == SetRun(b, clst - 2, m, bv)
      && res == if m == ncl then FrOk else FrIntErr
    ensures SameOutsideBitmap(vol.g, old(vol.View()), vol.View())
  {
    hide Volume.Valid, Volume.View, Geometry.Valid, BitmapFits, BitmapSectors, Bits, Leading, SameOutsideBitmap,
         BitOf, SetRun, Flipped;
    InBitmap(vol.g, clst - 2);
    var k, left := clst - 2, ncl;
    ghost var v0 := vol.View();
    ghost var b := Bits(vol.g, v0);
    SameBitmapRefl(vol.g, v0);
    FlippedStart(b, k, bv);
    while true
      invariant vol.Valid() && clst - 2 <= k && 0 < left && k + left == clst - 2 + ncl
      invariant Flipped(b, Bits(vol.g, vol.View()), clst - 2, k, bv)
      invariant SameOutsideBitmap(vol.g, v0, vol.View())
      decreases left, 1
    {
      BitPlace(k);
      InBitmap(vol.g, k);
      vol.MoveWindow(vol.g.database + k / 8 / SS);
      ghost var before := left;
      var leave := false;
      while !leave
        invariant vol.Valid() && clst - 2 <= k && 0 < left <= before && k + left == clst - 2 + ncl
        invariant Flipped(b, Bits(vol.g, vol.View()), clst - 2, k, bv)
        invariant SameOutsideBitmap(vol.g, v0, vol.View())
        invariant !leave ==> vol.winsect == vol.g.database + k / PER_SECTOR
        invariant leave ==> left < before
        decreases left, !leave
      {
        SectorEnd(k);
        var same := FlipNext(vol, k, bv, clst - 2, b, v0);
        if same {
          FlippedEnd(b, Bits(vol.g, vol.View()), clst - 2, k, ncl, bv);
          return FrIntErr;
        }
        left, k := left - 1, k + 1;
        if left == 0 {
          FlippedEnd(b, Bits(vol.g, vol.View()), clst - 2, k, ncl, bv);
          return FrOk;
        }
        leave := k % PER_SECTOR == 0;
      }
    }
  }

  /** The bits of the clusters lie in the bitmap. */
  lemma InBitmap(g: Geometry, k: nat)
    requires BitmapFits(g) && k + 2 < g.nFatent
    ensures k < PER_SECTOR * BitmapSectors(g) && g.database + k / PER_SECTOR < g.nSectors
    ensures g.nFatent - 2 <= PER_SECTOR * BitmapSectors(g)
    ensures g.Valid()
  {
  }

  lemma FlippedStart(b: seq<bool>, k: nat, x: bool)
    requires k <= |b|
    ensures Flipped(b, b, k, k, x)
  {
  }

  lemma SameBitmapRefl(g: Geometry, v: seq<Sector>)
    requires |v| == g.nSectors
    ensures SameOutsideBitmap(g, v, v)
  {
  }

  lemma SameBitmapTrans(g: Geometry, u: seq<Sector>, v: seq<Sector>, w: seq<Sector>)
    requires |u| == |v| == |w| == g.nSectors && SameOutsideBitmap(g, u, v) && SameOutsideBitmap(g, v, w)
    ensures SameOutsideBitmap(g, u, w)
  {
  }

  // ---- Which bit is where, and which one is found

  lemma {:induction false} BitOfIs(b: nat, j: nat)
    ensures Pow2(j) > 0 && (BitOf(b, j) <==> b / Pow2(j) % 2 == 1)
    decreases j
  {
    if j > 0 {
      BitOfIs(b / 2, j - 1);
      HalfFirst(b, Pow2(j - 1));
    }
  }

  lemma HalfFirst(b: nat, p: nat)
    requires p > 0
    ensures b / 2 / p == b / (2 * p)
  {
    var q := b / 2 / p;
    DivIs(b / 2, p, q);
    DivIs(b, 2 * p, q);
    assert q * (2 * p) == 2 * (q * p);
  }

  /** The bit of cluster k + 2: bit k % 8, counted from the lowest, of byte k / 8 of the bitmap. */
  lemma BitOnDisk(g: Geometry, v: seq<Sector>, k: nat)
    requires BitmapFits(g) && |v| == g.nSectors && k < 4096 * BitmapSectors(g)
    ensures g.database + k / 4096 < |v|
    ensures Pow2(k % 8) > 0 && (Bits(g, v)[k] <==> v[g.database + k / 4096][k / 8 % 512] / Pow2(k % 8) % 2 == 1)
  {
    BitOfIs(v[g.database + k / 4096][k / 8 % 512], k % 8);
  }

  /** The search starts at the bit of the cluster it is given, or at the first one. */
  lemma StartBitIs(n: nat, clst: nat)
    requires clst < DWORD && n < DWORD - 2
    ensures StartBit(n, clst) == if 2 <= clst < n + 2 then clst - 2 else 0
  {
  }

  /** It finds the first clear bit from there on, going round. */
  lemma FindsFirst(b: seq<bool>, n: nat, start: nat)
    requires n <= |b| && start < n
    ensures var c := FindFree(b, n, start);
      c != 0 ==>
        forall m | 0 <= m < n && (if start <= c - 2 then start <= m < c - 2 else m >= start || m < c - 2) :: b[m]
  {
  }
}
