/** The exFAT branches of get_fat, create_chain, remove_chain and the fragment writers, on a
    volume and an open object. */
module ExFatAlloc {
  import opened Bytes
  import opened VolumeWindow
  import opened FatTable
  import opened Bitmap
  import opened LazyChain
  import opened ExFatSpec

  /** The allocation part of an open object, updated in place. */
  class Obj {
    var stat: nat
    var sclust: nat
    var objsize: nat
    var nCont: nat
    var nFrag: nat

    function Value(): XObj
      reads this
    {
      XObj(stat, sclust, objsize, nCont, nFrag)
    }
  }

  ghost predicate Ready(vol: Volume)
    reads vol, vol.win
    ensures Ready(vol) ==> vol.Valid() && BitmapFits(vol.g)
  {
    vol.Valid() && BitmapFits(vol.g)
  }

  ghost function XOf(vol: Volume): (x: XVol)
    requires Ready(vol)
    reads vol, vol.win
    ensures x.Valid() && |x.f| == vol.g.nFatent
  {
    var x := XVol(Fat(vol.g, vol.View()), Bits(vol.g, vol.View()), vol.freeClst, vol.lastClst);
    InBitmap(vol.g, 0);
    x
  }

  /** FAT and bitmap do not overlap. */
  lemma FatKeepsBits(g: Geometry, v: seq<Sector>, w: seq<Sector>)
    requires BitmapFits(g) && |v| == |w| == g.nSectors && SameOutsideFat(g, v, w)
    ensures Bits(g, w) == Bits(g, v)
  {
    hide BitOf;
  }

  lemma BitsKeepFat(g: Geometry, v: seq<Sector>, w: seq<Sector>)
    requires BitmapFits(g) && |v| == |w| == g.nSectors && SameOutsideBitmap(g, v, w)
    ensures Fat(g, w) == Fat(g, v)
  {
    hide Fat, Bits;
    SameFat(g, v, w);
  }

  /** Sectors outside FAT and bitmap are the same. */
  ghost predicate SameData(g: Geometry, v: seq<Sector>, w: seq<Sector>)
    requires |v| == |w| == g.nSectors
  {
    forall s | 0 <= s < g.nSectors && !g.InFat1(s) && !g.InFat2(s)
      && !(g.database <= s < g.database + BitmapSectors(g)) :: v[s] == w[s]
  }

  lemma SameDataTrans(g: Geometry, u: seq<Sector>, v: seq<Sector>, w: seq<Sector>)
    requires |u| == |v| == |w| == g.nSectors
    requires u == v || SameData(g, u, v)
    requires v == w || SameData(g, v, w) || SameOutsideFat(g, v, w) || SameOutsideBitmap(g, v, w)
    ensures SameData(g, u, w)
  {
  }

  /** get_fat. */
  method GetFatX(vol: Volume, o: Obj, clst: nat) returns (val: nat)
    requires Ready(vol) && clst < DWORD && o.sclust < DWORD
    modifies vol`disk, vol`wflag, vol`winsect, vol.win
    ensures Ready(vol) && vol.View() == old(vol.View())
    ensures val == XGet(XOf(vol).f, o.Value(), vol.g.csize, clst)
  {
    hide Fat, FatImage, Volume.Valid, Volume.View, Bits, BitmapFits;
    if clst < 2 || clst >= vol.g.nFatent {
      return 1;
    }
    if o.objsize != 0 {
      var cofs := Sub32(clst, o.sclust);
      var clen := (o.objsize - 1) / SS % DWORD / vol.g.csize;
      if o.stat == 2 && cofs <= clen {
        return if cofs == clen then XEOC else clst + 1;
      }
      if o.stat == 3 && cofs < o.nCont {
        return clst + 1;
      }
      if o.stat != 2 {
        if o.nFrag != 0 {
          return XEOC;
        }
        val := TableEntry(vol, clst);
        return;
      }
    }
    return 1;
  }

  /** An entry of the FAT itself. */
  method TableEntry(vol: Volume, clst: nat) returns (val: nat)
    requires Ready(vol) && clst < vol.g.nFatent
    modifies vol`disk, vol`wflag, vol`winsect, vol.win
    ensures Ready(vol) && vol.View() == old(vol.View())
    ensures val == Fat(vol.g, vol.View())[clst]
  {
    hide FatImage, Volume.Valid, Volume.View, Bits;
    var cell := PeekCell(vol, clst);
    val := cell % 0x80000000;
  }

  /** put_fat on an exFAT volume. */
  method PutX(vol: Volume, clst: nat, val: nat)
    requires Ready(vol) && 2 <= clst < vol.g.nFatent && val < DWORD
    modifies vol`disk, vol`wflag, vol`winsect, vol.win
    ensures Ready(vol) && SameData(vol.g, old(vol.View()), vol.View())
    ensures XOf(vol) == old(XOf(vol)).(f := old(XOf(vol)).f[clst := val % 0x80000000])
  {
    hide Fat, Volume.Valid, Volume.View, Bits;
    ghost var v := vol.View();
    var res := PutFat(vol, clst, val);
    FatKeepsBits(vol.g, v, vol.View());
    SameDataTrans(vol.g, v, v, vol.View());
  }

  /** fill_first_frag. */
  method FillFirstFrag(vol: Volume, o: Obj)
    requires Ready(vol) && (o.stat == 3 ==> 2 <= o.sclust && o.sclust + o.nCont <= vol.g.nFatent)
    modifies vol`disk, vol`wflag, vol`winsect, vol.win, o`stat
    ensures Ready(vol) && (XOf(vol).f, o.Value()) == FillFirst(old(XOf(vol)).f, old(o.Value()))
    ensures XOf(vol) == old(XOf(vol)).(f := XOf(vol).f)
    ensures SameData(vol.g, old(vol.View()), vol.View())
  {
    hide Fat, Volume.Valid, Volume.View, Bits, BitmapFits, SameData;
    ghost var v0, x0 := vol.View(), XOf(vol);
    SameDataTrans(vol.g, v0, v0, v0);
    if o.stat == 3 {
      var cl, n := o.sclust, o.nCont;
      while n > 0
        invariant Ready(vol) && cl + n == o.sclust + o.nCont && n >= 0 && 2 <= cl
        invariant LinkRun(XOf(vol).f, cl, n) == LinkRun(x0.f, o.sclust, o.nCont)
        invariant XOf(vol) == x0.(f := XOf(vol).f) && SameData(vol.g, v0, vol.View())
      {
        ghost var v := vol.View();
        PutX(vol, cl, cl + 1);
        SameDataTrans(vol.g, v0, v, vol.View());
        cl, n := cl + 1, n - 1;
      }
      o.stat := 0;
    }
  }

  /** fill_last_frag. */
  method FillLastFrag(vol: Volume, o: Obj, lcl: nat, term: nat)
    requires Ready(vol) && lcl < vol.g.nFatent && o.nFrag < lcl && term < DWORD
    modifies vol`disk, vol`wflag, vol`winsect, vol.win, o`nFrag
    ensures Ready(vol) && o.Value() == old(o.Value()).(nFrag := 0)
    ensures XOf(vol) == old(XOf(vol)).(f := FillLast(old(XOf(vol)).f, old(o.nFrag), lcl, term % 0x80000000))
    ensures SameData(vol.g, old(vol.View()), vol.View())
  {
    hide Fat, Volume.Valid, Volume.View, Geometry.Valid, Bits, BitmapFits, SameData, FillLast;
    ghost var v0, x0 := vol.View(), XOf(vol);
    SameDataTrans(vol.g, v0, v0, v0);
    FillLastNone(x0.f, lcl, term % 0x80000000);
    ghost var t := term % 0x80000000;
    ghost var goal := FillLast(x0.f, o.nFrag, lcl, t);
    while o.nFrag > 0
      invariant Ready(vol) && o.nFrag <= old(o.nFrag)
      invariant FillLast(XOf(vol).f, o.nFrag, lcl, t) == goal
      invariant XOf(vol) == x0.(f := XOf(vol).f) && SameData(vol.g, v0, vol.View())
      decreases o.nFrag
    {
      ghost var v := vol.View();
      FillLastStep(XOf(vol).f, o.nFrag, lcl, term);
      PutX(vol, lcl - o.nFrag + 1, if o.nFrag > 1 then lcl - o.nFrag + 2 else term);
      SameDataTrans(vol.g, v0, v, vol.View());
      o.nFrag := o.nFrag - 1;
    }
    FillLastNone(XOf(vol).f, lcl, t);
  }

  lemma FillLastStep(f: seq<nat>, m: nat, lcl: nat, term: nat)
    requires 0 < m <= lcl < |f| <= XEOC
    ensures FillLast(f, m, lcl, term % 0x80000000)
      == FillLast(f[lcl + 1 - m := (if m > 1 then lcl + 2 - m else term) % 0x80000000], m - 1, lcl, term % 0x80000000)
  {
  }

  lemma FillLastNone(f: seq<nat>, lcl: nat, term: nat)
    requires lcl < |f|
    ensures FillLast(f, 0, lcl, term) == f
  {
  }

  /** Takes the free cluster ncl. */
  method MarkInUse(vol: Volume, ncl: nat)
    requires Ready(vol) && 2 <= ncl < vol.g.nFatent && !XOf(vol).bits[ncl - 2]
    modifies vol`disk, vol`wflag, vol`winsect, vol.win
    ensures Ready(vol) && XOf(vol) == old(XOf(vol)).(bits := old(XOf(vol)).bits[ncl - 2 := true])
    ensures SameData(vol.g, old(vol.View()), vol.View())
  {
    hide Fat, Volume.Valid, Volume.View, Bits;
    ghost var v, b := vol.View(), XOf(vol).bits;
    LeadingIs(b, ncl - 2, 1, true, 1);
    assert SetRun(b, ncl - 2, 1, true) == b[ncl - 2 := true];
    var res := ChangeBitmap(vol, ncl, 1, true);
    BitsKeepFat(vol.g, v, vol.View());
    SameDataTrans(vol.g, v, v, vol.View());
  }

  /** The chain status part of create_chain. */
  method AttachCluster(vol: Volume, o: Obj, clst: nat, ncl: nat)
    requires Ready(vol) && clst < vol.g.nFatent && 2 <= ncl < vol.g.nFatent && o.sclust < DWORD
    requires clst != 0 ==> 2 <= clst && o.nFrag < clst
    modifies vol`disk, vol`wflag, vol`winsect, vol.win, o
    ensures Ready(vol)
    ensures old(o.nFrag) <= clst + 1 ==>
      (XOf(vol).f, o.Value()) == Attach(old(XOf(vol)).f, old(o.Value()), clst, ncl)
    ensures XOf(vol) == old(XOf(vol)).(f := XOf(vol).f)
    ensures SameData(vol.g, old(vol.View()), vol.View())
  {
    hide Fat, Volume.Valid, Volume.View, Bits, BitmapFits, SameData;
    SameDataTrans(vol.g, vol.View(), vol.View(), vol.View());
    if clst == 0 {
      o.stat := 2;
    } else {
      if o.stat == 2 && ncl != clst + 1 {
        o.nCont := Sub32(clst, o.sclust);
        o.stat := 3;
      }
      if o.stat != 2 {
        if ncl == clst + 1 {
          o.nFrag := if o.nFrag > 0 then o.nFrag + 1 else 2;
        } else {
          if o.nFrag == 0 {
            o.nFrag := 1;
          }
          FillLastFrag(vol, o, clst, ncl);
          o.nFrag := 1;
        }
      }
    }
  }

  /** create_chain on an exFAT volume. */
  method CreateChainX(vol: Volume, o: Obj, clst: nat) returns (r: nat)
    requires Ready(vol) && clst < DWORD && o.sclust < DWORD && (clst != 0 ==> o.nFrag < clst) && o.nFrag <= clst + 1
    modifies vol`disk, vol`wflag, vol`winsect, vol`freeClst, vol`lastClst, vol.win, o
    ensures Ready(vol)
    ensures (XOf(vol), o.Value(), r) == XCreate(old(XOf(vol)), old(o.Value()), vol.g.csize, clst)
    ensures SameData(vol.g, old(vol.View()), vol.View())
  {
    hide Fat, Volume.Valid, Volume.View, Geometry.Valid, Bits, BitmapFits, SameData, FindFree, Attach, XGet;
    var n := vol.g.nFatent;
    ghost var v0, x0 := vol.View(), XOf(vol);
    SameDataTrans(vol.g, v0, v0, v0);
    var scl;
    if clst == 0 {
      scl := vol.lastClst;
      if scl == 0 || scl >= n {
        scl := 1;
      }
    } else {
      var cs := GetFatX(vol, o, clst);
      OutOfRange(x0.f, o.Value(), vol.g.csize, clst);
      if cs < 2 {
        return 1;
      }
      if cs < n {
        return cs;
      }
      scl := clst;
    }
    if vol.freeClst == 0 {
      return 0;
    }
    var ncl := FindBitmap(vol, scl);
    if ncl == 0 {
      return 0;
    }
    assert XOf(vol) == x0;
    MarkInUse(vol, ncl);
    ghost var v1 := vol.View();
    AttachCluster(vol, o, clst, ncl);
    SameDataTrans(vol.g, v0, v1, vol.View());
    vol.SetHints(if vol.freeClst <= n - 2 then vol.freeClst - 1 else vol.freeClst, ncl);
    return ncl;
  }

  lemma OutOfRange(f: seq<nat>, o: XObj, csize: nat, clst: nat)
    requires csize > 0 && clst < DWORD && o.sclust < DWORD
    ensures XGet(f, o, csize, clst) >= 2 ==> 2 <= clst < |f|
  {
  }

  /** Clears the block scl .. ecl of the bitmap. */
  method ReleaseBlock(vol: Volume, scl: nat, ecl: nat)
    requires Ready(vol) && 2 <= scl <= ecl < vol.g.nFatent
    requires Leading(XOf(vol).bits, scl - 2, ecl - scl + 1, false) == ecl - scl + 1
    modifies vol`disk, vol`wflag, vol`winsect, vol.win
    ensures Ready(vol)
    ensures XOf(vol) == old(XOf(vol)).(bits := SetRun(old(XOf(vol)).bits, scl - 2, ecl - scl + 1, false))
    ensures SameData(vol.g, old(vol.View()), vol.View())
  {
    hide Fat, Volume.Valid, Volume.View, Bits, Leading, SetRun;
    ghost var v := vol.View();
    var res := ChangeBitmap(vol, scl, ecl - scl + 1, false);
    BitsKeepFat(vol.g, v, vol.View());
    SameDataTrans(vol.g, v, v, vol.View());
  }

  /** The facts of a removal that do not change while it runs. */
  ghost predicate Removing(f: seq<nat>, o: XObj, csize: nat, s: seq<nat>, k: nat) {
    csize > 0 && Lazy(f, o, s) && Sized(o, csize, s) && o.nFrag == 0 && k < |s|
  }

  /** The loop of remove_chain. */
  method ReleaseChain(vol: Volume, o: Obj, clst: nat, ghost f: seq<nat>, ghost s: seq<nat>, ghost k: nat)
    requires Ready(vol) && Removing(f, o.Value(), vol.g.csize, s, k) && |f| == vol.g.nFatent
    requires XOf(vol).f == CutFat(f, o.Value(), s, k) && InUse(XOf(vol), s) && clst == s[k]
    modifies vol`disk, vol`wflag, vol`winsect, vol`freeClst, vol`lastClst, vol.win
    ensures Ready(vol)
    ensures Within(old(XOf(vol)).bits, s[k..])
    ensures XOf(vol) == old(XOf(vol)).(bits := ClearRuns(old(XOf(vol)).bits, s[k..], 0, s[k]),
                                       free := Bump(old(XOf(vol)).free, |s| - k, vol.g.nFatent - 2))
    ensures SameData(vol.g, old(vol.View()), vol.View())
  {
    hide Fat, Volume.Valid, Volume.View, Geometry.Valid, Bits, BitmapFits, SameData, XGet, SetRun, Leading, CutFat,
         Lazy, InBlock, ClearRuns, Next, Bump, Within, InUse, Members, Sized, Adjacent;
    var n := vol.g.nFatent;
    ghost var v0, x0, t := vol.View(), XOf(vol), s[k..];
    SameDataTrans(vol.g, v0, v0, v0);
    StartBlock(x0, f, o.Value(), s, k);
    ghost var goal, goalFree := ClearRuns(x0.bits, t, 0, t[0]), Bump(x0.free, |t|, n - 2);
    ghost var i, j := 0, 0;
    var c, scl, ecl := clst, clst, clst;
    var more := true;
    while more
      invariant Ready(vol) && XOf(vol) == x0.(bits := XOf(vol).bits, free := vol.freeClst)
      invariant SameData(vol.g, v0, vol.View()) && i <= |t| && (more <==> i < |t|)
      invariant more ==> InBlock(XOf(vol).bits, t, j, i) && c == ecl == t[i] && scl == t[j]
      invariant goal == (if more then ClearRuns(XOf(vol).bits, t, i, t[j]) else XOf(vol).bits)
      invariant goalFree == Bump(vol.freeClst, |t| - i, n - 2)
      decreases |t| - i
    {
      FollowsTail(f, o.Value(), vol.g.csize, s, k, i);
      NextBound(f, o.Value(), s, k, i, j);
      BumpStep(vol.freeClst, |t| - i, n - 2);
      ghost var v := vol.View();
      var nxt := GetFatX(vol, o, c);
      if vol.freeClst < n - 2 {
        vol.SetHints(vol.freeClst + 1, vol.lastClst);
      }
      if ecl + 1 == nxt {
        RoundContinues(XOf(vol).bits, t, j, i);
        ecl := nxt;
      } else {
        RoundEnds(XOf(vol).bits, t, j, i);
        ReleaseBlock(vol, scl, ecl);
        scl, ecl := nxt, nxt;
        j := i + 1;
      }
      SameDataTrans(vol.g, v0, v, vol.View());
      c := nxt;
      i := i + 1;
      more := c < n;
    }
    BumpNone(vol.freeClst, n - 2);
  }

  lemma BumpStep(free: nat, m: nat, cap: nat)
    ensures m > 0 ==> Bump(free, m, cap) == Bump(if free < cap then free + 1 else free, m - 1, cap)
  {
  }

  lemma BumpNone(free: nat, cap: nat)
    ensures Bump(free, 0, cap) == free
  {
  }

  /** The removal starts with a block of one cluster. */
  lemma StartBlock(x: XVol, f: seq<nat>, o: XObj, s: seq<nat>, k: nat)
    requires x.Valid() && InUse(x, s) && Lazy(f, o, s) && k < |s| && |f| == |x.f|
    ensures InBlock(x.bits, s[k..], 0, 0) && s[k..][0] == s[k] && |s[k..]| == |s| - k && o.sclust < DWORD
  {
  }

  lemma NextBound(f: seq<nat>, o: XObj, s: seq<nat>, k: nat, i: nat, j: nat)
    requires Lazy(f, o, s) && k < |s| && i < |s| - k && j <= i
    ensures 2 <= s[k..][i] < |f| && 2 <= s[k..][j] && s[k..][i] < DWORD
    ensures i + 1 < |s| - k ==> Next(s[k..], i) == s[k..][i + 1]
  {
  }

  /** Whether the kept part, followed through the FAT from its start, is contiguous. */
  method StaysContiguous(vol: Volume, o: Obj, pclst: nat, ghost f: seq<nat>, ghost s: seq<nat>, ghost k: nat)
    returns (yes: bool)
    requires Ready(vol) && Removing(f, o.Value(), vol.g.csize, s, k) && 0 < k && pclst == s[k - 1]
    requires XOf(vol).f == CutFat(f, o.Value(), s, k)
    modifies vol`disk, vol`wflag, vol`winsect, vol.win
    ensures Ready(vol) && vol.View() == old(vol.View())
    ensures yes <==> Adjacent(s, 0, k - 1)
  {
    hide Fat, Volume.Valid, Volume.View, Geometry.Valid, Bits, BitmapFits, XGet, CutFat, Lazy, Adjacent;
    ghost var i := 0;
    KeptMembers(f, o.Value(), s, k, 0);
    var clst := o.sclust;
    while clst != pclst
      invariant Ready(vol) && vol.View() == old(vol.View()) && i < k && clst == s[i] && Adjacent(s, 0, i)
      decreases k - i
    {
      KeptMembers(f, o.Value(), s, k, i);
      FollowsKept(f, o.Value(), vol.g.csize, s, k, i);
      var nxt := GetFatX(vol, o, clst);
      if nxt != clst + 1 {
        return false;
      }
      clst := clst + 1;
      i := i + 1;
    }
    KeptMembers(f, o.Value(), s, k, i);
    return true;
  }

  lemma KeptMembers(f: seq<nat>, o: XObj, s: seq<nat>, k: nat, i: nat)
    requires Lazy(f, o, s) && i < k < |s|
    ensures o.sclust == s[0] < DWORD && s[i] < DWORD && (s[i] == s[k - 1] <==> i == k - 1) && Adjacent(s, 0, 0)
    ensures i + 1 < k && s[i + 1] != s[i] + 1 ==> !Adjacent(s, 0, k - 1)
    ensures i + 1 < k && s[i + 1] == s[i] + 1 && Adjacent(s, 0, i) ==> Adjacent(s, 0, i + 1)
  {
    assert i + 1 < k && s[i + 1] != s[i] + 1 ==> !(s[i + 1] == s[i + 1 - 1] + 1);
  }

  /** remove_chain on an exFAT volume: the list s is cut at index k. */
  method RemoveChainX(vol: Volume, o: Obj, clst: nat, pclst: nat, ghost s: seq<nat>, ghost k: nat)
    requires Ready(vol) && Removing(XOf(vol).f, o.Value(), vol.g.csize, s, k) && InUse(XOf(vol), s)
    requires clst == s[k] && pclst == if k == 0 then 0 else s[k - 1]
    modifies vol`disk, vol`wflag, vol`winsect, vol`freeClst, vol`lastClst, vol.win, o`stat
    ensures Ready(vol) && Within(old(XOf(vol)).bits, s[k..])
    ensures XOf(vol) == XVol(CutFat(old(XOf(vol)).f, old(o.Value()), s, k),
                             ClearRuns(old(XOf(vol)).bits, s[k..], 0, s[k]),
                             Bump(old(XOf(vol)).free, |s| - k, vol.g.nFatent - 2), old(XOf(vol)).last)
    ensures o.Value() == old(o.Value()).(stat := CutStat(old(o.Value()), s, k))
    ensures SameData(vol.g, old(vol.View()), vol.View())
  {
    hide Fat, Volume.Valid, Volume.View, Geometry.Valid, Bits, BitmapFits, SameData, XGet, Lazy, ClearRuns, Bump,
         Within, Adjacent, Sized;
    ghost var v0, x0 := vol.View(), XOf(vol);
    SameDataTrans(vol.g, v0, v0, v0);
    ListBounds(x0.f, o.Value(), s);
    if pclst != 0 && o.stat != 2 {
      PutX(vol, pclst, ALL_ONES);
    }
    ghost var v1 := vol.View();
    ReleaseChain(vol, o, clst, x0.f, s, k);
    SameDataTrans(vol.g, v0, v1, vol.View());
    if pclst == 0 {
      o.stat := 0;
    } else if o.stat == 0 {
      ghost var x1 := XOf(vol);
      var yes := StaysContiguous(vol, o, pclst, x0.f, s, k);
      if yes {
        o.stat := 2;
      }
    } else if o.stat == 3 && o.sclust <= pclst <= o.sclust + o.nCont {
      o.stat := 2;
    }
  }

  lemma ListBounds(f: seq<nat>, o: XObj, s: seq<nat>)
    requires Lazy(f, o, s)
    ensures forall i | 0 <= i < |s| :: 2 <= s[i] < |f| <= XEOC
    ensures o.sclust == s[0] < DWORD
  {
  }

  // ---- Counting free clusters

  /** b >> r. */
  ghost function Shr(b: nat, r: nat): nat
    decreases r
  {
    if r == 0 then b else Shr(b / 2, r - 1)
  }

  lemma {:induction false} ShrBit(b: nat, r: nat)
    ensures BitOf(b, r) <==> Shr(b, r) % 2 == 1
    ensures Shr(b, r + 1) == Shr(b, r) / 2
    decreases r
  {
    if r > 0 {
      ShrBit(b / 2, r - 1);
    }
  }

  /** Bit r of byte number q of the bitmap, with the window in place. */
  lemma ByteBits(g: Geometry, v: seq<Sector>, q: nat, r: nat)
    requires BitmapFits(g) && |v| == g.nSectors && r < 8 && 8 * q + r < PER_SECTOR * BitmapSectors(g)
    ensures g.database + q / SS < g.nSectors
    ensures Bits(g, v)[8 * q + r] == BitOf(v[g.database + q / SS][q % SS], r)
  {
    hide BitOf;
    BitPlace(8 * q + r);
    assert (8 * q + r) / 8 == q && (8 * q + r) % 8 == r;
  }

  /** The m bits from k on are the low bits of x. */
  ghost predicate ByteIs(b: seq<bool>, k: nat, x: byte, m: nat) {
    k + m <= |b| && forall r | 0 <= r < m :: b[k + r] == BitOf(x, r)
  }

  lemma ByteIsBits(g: Geometry, v: seq<Sector>, q: nat, m: nat)
    requires BitmapFits(g) && |v| == g.nSectors && 0 < m <= 8 && 8 * q + m <= g.nFatent - 2
    ensures g.database + q / SS < g.nSectors
    ensures ByteIs(Bits(g, v), 8 * q, v[g.database + q / SS][q % SS], m)
  {
    hide Bits, BitOf;
    InBitmap(g, 8 * q + m - 1);
    ByteBits(g, v, q, 0);
    var x := v[g.database + q / SS][q % SS];
    forall r | 0 <= r < m ensures Bits(g, v)[8 * q + r] == BitOf(x, r) {
      ByteBits(g, v, q, r);
    }
  }

  /** Byte number q of the bitmap is byte i of its sector, and k sectors have been entered. */
  ghost predicate Reached(q: nat, i: nat, k: nat) {
    i == q % SS && k == q / SS + if i == 0 then 0 else 1
  }

  lemma ReachedStart()
    ensures Reached(0, 0, 0)
  {
  }

  lemma ReachedNext(q: nat, i: nat, k: nat)
    requires Reached(q, i, k)
    ensures i < SS && Reached(q + 1, (i + 1) % SS, if i == 0 then k + 1 else k)
  {
  }

  lemma ReachedByte(g: Geometry, v: seq<Sector>, q: nat, m: nat, i: nat, k: nat)
    requires BitmapFits(g) && |v| == g.nSectors && 0 < m <= 8 && 8 * q + m <= g.nFatent - 2 && Reached(q, i, k)
    ensures var s := g.database + if i == 0 then k else k - 1;
      0 <= s < g.nSectors && i < SS && ByteIs(Bits(g, v), 8 * q, v[s][i], m)
  {
    hide BitmapFits, Bits, ByteIs;
    ByteIsBits(g, v, q, m);
  }

  /** How many of the bits left to count lie in one byte. */
  function ByteShare(left: nat): nat { if left < 8 then left else 8 }

  /** The number of clear bits within one byte of the bitmap, or in its first `left` bits. */
  method CountByte(x: byte, left: nat, ghost b: seq<bool>, ghost k: nat) returns (zeros: nat, used: nat)
    requires 0 < left && ByteIs(b, k, x, ByteShare(left))
    ensures used == ByteShare(left) && ClearCount(b, k + used) == ClearCount(b, k) + zeros
  {
    hide BitOf;
    var bm: nat := x;
    zeros, used := 0, 0;
    ShrBit(x, 0);
    ShrZero(x);
    while used < 8 && used < left
      invariant used <= ByteShare(left) && bm == Shr(x, used)
      invariant ClearCount(b, k + used) == ClearCount(b, k) + zeros
    {
      ShrBit(x, used);
      assert b[k + used] == BitOf(x, used);
      if bm % 2 == 0 {
        zeros := zeros + 1;
      }
      bm := bm / 2;
      used := used + 1;
    }
  }

  lemma ShrZero(b: nat)
    ensures Shr(b, 0) == b
  {
  }

  method WindowByte(vol: Volume, i: nat) returns (x: byte)
    requires vol.Valid() && i < SS && vol.winsect < vol.g.nSectors
    ensures x == vol.View()[vol.winsect][i]
  {
    x := vol.win[i];
    assert vol.View()[vol.winsect] == vol.win[..];
  }

  /** The bitmap scan of f_getfree. */
  method ScanBitmap(vol: Volume) returns (nfree: nat)
    requires Ready(vol)
    modifies vol`disk, vol`wflag, vol`winsect, vol.win
    ensures Ready(vol) && vol.View() == old(vol.View())
    ensures nfree == ClearCount(XOf(vol).bits, vol.g.nFatent - 2)
  {
    hide Fat, Volume.Valid, Volume.View, Geometry.Valid, Bits, BitmapFits, BitmapSectors, BitOf, ClearCount, ByteIs,
         Reached;
    var g := vol.g;
    ghost var n, b := g.nFatent - 2, XOf(vol).bits;
    CountNone(b);
    ReachedStart();
    var clst, sect, i := g.nFatent - 2, g.database, 0;
    nfree := 0;
    ghost var q := 0;
    while clst > 0
      invariant Ready(vol) && vol.View() == old(vol.View()) && 0 <= clst <= n
      invariant clst > 0 ==> 8 * q + clst == n
      invariant i >= 0 && sect >= g.database && Reached(q, i, sect - g.database)
      invariant i != 0 && clst > 0 ==> vol.winsect == sect - 1
      invariant nfree == ClearCount(b, n - clst)
      decreases clst
    {
      ReachedByte(g, vol.View(), q, ByteShare(clst), i, sect - g.database);
      ReachedNext(q, i, sect - g.database);
      if i == 0 {
        vol.MoveWindow(sect);
        sect := sect + 1;
      }
      var x := WindowByte(vol, i);
      var zeros, used := CountByte(x, clst, b, 8 * q);
      nfree := nfree + zeros;
      clst := clst - used;
      i := (i + 1) % SS;
      q := q + 1;
    }
  }

  lemma CountNone(b: seq<bool>)
    ensures ClearCount(b, 0) == 0
  {
  }

  /** f_getfree on an exFAT volume: afterwards the count is known and right. */
  method GetFreeX(vol: Volume) returns (nclst: nat)
    requires Ready(vol)
    modifies vol`disk, vol`wflag, vol`winsect, vol`freeClst, vol`lastClst, vol.win
    ensures Ready(vol) && XOf(vol) == old(XOf(vol)).(free := nclst)
    ensures old(vol.freeClst) <= vol.g.nFatent - 2 ==> nclst == old(vol.freeClst)
    ensures old(vol.freeClst) > vol.g.nFatent - 2 ==> nclst == ClearCount(XOf(vol).bits, vol.g.nFatent - 2)
  {
    hide Fat, Volume.Valid, Volume.View, Bits, BitmapFits, ClearCount;
    if vol.freeClst <= vol.g.nFatent - 2 {
      return vol.freeClst;
    }
    nclst := ScanBitmap(vol);
    vol.SetHints(nclst, vol.lastClst);
  }
}
