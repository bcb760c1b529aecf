/** create_chain, remove_chain and f_getfree on a FAT12/16/32 volume, through the window. */
module Allocator {
  import opened Bytes
  import opened VolumeWindow
  import opened FatTable
  import opened Chains

  /** The allocator's view of a volume. */
  ghost function StateOf(vol: Volume): (s: FatState)
    requires vol.Valid()
    reads vol, vol.win
  {
    FatState(vol.g.fsType, Fat(vol.g, vol.View()), vol.freeClst, vol.lastClst)
  }

  /** The window is where it was, or on a FAT sector. */
  twostate predicate WindowOnFat(vol: Volume)
    reads vol
  {
    vol.winsect == old(vol.winsect) || vol.g.InFat1(vol.winsect)
  }

  /** Entries read from a volume are no wider than an entry. */
  lemma StateValid(vol: Volume)
    requires vol.Valid() && vol.g.fsType != ExFat
    ensures StateOf(vol).Valid()
  {
    var f := Fat(vol.g, vol.View());
    forall c | 0 <= c < |f| ensures f[c] <= Eoc(vol.g.fsType) {
      EntryWidth(vol.g.fsType, FatImage(vol.g, vol.View()), c);
    }
  }

  lemma EntryWidth(t: FsType, b: seq<byte>, c: nat)
    requires FatBytes(t, c + 1) <= |b|
    ensures Entry(t, b, c) <= Cut(t, ALL_ONES)
  {
    match t
    case Fat12 =>
      var lo, hi := b[c + c / 2], b[c + c / 2 + 1];
      Shared12(lo, hi);
      hide Word;
    case Fat16 =>
    case Fat32 => hide Dword;
    case ExFat => hide Dword;
  }

  lemma {:induction false} FirstLowSkip(f: seq<nat>, lo: nat, mid: nat, hi: nat)
    requires 2 <= lo <= mid && hi <= |f|
    requires forall d | lo <= d < mid && d < hi :: f[d] >= 2
    ensures FirstLow(f, lo, hi) == FirstLow(f, mid, hi)
    decreases mid - lo
  {
    if lo < mid {
      FirstLowSkip(f, lo + 1, mid, hi);
    }
  }

  /** Everything visited on the way from scl to ncl is in use. */
  ghost predicate Visited(f: seq<nat>, scl: nat, ncl: nat)
    requires 1 <= scl < |f| && 1 <= ncl < |f|
  {
    if ncl >= scl then forall d | scl < d <= ncl :: f[d] >= 2
    else (forall d | scl < d < |f| :: f[d] >= 2) && (forall d | 2 <= d <= ncl :: f[d] >= 2)
  }

  /** One round of the search, from prev to ncl. */
  lemma SearchRound(f: seq<nat>, scl: nat, prev: nat, ncl: nat)
    requires |f| >= 3 && 1 <= scl < |f| && 1 <= prev < |f| && Visited(f, scl, prev)
    requires ncl == if prev + 1 >= |f| then 2 else prev + 1
    ensures ncl == 2 && ncl > scl && prev + 1 >= |f| ==> Search(f, scl) == 0
    ensures !(ncl == 2 && ncl > scl && prev + 1 >= |f|) && f[ncl] < 2 ==> Search(f, scl) == ncl
    ensures f[ncl] >= 2 && ncl == scl ==> Search(f, scl) == 0
    ensures f[ncl] >= 2 && ncl != scl && !(ncl == 2 && ncl > scl && prev + 1 >= |f|) ==> Visited(f, scl, ncl)
  {
    if f[ncl] < 2 {
      if ncl > scl && prev + 1 < |f| {
        FirstLowSkip(f, scl + 1, ncl, |f|);
      } else if ncl <= scl {
        FirstLowSkip(f, 2, ncl, scl + 1);
        assert FirstLow(f, scl + 1, |f|) == 0;
      }
    }
  }

  /** The circular search for a free cluster; an illegal entry stops it too. */
  method SearchFree(vol: Volume, scl: nat) returns (ncl: nat, cs: nat)
    requires vol.Valid() && vol.g.fsType != ExFat && 1 <= scl < vol.g.nFatent
    modifies vol`disk, vol`wflag, vol`winsect, vol.win
    ensures vol.Valid() && vol.View() == old(vol.View()) && WindowOnFat(vol)
    ensures ncl == Search(Fat(vol.g, vol.View()), scl)
    ensures ncl != 0 ==> cs == Fat(vol.g, vol.View())[ncl]
  {
    var n := vol.g.nFatent;
    ghost var f := Fat(vol.g, vol.View());
    hide Fat, Search;
    ncl, cs := scl, 0;
    while true
      invariant vol.Valid() && vol.View() == old(vol.View()) && WindowOnFat(vol)
      invariant 1 <= ncl < n && Visited(f, scl, ncl)
      decreases if ncl >= scl then n + (n - ncl) else scl - ncl
    {
      ghost var prev := ncl;
      ncl := ncl + 1;
      SearchRound(f, scl, prev, if ncl >= n then 2 else ncl);
      if ncl >= n {
        ncl := 2;
        if ncl > scl {
          return 0, 0;
        }
      }
      cs := GetFat(vol, ncl);
      if cs < 2 {
        return;
      }
      if ncl == scl {
        return 0, 0;
      }
    }
  }

  lemma Narrow(g: Geometry, c: nat)
    requires g.Valid() && c < g.nFatent
    ensures Cut(g.fsType, c) == c
  {
  }

  /** Marks ncl as the end of a chain and links it from clst. */
  method Link(vol: Volume, clst: nat, ncl: nat)
    requires vol.Valid() && vol.g.fsType != ExFat && 2 <= ncl < vol.g.nFatent
    requires clst == 0 || 2 <= clst < vol.g.nFatent
    modifies vol`disk, vol`wflag, vol`winsect, vol.win
    ensures vol.Valid() && vol.g.InFat1(vol.winsect)
    ensures Fat(vol.g, vol.View()) == Linked(old(StateOf(vol)), clst, ncl)
    ensures SameOutsideFat(vol.g, old(vol.View()), vol.View())
  {
    Narrow(vol.g, ncl);
    hide Fat, Cut;
    var res := PutFat(vol, ncl, ALL_ONES);
    if clst != 0 {
      res := PutFat(vol, clst, ncl);
    }
  }

  /** The choice of the next cluster: behind clst if that is free, else by the search. */
  method ChooseCluster(vol: Volume, clst: nat) returns (ncl: nat, cs: nat)
    requires vol.Valid() && vol.g.fsType != ExFat && (clst == 0 || 2 <= clst < vol.g.nFatent)
    modifies vol`disk, vol`wflag, vol`winsect, vol.win
    ensures vol.Valid() && vol.View() == old(vol.View()) && WindowOnFat(vol)
    ensures ncl == Choose(StateOf(vol), clst)
    ensures ncl != 0 ==> cs == Fat(vol.g, vol.View())[ncl]
  {
    hide Fat, Search, Reflected;
    var n := vol.g.nFatent;
    var scl;
    if clst == 0 {
      scl := vol.lastClst;
      if scl == 0 || scl >= n {
        scl := 1;
      }
    } else {
      scl := clst;
    }
    ncl := 0;
    if scl == clst {
      ncl := scl + 1;
      if ncl >= n {
        ncl := 2;
      }
      cs := GetFat(vol, ncl);
      if cs == 1 {
        return;
      }
      if cs != 0 {
        cs := vol.lastClst;
        if 2 <= cs < n {
          scl := cs;
        }
        ncl := 0;
      }
    }
    if ncl == 0 {
      ncl, cs := SearchFree(vol, scl);
    }
  }

  /** Stretch the chain that ends in clst, or open a new chain when clst is 0.
      0: no free cluster, 1: error, otherwise the cluster that follows. */
  method CreateChain(vol: Volume, clst: nat) returns (r: nat)
    requires vol.Valid() && vol.g.fsType != ExFat
    modifies vol`disk, vol`wflag, vol`winsect, vol`freeClst, vol`lastClst, vol.win
    ensures vol.Valid()
    ensures (StateOf(vol), r) == Create(old(StateOf(vol)), clst)
    ensures SameOutsideFat(vol.g, old(vol.View()), vol.View())
    ensures WindowOnFat(vol)
    ensures StateOf(vol).f != old(StateOf(vol)).f ==> vol.g.InFat1(vol.winsect)
  {
    hide Fat, Choose, Linked, Reflected;
    if clst != 0 {
      var cs := GetFat(vol, clst);
      if cs < 2 {
        return 1;
      }
      if cs < vol.g.nFatent {
        return cs;
      }
    }
    if vol.freeClst == 0 {
      return 0;
    }
    var ncl, cs := ChooseCluster(vol, clst);
    if ncl == 0 {
      return 0;
    }
    if cs == 1 {
      return 1;
    }
    Link(vol, clst, ncl);
    vol.SetHints(if vol.freeClst <= vol.g.nFatent - 2 then vol.freeClst - 1 else vol.freeClst, ncl);
    return ncl;
  }

  /** Frees cluster c and counts it. */
  method FreeCluster(vol: Volume, c: nat)
    requires vol.Valid() && vol.g.fsType != ExFat && 2 <= c < vol.g.nFatent
    modifies vol`disk, vol`wflag, vol`winsect, vol`freeClst, vol`lastClst, vol.win
    ensures vol.Valid() && vol.g.InFat1(vol.winsect) && vol.lastClst == old(vol.lastClst)
    ensures StateOf(vol).f == old(StateOf(vol)).f[c := 0]
    ensures vol.freeClst == if old(vol.freeClst) < vol.g.nFatent - 2 then old(vol.freeClst) + 1 else old(vol.freeClst)
    ensures SameOutsideFat(vol.g, old(vol.View()), vol.View())
  {
    Narrow(vol.g, 0);
    hide Fat, Reflected, Cut;
    var res := PutFat(vol, c, 0);
    if vol.freeClst < vol.g.nFatent - 2 {
      vol.SetHints(vol.freeClst + 1, vol.lastClst);
    }
  }

  /** The freeing loop from cluster clst. */
  method FreeFrom(vol: Volume, clst: nat) returns (ok: bool)
    requires vol.Valid() && vol.g.fsType != ExFat && 2 <= clst < vol.g.nFatent
    modifies vol`disk, vol`wflag, vol`winsect, vol`freeClst, vol`lastClst, vol.win
    ensures vol.Valid() && vol.g.InFat1(vol.winsect) && vol.lastClst == old(vol.lastClst)
    ensures Removal(StateOf(vol).f, vol.freeClst, ok) == Free(old(StateOf(vol)).f, old(vol.freeClst), clst)
    ensures SameOutsideFat(vol.g, old(vol.View()), vol.View())
  {
    hide Fat, SameOutsideFat, Volume.View, Volume.Valid;
    var n := vol.g.nFatent;
    ghost var v0 := vol.View();
    ghost var goal := Free(StateOf(vol).f, vol.freeClst, clst);
    var c := clst;
    while true
      invariant vol.Valid() && 2 <= c < n && vol.lastClst == old(vol.lastClst)
      invariant vol.View() == v0 || SameOutsideFat(vol.g, v0, vol.View())
      invariant Free(StateOf(vol).f, vol.freeClst, c) == goal
      decreases n - FreeCount(StateOf(vol).f, n)
    {
      ghost var v := vol.View();
      FreeCountSet(StateOf(vol).f, c, 0, n);
      var nxt := GetFat(vol, c);
      if nxt == 0 {
        SameRefl(vol.g, v);
        return true;
      }
      if nxt == 1 {
        SameRefl(vol.g, v);
        return false;
      }
      FreeCluster(vol, c);
      if v != v0 {
        SameTrans(vol.g, v0, v, vol.View());
      }
      if nxt >= n {
        return true;
      }
      c := nxt;
    }
  }

  lemma SameRefl(g: Geometry, v: seq<Sector>)
    requires |v| == g.nSectors
    ensures SameOutsideFat(g, v, v)
  {
  }

  /** Remove the chain from clst on; pclst is the cluster before it, 0 for the whole chain. */
  method RemoveChain(vol: Volume, clst: nat, pclst: nat) returns (ok: bool)
    requires vol.Valid() && vol.g.fsType != ExFat
    modifies vol`disk, vol`wflag, vol`winsect, vol`freeClst, vol`lastClst, vol.win
    ensures vol.Valid()
    ensures (StateOf(vol), ok) == Remove(old(StateOf(vol)), clst, pclst)
    ensures SameOutsideFat(vol.g, old(vol.View()), vol.View())
    ensures WindowOnFat(vol)
  {
    hide Fat, Reflected, Free;
    if clst < 2 || clst >= vol.g.nFatent {
      return false;
    }
    if pclst != 0 {
      var res := PutFat(vol, pclst, ALL_ONES);
      if res != FrOk {
        return false;
      }
    }
    ok := FreeFrom(vol, clst);
  }

  /** Number of zero entries among the first hi, the reserved two included. */
  ghost function ZeroCount(f: seq<nat>, hi: nat): nat
    requires hi <= |f|
  {
    if hi == 0 then 0 else ZeroCount(f, hi - 1) + if f[hi - 1] == 0 then 1 else 0
  }

  lemma {:induction false} ZeroCountIs(f: seq<nat>, hi: nat)
    requires 2 <= hi <= |f|
    ensures ZeroCount(f, hi) == FreeCount(f, hi) + (if f[0] == 0 then 1 else 0) + (if f[1] == 0 then 1 else 0)
  {
    if hi > 2 {
      ZeroCountIs(f, hi - 1);
    } else {
      assert ZeroCount(f, 1) == if f[0] == 0 then 1 else 0;
    }
  }

  /** Counts the free clusters of a FAT12 volume entry by entry. */
  method ScanFat12(vol: Volume) returns (nfree: nat)
    requires vol.Valid() && vol.g.fsType == Fat12
    modifies vol`disk, vol`wflag, vol`winsect, vol.win
    ensures vol.Valid() && vol.View() == old(vol.View()) && WindowOnFat(vol)
    ensures nfree == Scanned(StateOf(vol))
  {
    hide Fat, Volume.View, Volume.Valid;
    ghost var f := StateOf(vol).f;
    nfree := 0;
    var clst := 2;
    while clst < vol.g.nFatent
      invariant vol.Valid() && vol.View() == old(vol.View()) && WindowOnFat(vol)
      invariant 2 <= clst <= vol.g.nFatent
      invariant nfree == FreeCount(f, clst)
      invariant FirstOne(f, 2) == FirstOne(f, clst)
    {
      var stat := GetFat(vol, clst);
      if stat == 1 {
        return;
      }
      if stat == 0 {
        nfree := nfree + 1;
      }
      clst := clst + 1;
    }
  }

  /** Where entry e of the packed FAT16/32 array lies. */
  lemma ScanPlace(t: FsType, e: nat)
    requires t == Fat16 || t == Fat32
    ensures var p, w := EntryPos(t, e), if t == Fat16 then 2 else 4;
      && EntryPos(t, e + 1) == p + w
      && (p + w) / SS == (if (p + w) % SS == 0 then p / SS + 1 else p / SS)
      && (p + w) % SS == (p % SS + w) % SS
  {
    if t == Fat16 {
      NextSlot(e, 256, 2);
    } else {
      NextSlot(e, 128, 4);
    }
  }

  lemma NextSlot(e: nat, k: nat, w: nat)
    requires (k == 256 && w == 2) || (k == 128 && w == 4)
    ensures (w * e + w) / SS == (if (w * e + w) % SS == 0 then w * e / SS + 1 else w * e / SS)
    ensures (w * e + w) % SS == (w * e % SS + w) % SS
  {
    var q, r := e / k, e % k;
    assert e == k * q + r;
    if w == 2 {
      SlotStep(2 * e, 2, q, 2 * r);
    } else {
      SlotStep(4 * e, 4, q, 4 * r);
    }
  }

  lemma SlotStep(p: nat, w: nat, q: nat, r: nat)
    requires p == SS * q + r && r + w <= SS && w > 0
    ensures (p + w) / SS == (if (p + w) % SS == 0 then p / SS + 1 else p / SS)
    ensures (p + w) % SS == (p % SS + w) % SS
  {
    InSector(p, q, r);
    if r + w == SS {
      InSector(p + w, q + 1, 0);
    } else {
      InSector(p + w, q, r + w);
    }
  }

  lemma InSector(x: nat, q: nat, r: nat)
    requires x == SS * q + r && r < SS
    ensures x / SS == q && x % SS == r
  {
  }

  method WordIsZero(vol: Volume, e: nat) returns (z: bool)
    requires vol.Valid() && vol.g.fsType == Fat16 && e < vol.g.nFatent
    requires vol.winsect == vol.g.fatbase + e / 256
    ensures z <==> Fat(vol.g, vol.View())[e] == 0
  {
    hide FatImage, Reflected;
    WordPlace(e, vol.g.fsize);
    var lo := PeekAt(vol, 2 * e);
    var hi := PeekAt(vol, 2 * e + 1);
    z := Word(lo, hi) == 0;
  }

  method CellIsZero(vol: Volume, e: nat) returns (z: bool)
    requires vol.Valid() && vol.g.fsType == Fat32 && e < vol.g.nFatent
    requires vol.winsect == vol.g.fatbase + e / 128
    ensures z <==> Fat(vol.g, vol.View())[e] == 0
  {
    hide FatImage, Reflected, Volume.View, Dword;
    CellPlace(e, vol.g.fsize);
    var b0 := PeekAt(vol, 4 * e);
    var b1 := PeekAt(vol, 4 * e + 1);
    var b2 := PeekAt(vol, 4 * e + 2);
    var b3 := PeekAt(vol, 4 * e + 3);
    z := Dword(b0, b1, b2, b3) % 0x10000000 == 0;
  }

  method EntryIsZero(vol: Volume, e: nat) returns (z: bool)
    requires vol.Valid() && (vol.g.fsType == Fat16 || vol.g.fsType == Fat32) && e < vol.g.nFatent
    requires vol.winsect == vol.g.fatbase + EntryPos(vol.g.fsType, e) / SS
    ensures z <==> Fat(vol.g, vol.View())[e] == 0
  {
    hide Fat, Volume.View, Volume.Valid;
    FatSizes(vol);
    if vol.g.fsType == Fat16 {
      WordPlace(e, vol.g.fsize);
      z := WordIsZero(vol, e);
    } else {
      CellPlace(e, vol.g.fsize);
      z := CellIsZero(vol, e);
    }
  }

  lemma FatSizes(vol: Volume)
    requires vol.Valid()
    ensures vol.g.fsType == Fat16 ==> 2 * vol.g.nFatent <= vol.g.fsize * SS
    ensures vol.g.fsType == Fat32 ==> 4 * vol.g.nFatent <= vol.g.fsize * SS
  {
  }

  /** Counts the zero entries of a FAT16/32 volume sector by sector. */
  method ScanArray(vol: Volume) returns (nfree: nat)
    requires vol.Valid() && (vol.g.fsType == Fat16 || vol.g.fsType == Fat32)
    modifies vol`disk, vol`wflag, vol`winsect, vol.win
    ensures vol.Valid() && vol.View() == old(vol.View())
    ensures nfree == Scanned(StateOf(vol))
    ensures vol.g.InFat1(vol.winsect)
  {
    hide Fat, Volume.View, Volume.Valid;
    ghost var f := StateOf(vol).f;
    var g := vol.g;
    var t := g.fsType;
    var clst, sect, i := g.nFatent, g.fatbase, 0;
    nfree := 0;
    while clst > 0
      invariant vol.Valid() && vol.View() == old(vol.View()) && 0 <= clst <= g.nFatent
      invariant i == EntryPos(t, g.nFatent - clst) % SS
      invariant sect == g.fatbase + EntryPos(t, g.nFatent - clst) / SS + if i == 0 then 0 else 1
      invariant i != 0 ==> vol.winsect == sect - 1
      invariant clst < g.nFatent ==> g.InFat1(vol.winsect)
      invariant nfree == ZeroCount(f, g.nFatent - clst)
    {
      ghost var e := g.nFatent - clst;
      ScanPlace(t, e);
      if i == 0 {
        vol.MoveWindow(sect);
        sect := sect + 1;
      }
      var z := EntryIsZero(vol, g.nFatent - clst);
      if z {
        nfree := nfree + 1;
      }
      i := (i + if t == Fat16 then 2 else 4) % SS;
      clst := clst - 1;
    }
    ZeroCountIs(f, g.nFatent);
  }

  /** f_getfree: the stored count if it is valid, else a scan that makes it valid. */
  method GetFreeClusters(vol: Volume) returns (nclst: nat)
    requires vol.Valid() && vol.g.fsType != ExFat
    modifies vol`disk, vol`wflag, vol`winsect, vol`freeClst, vol`lastClst, vol.win
    ensures vol.Valid() && vol.View() == old(vol.View()) && WindowOnFat(vol)
    ensures StateOf(vol) == GetFree(old(StateOf(vol))) && nclst == vol.freeClst
  {
    if vol.freeClst <= vol.g.nFatent - 2 {
      return vol.freeClst;
    }
    hide Fat, Reflected;
    if vol.g.fsType == Fat12 {
      nclst := ScanFat12(vol);
    } else {
      nclst := ScanArray(vol);
    }
    vol.SetHints(nclst, vol.lastClst);
  }

  // ---- Runs on a volume

  /** One operation on the volume is a step of the table. */
  method Perform(vol: Volume, op: AllocOp) returns (ghost s: FatState)
    requires vol.Valid() && vol.g.fsType != ExFat
    modifies vol`disk, vol`wflag, vol`winsect, vol`freeClst, vol`lastClst, vol.win
    ensures vol.Valid() && s == old(StateOf(vol)) && s.Valid() && StateOf(vol) == Step(s, op)
    ensures SameOutsideFat(vol.g, old(vol.View()), vol.View())
  {
    hide Volume.Valid, Volume.View, Fat, Create, Remove, GetFree, FatState.Valid;
    StateValid(vol);
    SameRefl(vol.g, vol.View());
    s := StateOf(vol);
    StateSize(s);
    match op
    case OpCreate(clst) =>
      var r := CreateChain(vol, clst);
    case OpRemove(clst, pclst) =>
      var ok := RemoveChain(vol, clst, pclst);
    case OpGetFree =>
      var n := GetFreeClusters(vol);
  }

  lemma StateSize(s: FatState)
    requires s.Valid()
    ensures 3 <= |s.f|
  {
  }

  /** A volume that has just been mounted, with its reserved entries in use and no entry 1, is
      where the runs of the table start. */
  method Mount(g: Geometry, sectors: seq<Sector>) returns (vol: Volume)
    requires g.Valid() && g.fsType != ExFat && |sectors| == g.nSectors && Mirrored(g, sectors)
    requires var f := Fat(g, sectors); f[0] != 0 && f[1] != 0 && NoOnes(f)
    ensures fresh(vol) && fresh(vol.win) && vol.Valid() && vol.g == g && vol.View() == sectors
    ensures vol.winsect == ALL_ONES && Sound(StateOf(vol))
  {
    hide Fat, Mirrored;
    vol := new Volume(g, sectors);
    StateValid(vol);
  }

  /** The smallest FAT12 volume, formatted. */
  function Formatted(): (sectors: seq<Sector>)
    ensures |sectors| == 3
  {
    var zero: Sector := seq(SS, _ => 0);
    var fat: Sector := zero[0 := 0xF8][1 := 0xFF][2 := 0xFF];
    [zero, fat, zero]
  }

  /** There are such volumes. */
  lemma FormattedMounts()
    ensures var g := Geometry(Fat12, false, 1, 3, 1, 1, 2, 3);
      && g.Valid()
      && var f := Fat(g, Formatted()); |f| == 3 && f[0] == 0xFF8 && f[1] == 0xFFF && f[2] == 0
  {
    var g := Geometry(Fat12, false, 1, 3, 1, 1, 2, 3);
    assert g.ClusterBase(3) == g.ClusterBase(2) + 1;
  }
}
