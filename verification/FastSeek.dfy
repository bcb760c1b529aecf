/** The cluster link map table of fast seek: how it is built from a chain, and that looking
    an offset up in it gives the cluster that walking get_fat gives, on every volume type. */
module FastSeek {
  import opened Arithmetic
  import opened Bytes
  import opened VolumeWindow
  import opened FatTable
  import opened Bitmap
  import opened Chains
  import opened LazyChain
  import opened ExFatSpec
  import opened ExFatAlloc

  /** Length of the run of consecutive clusters at the head of s. */
  function RunLen(s: seq<nat>): (n: nat)
    ensures s != [] ==> 1 <= n <= |s|
    ensures s == [] ==> n == 0
    ensures forall i | 0 <= i < n :: s[i] == s[0] + i
  {
    if s == [] then 0 else if |s| > 1 && s[1] == s[0] + 1 then 1 + RunLen(s[1..]) else 1
  }

  /** Number of fragments of a chain. */
  function Fragments(s: seq<nat>): nat {
    if s == [] then 0 else 1 + Fragments(s[RunLen(s)..])
  }

  /** The table behind its size item: length and top of every fragment, then 0. */
  function LinkMap(s: seq<nat>): (t: seq<nat>)
    ensures |t| == 2 * Fragments(s) + 1
  {
    if s == [] then [0] else [RunLen(s), s[0]] + LinkMap(s[RunLen(s)..])
  }

  /** The lookup of clmt_clust: 0 behind the end of the table. */
  function Lookup(t: seq<nat>, cl: nat): nat
    decreases |t|
  {
    if |t| < 2 || t[0] == 0 then 0
    else if cl < t[0] then cl + t[1]
    else Lookup(t[2..], cl - t[0])
  }

  /** The table gives cluster number k of the chain, and nothing beyond its end. */
  lemma {:induction false} LookupFinds(s: seq<nat>, k: nat)
    ensures Lookup(LinkMap(s), k) == if k < |s| then s[k] else 0
    decreases |s|
  {
    if s != [] {
      var n := RunLen(s);
      var t := LinkMap(s);
      assert t[0] == n && t[1] == s[0] && t[2..] == LinkMap(s[n..]);
      if k >= n {
        LookupFinds(s[n..], k - n);
      }
    }
  }

  // ---- Walking

  /** What get_fat gives for every cluster of an object: the entries of the FAT, or on exFAT the
      value that may be computed from the object. */
  ghost function LinksOf(t: FsType, f: seq<nat>, o: XObj, csize: nat): (l: seq<nat>)
    requires csize > 0 && |f| <= DWORD && o.sclust < DWORD
    ensures |l| == |f|
    ensures t == ExFat ==> forall c | 0 <= c < |f| :: l[c] == XGet(f, o, csize, c)
  {
    if t == ExFat then seq(|f|, c requires 0 <= c < |f| => XGet(f, o, csize, c)) else f
  }

  /** The clusters of an object; on exFAT with the last fragment written. */
  ghost predicate ListOf(t: FsType, f: seq<nat>, o: XObj, csize: nat, s: seq<nat>)
    requires csize > 0
  {
    if s == [] then o.sclust == 0
    else if t == ExFat then Lazy(f, o, s) && Sized(o, csize, s) && o.nFrag == 0
    else IsChain(f, s) && o.sclust == s[0]
  }

  /** On every volume type the list is a chain of what get_fat gives. */
  lemma ListIsChain(t: FsType, f: seq<nat>, o: XObj, csize: nat, s: seq<nat>)
    requires csize > 0 && |f| <= XEOC && o.sclust < DWORD && s != [] && ListOf(t, f, o, csize, s)
    ensures IsChain(LinksOf(t, f, o, csize), s) && o.sclust == s[0]
    ensures t == ExFat ==> LinksOf(t, f, o, csize)[s[|s| - 1]] == XEOC
  {
    if t == ExFat {
      var l := LinksOf(t, f, o, csize);
      ListMembers(f, o, s);
      hide XGet, Lazy, Sized;
      forall i | 0 <= i < |s| - 1 ensures l[s[i]] == s[i + 1] {
        Follows(f, o, csize, s, i);
      }
      TailIsEnd(f, o, csize, s);
    }
  }

  lemma ListMembers(f: seq<nat>, o: XObj, s: seq<nat>)
    requires Lazy(f, o, s)
    ensures s != [] && o.sclust == s[0] && forall i | 0 <= i < |s| :: 2 <= s[i] < |f|
  {
  }

  /** The cluster reached from c by following k links. */
  function Walk(f: seq<nat>, c: nat, k: nat): nat {
    if k == 0 then c
    else
      var p := Walk(f, c, k - 1);
      if p < |f| then f[p] else p
  }

  lemma {:induction false} WalkFollows(f: seq<nat>, s: seq<nat>, k: nat)
    requires IsChain(f, s) && k < |s|
    ensures Walk(f, s[0], k) == s[k]
  {
    if k > 0 {
      WalkFollows(f, s, k - 1);
      assert f[s[k - 1]] == s[k - 1 + 1];
    }
  }

  /** Fast seek agrees with slow seek, for every object on every volume type. */
  lemma FastIsSlow(t: FsType, f: seq<nat>, o: XObj, csize: nat, s: seq<nat>, k: nat)
    requires csize > 0 && |f| <= XEOC && o.sclust < DWORD && ListOf(t, f, o, csize, s) && k < |s|
    ensures Lookup(LinkMap(s), k) == Walk(LinksOf(t, f, o, csize), o.sclust, k)
  {
    ListIsChain(t, f, o, csize, s);
    LookupFinds(s, k);
    WalkFollows(LinksOf(t, f, o, csize), s, k);
  }

  /** The number of the cluster of a file offset. */
  function ClusterNo(ofs: nat, csize: nat): nat
    requires csize > 0
  {
    ofs / SS / csize
  }

  /** The same as the code computes it, in 32 bits. */
  function IndexOf(ofs: nat, csize: nat): nat
    requires csize > 0
  {
    ClusterNo(ofs, csize) % DWORD
  }

  /** clmt_clust: the cluster of file offset ofs. */
  method ClmtClust(tbl: array<nat>, ofs: nat, csize: nat) returns (cl: nat)
    requires csize > 0 && tbl.Length > 1 && Ended(tbl[1..])
    ensures cl == Lookup(tbl[1..], IndexOf(ofs, csize))
  {
    hide IndexOf, ClusterNo;
    var p := 1;
    cl := IndexOf(ofs, csize);
    ghost var goal := Lookup(tbl[1..], cl);
    while true
      invariant 1 <= p < tbl.Length && Ended(tbl[p..]) && Lookup(tbl[p..], cl) == goal
      decreases tbl.Length - p
    {
      assert tbl[p..][0] == tbl[p];
      var ncl := tbl[p];
      p := p + 1;
      if ncl == 0 {
        return 0;
      }
      assert tbl[p - 1..][1] == tbl[p] && tbl[p - 1..][2..] == tbl[p + 1..];
      if cl < ncl {
        break;
      }
      cl := cl - ncl;
      p := p + 1;
    }
    cl := cl + tbl[p];
  }

  /** The table has its end mark. */
  ghost predicate Ended(t: seq<nat>)
    decreases |t|
  {
    |t| > 0 && (t[0] != 0 ==> |t| > 2 && Ended(t[2..]))
  }

  lemma {:induction false} LinkMapEnded(s: seq<nat>, rest: seq<nat>)
    ensures Ended(LinkMap(s) + rest)
    ensures forall k: nat :: Lookup(LinkMap(s) + rest, k) == Lookup(LinkMap(s), k)
    decreases |s|
  {
    var t := LinkMap(s) + rest;
    if s != [] {
      var n := RunLen(s);
      LinkMapEnded(s[n..], rest);
      assert t[2..] == LinkMap(s[n..]) + rest && LinkMap(s)[2..] == LinkMap(s[n..]);
    }
  }

  // ---- Building the table

  datatype MapResult = MapOk | MapTooSmall | MapIntErr

  /** The end mark of the chain continues its last cluster: the walk then leaves the FAT. */
  ghost predicate RunsOn(f: seq<nat>, s: seq<nat>)
    requires IsChain(f, s)
  {
    f[s[|s| - 1]] == s[|s| - 1] + 1
  }

  lemma ChainEntry(f: seq<nat>, s: seq<nat>, i: nat)
    requires IsChain(f, s) && i < |s|
    ensures 2 <= s[i] < |f|
    ensures f[s[i]] == if i + 1 < |s| then s[i + 1] else f[s[|s| - 1]]
    ensures f[s[i]] >= 2 && (f[s[i]] < |f| <==> i + 1 < |s|)
  {
    if i + 1 < |s| {
      assert f[s[i]] == s[i + 1];
    }
  }

  /** One cluster more of the run that starts at index i. */
  lemma {:induction false} RunStep(s: seq<nat>, i: nat, m: nat)
    requires i + m < |s| && 0 < m && forall j | i <= j < i + m :: s[j] == s[i] + (j - i)
    ensures RunLen(s[i..]) >= m
    ensures s[i + m] != s[i + m - 1] + 1 ==> RunLen(s[i..]) == m
    decreases m
  {
    var t := s[i..];
    if m > 1 {
      assert t[1] == t[0] + 1 && t[1..] == s[i + 1..];
      RunStep(s, i + 1, m - 1);
    }
  }

  lemma {:induction false} RunToEnd(s: seq<nat>, i: nat)
    requires i < |s| && forall j | i <= j < |s| :: s[j] == s[i] + (j - i)
    ensures RunLen(s[i..]) == |s| - i
    decreases |s| - i
  {
    var t := s[i..];
    if i + 1 < |s| {
      assert t[1] == t[0] + 1 && t[1..] == s[i + 1..];
      RunToEnd(s, i + 1);
    }
  }

  /** What get_fat gives on a volume. */
  ghost function Links(vol: Volume, o: Obj): (l: seq<nat>)
    requires vol.Valid() && o.sclust < DWORD
    reads vol, vol.win, o
    ensures |l| == vol.g.nFatent <= XEOC
  {
    LinksOf(vol.g.fsType, Fat(vol.g, vol.View()), o.Value(), vol.g.csize)
  }

  lemma NoLink(f: seq<nat>, o: XObj, csize: nat, clst: nat)
    requires csize > 0 && clst < DWORD && o.sclust < DWORD
    ensures !(2 <= clst < |f|) ==> XGet(f, o, csize, clst) == 1
  {
  }

  lemma ChainOfList(vol: Volume, o: Obj, s: seq<nat>)
    requires vol.Valid() && o.sclust < DWORD
    requires ListOf(vol.g.fsType, Fat(vol.g, vol.View()), o.Value(), vol.g.csize, s)
    ensures s == [] ==> o.sclust == 0
    ensures s != [] ==> IsChain(Links(vol, o), s) && o.sclust == s[0]
  {
    hide Volume.View, Fat, LinksOf, IsChain, Lazy, Sized;
    if s != [] {
      ListIsChain(vol.g.fsType, Fat(vol.g, vol.View()), o.Value(), vol.g.csize, s);
    }
  }

  /** get_fat on any volume. */
  method GetLink(vol: Volume, o: Obj, clst: nat) returns (val: nat)
    requires vol.Valid() && o.sclust < DWORD && clst < DWORD
    modifies vol`disk, vol`wflag, vol`winsect, vol.win
    ensures vol.Valid() && vol.View() == old(vol.View()) && Links(vol, o) == old(Links(vol, o))
    ensures val == if 2 <= clst < vol.g.nFatent then Links(vol, o)[clst] else 1
  {
    hide Fat, Volume.Valid, Volume.View, XGet;
    if vol.g.fsType == ExFat {
      FitsAlways(vol.g);
      NoLink(Fat(vol.g, vol.View()), o.Value(), vol.g.csize, clst);
      val := GetFatX(vol, o, clst);
    } else {
      val := GetFat(vol, clst);
    }
  }

  /** Follows one fragment from index i of the chain. */
  method TakeRun(vol: Volume, o: Obj, top: nat, ghost s: seq<nat>, ghost i: nat) returns (ncl: nat, cl: nat)
    requires vol.Valid() && o.sclust < DWORD && IsChain(Links(vol, o), s) && i < |s| && top == s[i]
    modifies vol`disk, vol`wflag, vol`winsect, vol.win
    ensures vol.Valid() && vol.View() == old(vol.View()) && Links(vol, o) == old(Links(vol, o))
    ensures cl <= 1 <==> i + RunLen(s[i..]) == |s| && RunsOn(Links(vol, o), s)
    ensures cl > 1 ==> ncl == RunLen(s[i..])
    ensures cl > 1 ==> if i + ncl < |s| then cl == s[i + ncl] && cl < vol.g.nFatent else cl >= vol.g.nFatent
  {
    hide Volume.Valid, Volume.View, Links, IsChain, RunLen;
    ghost var f := Links(vol, o);
    ChainEntry(f, s, i);
    ncl, cl := 0, top;
    var more := true;
    while more
      invariant vol.Valid() && vol.View() == old(vol.View()) && Links(vol, o) == f
      invariant 0 <= ncl && i + ncl <= |s| && (!more ==> 0 < ncl)
      invariant forall j | i <= j < i + ncl :: s[j] == s[i] + (j - i)
      invariant more ==> cl == s[i] + ncl <= |f|
      invariant more ==> if i + ncl < |s| then cl == s[i + ncl] else cl >= vol.g.nFatent && RunsOn(f, s)
      invariant !more ==> s[i + ncl - 1] < |f| && cl == f[s[i + ncl - 1]] != s[i + ncl - 1] + 1
      decreases |s| - i - ncl, more
    {
      var pcl := cl;
      if i + ncl < |s| {
        ChainEntry(f, s, i + ncl);
      } else {
        RunToEnd(s, i);
      }
      ncl := ncl + 1;
      cl := GetLink(vol, o, cl);
      if cl <= 1 {
        return;
      }
      more := cl == pcl + 1;
    }
    if i + ncl < |s| {
      ChainEntry(f, s, i + ncl - 1);
      ChainEntry(f, s, i + ncl);
      RunStep(s, i, ncl);
    } else {
      ChainEntry(f, s, |s| - 1);
      RunToEnd(s, i);
    }
  }

  /** The part of the table stored so far stands for the fragments before index i. */
  ghost predicate Stored(t: seq<nat>, s: seq<nat>, i: nat) {
    i <= |s| && t + LinkMap(s[i..]) == LinkMap(s)
  }

  lemma LinkMapStep(s: seq<nat>, i: nat)
    requires i < |s|
    ensures var n := RunLen(s[i..]);
      i + n <= |s| && LinkMap(s[i..]) == [n, s[i]] + LinkMap(s[i + n..])
  {
    assert s[i..][RunLen(s[i..])..] == s[i + RunLen(s[i..])..];
  }

  lemma StoreFragment(t: seq<nat>, s: seq<nat>, i: nat)
    requires Stored(t, s, i) && i < |s|
    ensures var n := RunLen(s[i..]); i + n <= |s| && Stored(t + [n, s[i]], s, i + n)
  {
    hide RunLen, LinkMap;
    LinkMapStep(s, i);
    var n := RunLen(s[i..]);
    Associate(t, [n, s[i]], LinkMap(s[i + n..]));
  }

  method StoreItems(tbl: array<nat>, p: nat, ncl: nat, tcl: nat, ghost s: seq<nat>, ghost i: nat)
    requires 1 <= p && p + 1 < tbl.Length && i < |s| && Stored(tbl[1..p], s, i)
    requires ncl == RunLen(s[i..]) && tcl == s[i]
    modifies tbl
    ensures tbl[0] == old(tbl[0]) && Stored(tbl[1..p + 2], s, i + ncl)
  {
    hide RunLen, LinkMap;
    StoreFragment(tbl[1..p], s, i);
    ghost var t := tbl[1..p];
    tbl[p], tbl[p + 1] := ncl, tcl;
    assert tbl[1..p + 2] == t + [ncl, tcl];
  }

  lemma FragmentStep(s: seq<nat>, i: nat)
    requires i < |s|
    ensures i + RunLen(s[i..]) <= |s| && Fragments(s[i..]) == 1 + Fragments(s[i + RunLen(s[i..])..])
  {
    assert s[i..][RunLen(s[i..])..] == s[i + RunLen(s[i..])..];
  }

  /** f_lseek with CREATE_LINKMAP, on any volume: the table becomes the link map of the object's
      list and its first item the exact number of items; a table that is too small is reported,
      with the number needed; the walk fails if and only if the end mark continues the last
      cluster. */
  method CreateLinkMap(vol: Volume, o: Obj, tbl: array<nat>, ghost s: seq<nat>) returns (res: MapResult)
    requires vol.Valid() && o.sclust < DWORD && tbl.Length > 0 && tbl[0] == tbl.Length && tbl as object != vol.win
    requires ListOf(vol.g.fsType, Fat(vol.g, vol.View()), o.Value(), vol.g.csize, s)
    modifies vol`disk, vol`wflag, vol`winsect, vol.win, tbl
    ensures vol.Valid() && vol.View() == old(vol.View()) && Links(vol, o) == old(Links(vol, o))
    ensures s != [] ==> IsChain(Links(vol, o), s) && o.sclust == s[0]
    ensures res == MapIntErr <==> s != [] && RunsOn(Links(vol, o), s)
    ensures res != MapIntErr ==> tbl[0] == 1 + |LinkMap(s)|
    ensures res != MapIntErr ==> (res == MapOk <==> 1 + |LinkMap(s)| <= tbl.Length)
    ensures res == MapOk ==> LinkMap(s) <= tbl[1..]
  {
    hide Volume.Valid, Volume.View, Fat, Links, IsChain, RunLen, LinkMap, Fragments, RunsOn, Lazy, Sized, LinksOf;
    ChainOfList(vol, o, s);
    ghost var f := Links(vol, o);
    var tlen, p, ulen := tbl[0], 1, 2;
    ghost var i := 0;
    assert s[0..] == s && tbl[1..1] == [];
    Nothing(s);
    var cl := o.sclust;
    if s != [] {
      ChainEntry(Links(vol, o), s, 0);
    }
    var more := cl != 0;
    while more
      invariant (more <==> i < |s|) && tbl[0] == tlen == tbl.Length
      invariant vol.Valid() && vol.View() == old(vol.View()) && Links(vol, o) == f && 0 <= i <= |s| && 1 <= p
      invariant i < |s| ==> cl == s[i] && cl != 0
      invariant s != [] && i == |s| ==> !RunsOn(f, s)
      invariant ulen == 2 + 2 * (Fragments(s) - Fragments(s[i..]))
      invariant ulen <= tlen ==> p == ulen - 1 && Stored(tbl[1..p], s, i)
      decreases |s| - i, more
    {
      var tcl := cl;
      var ncl;
      ulen := ulen + 2;
      ncl, cl := TakeRun(vol, o, cl, s, i);
      FragmentStep(s, i);
      if cl <= 1 {
        return MapIntErr;
      }
      if ulen <= tlen {
        StoreItems(tbl, p, ncl, tcl, s, i);
        p := p + 2;
      }
      i := i + ncl;
      more := cl < vol.g.nFatent;
    }
    tbl[0] := ulen;
    Nothing(s);
    assert s[|s|..] == [];
    if ulen <= tlen {
      tbl[p] := 0;
      res := MapOk;
    } else {
      res := MapTooSmall;
    }
  }

  lemma Nothing(s: seq<nat>)
    ensures LinkMap([]) == [0] && Fragments([]) == 0 && Stored([], s, 0)
  {
    assert s[0..] == s && [] + LinkMap(s) == LinkMap(s);
  }

  // ---- The whole of fast seek

  /** The clusters of an object that may have a fragment pending. */
  ghost predicate Holds(t: FsType, f: seq<nat>, o: XObj, csize: nat, s: seq<nat>)
    requires csize > 0
  {
    if t == ExFat then (if s == [] then o.sclust == 0 && o.nFrag == 0 else Lazy(f, o, s) && Sized(o, csize, s))
    else ListOf(t, f, o, csize, s)
  }

  /** What f_lseek does first on exFAT: the last fragment goes to the FAT. */
  method WriteFragment(vol: Volume, o: Obj, lcl: nat, ghost s: seq<nat>)
    requires vol.Valid() && o.sclust < DWORD && Holds(vol.g.fsType, Fat(vol.g, vol.View()), o.Value(), vol.g.csize, s)
    requires vol.g.fsType == ExFat && o.nFrag > 0 && s != [] ==> lcl == s[|s| - 1]
    modifies vol`disk, vol`wflag, vol`winsect, vol.win, o`nFrag
    ensures vol.Valid() && ListOf(vol.g.fsType, Fat(vol.g, vol.View()), o.Value(), vol.g.csize, s)
  {
    hide Fat, Volume.Valid, Volume.View, Lazy, IsChain, LastIndex, Span, FillLast;
    if vol.g.fsType == ExFat && o.nFrag > 0 {
      FitsAlways(vol.g);
      FlushLastKeeps(Fat(vol.g, vol.View()), o.Value(), s);
      FragmentFits(Fat(vol.g, vol.View()), o.Value(), s);
      FillLastFrag(vol, o, lcl, ALL_ONES);
    }
  }

  lemma FragmentFits(f: seq<nat>, o: XObj, s: seq<nat>)
    requires Lazy(f, o, s)
    ensures o.nFrag < s[|s| - 1] < |f|
  {
    if o.nFrag > 0 {
      AdjacentValue(s, |s| - o.nFrag, |s| - 1, |s| - 1);
    }
  }

  ghost function Numbers(n: nat): (r: set<nat>)
    ensures |r| == n && forall c: nat :: c in r <==> c < n
  {
    if n == 0 then {} else Numbers(n - 1) + {n - 1}
  }

  ghost function Elements(s: seq<nat>): (r: set<nat>)
    requires forall i, j | 0 <= i < j < |s| :: s[i] != s[j]
    ensures |r| == |s| && forall c :: c in r <==> c in s
  {
    if s == [] then {}
    else
      var t := s[..|s| - 1];
      assert s == t + [s[|s| - 1]];
      Elements(t) + {s[|s| - 1]}
  }

  /** A chain is no longer than the FAT. */
  lemma ChainShort(f: seq<nat>, s: seq<nat>)
    requires IsChain(f, s)
    ensures |s| <= |f|
  {
    ChainDistinct(f, s);
    var e, n := Elements(s), Numbers(|f|);
    assert e <= n;
    Fewer(e, n);
  }

  lemma Fewer(a: set<nat>, b: set<nat>)
    requires a <= b
    ensures |a| <= |b|
  {
    assert b == a + (b - a);
  }

  /** An offset of a file whose list covers its size. */
  ghost predicate InFile(ofs: nat, objsize: nat, csize: nat, s: seq<nat>)
    requires csize > 0
    ensures InFile(ofs, objsize, csize, s) ==> s != []
  {
    ofs < objsize && ClusterNo(objsize - 1, csize) < |s|
  }

  /** Every offset of the file has its cluster in the list. */
  lemma OffsetInList(f: seq<nat>, s: seq<nat>, ofs: nat, objsize: nat, csize: nat)
    requires csize > 0 && InFile(ofs, objsize, csize, s) && IsChain(f, s) && |f| <= DWORD
    ensures IndexOf(ofs, csize) == ClusterNo(ofs, csize) < |s|
  {
    hide IsChain;
    ChainShort(f, s);
    DivGrows(ofs, objsize - 1, SS);
    DivGrows(ofs / SS, (objsize - 1) / SS, csize);
    SmallMod(ofs / SS / csize, DWORD);
  }

  /** clmt_clust on the table of a chain. */
  method ClusterAt(tbl: array<nat>, ofs: nat, csize: nat, ghost chain: seq<nat>) returns (cl: nat)
    requires csize > 0 && tbl.Length > 1 && LinkMap(chain) <= tbl[1..]
    ensures var k := IndexOf(ofs, csize); cl == if k < |chain| then chain[k] else 0
  {
    hide LinkMap, Lookup, IndexOf;
    ghost var rest := tbl[1 + |LinkMap(chain)|..];
    assert tbl[1..] == LinkMap(chain) + rest;
    LinkMapEnded(chain, rest);
    cl := ClmtClust(tbl, ofs, csize);
    LookupFinds(chain, IndexOf(ofs, csize));
  }

  /** Builds the table of a file and looks an offset up in it. On every volume type the result is
      the cluster that walking get_fat from the first cluster gives, and 0 behind the end. */
  method BuildAndLookUp(vol: Volume, o: Obj, lcl: nat, tbl: array<nat>, ofs: nat, ghost s: seq<nat>)
    returns (res: MapResult, cl: nat)
    requires vol.Valid() && o.sclust < DWORD && Holds(vol.g.fsType, Fat(vol.g, vol.View()), o.Value(), vol.g.csize, s)
    requires vol.g.fsType == ExFat && o.nFrag > 0 && s != [] ==> lcl == s[|s| - 1]
    requires tbl.Length > 0 && tbl[0] == tbl.Length && tbl as object != vol.win
    modifies vol`disk, vol`wflag, vol`winsect, vol.win, o`nFrag, tbl
    ensures vol.Valid() && (s != [] ==> IsChain(Links(vol, o), s))
    ensures res == MapIntErr <==> s != [] && RunsOn(Links(vol, o), s)
    ensures res == MapOk ==>
              var k := IndexOf(ofs, vol.g.csize);
              cl == if k < |s| then Walk(Links(vol, o), o.sclust, k) else 0
    ensures res == MapOk && InFile(ofs, o.objsize, vol.g.csize, s) ==>
              cl == Walk(Links(vol, o), o.sclust, ClusterNo(ofs, vol.g.csize))
  {
    hide Fat, Volume.Valid, Volume.View, Links, IsChain, RunsOn, LinkMap, Lookup, Walk, IndexOf, ClusterNo, InFile,
         Lazy, LastIndex, Span;
    WriteFragment(vol, o, lcl, s);
    res := CreateLinkMap(vol, o, tbl, s);
    cl := 0;
    if res == MapOk {
      cl := ClusterAt(tbl, ofs, vol.g.csize, s);
      ghost var k := IndexOf(ofs, vol.g.csize);
      if k < |s| {
        WalkFollows(Links(vol, o), s, k);
      }
      if InFile(ofs, o.objsize, vol.g.csize, s) {
        OffsetInList(Links(vol, o), s, ofs, o.objsize, vol.g.csize);
      }
    }
  }

  // ---- When the walk fails

  /** With the end mark this code writes, the walk cannot fail on FAT12/16/32. */
  lemma OwnMarkEnds(t: FsType, f: seq<nat>, s: seq<nat>)
    requires t != ExFat && |f| <= MaxClusters(t) + 2 && IsChain(f, s) && f[s[|s| - 1]] == Eoc(t)
    ensures !RunsOn(f, s)
  {
  }

  /** With another end mark it can: the number of entries is an end mark too. */
  lemma ForeignMarkRunsOn(f: seq<nat>)
    requires |f| >= 3 && f[|f| - 1] == |f|
    ensures IsChain(f, [|f| - 1]) && RunsOn(f, [|f| - 1])
  {
  }

  /** On exFAT it fails exactly for a list that ends with cluster 0x7FFFFFFE. */
  lemma FailsOnExFat(f: seq<nat>, o: XObj, csize: nat, s: seq<nat>)
    requires csize > 0 && |f| <= XEOC && o.sclust < DWORD && s != [] && ListOf(ExFat, f, o, csize, s)
    ensures IsChain(LinksOf(ExFat, f, o, csize), s)
    ensures RunsOn(LinksOf(ExFat, f, o, csize), s) <==> s[|s| - 1] == 0x7FFFFFFE
  {
    hide LinksOf, Lazy, Sized, XGet;
    ListIsChain(ExFat, f, o, csize, s);
  }

  /** And there is such a list, on the largest volume: a contiguous file of one cluster. */
  lemma FailingFile(f: seq<nat>, csize: nat)
    requires csize > 0 && |f| == XEOC
    ensures var o := XObj(2, XEOC - 1, 1, 0, 0); ListOf(ExFat, f, o, csize, [XEOC - 1])
  {
  }

  // ---- The table and the offsets, in numbers

  /** The items of a table: the length of the first fragment, which goes as far as the clusters
      follow each other, its first cluster, and the items of the rest; 0 at the end. */
  lemma LinkMapItems(s: seq<nat>)
    ensures LinkMap([]) == [0]
    ensures s != [] ==>
      var t := LinkMap(s);
      && |t| >= 2 && 1 <= t[0] <= |s| && t[1] == s[0] && t[2..] == LinkMap(s[t[0]..])
      && (forall i | 0 <= i < t[0] :: s[i] == s[0] + i) && (t[0] < |s| ==> s[t[0]] != s[0] + t[0])
  {
    if s != [] {
      RunEnds(s);
    }
  }

  lemma {:induction false} RunEnds(s: seq<nat>)
    requires s != []
    ensures RunLen(s) < |s| ==> s[RunLen(s)] != s[0] + RunLen(s)
    decreases |s|
  {
    if |s| > 1 && s[1] == s[0] + 1 {
      RunEnds(s[1..]);
    }
  }

  /** An offset lies in cluster number k of the file exactly between these bounds. */
  lemma ClusterNoIs(ofs: nat, csize: nat, k: nat)
    requires csize > 0
    ensures ClusterNo(ofs, csize) == k <==> k * csize * SS <= ofs < (k + 1) * csize * SS
  {
    DivIs(ofs / SS, csize, k);
    assert (k + 1) * csize == k * csize + csize;
    LazyChain.Behind(ofs, k * csize);
    LazyChain.Behind(ofs, k * csize + csize);
  }
}
