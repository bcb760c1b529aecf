/** exFAT chains that are written to the FAT late: while a file is contiguous nothing is
    written at all, and of a fragmented one the first and the last fragment may be pending. */
module LazyChain {
  import opened Arithmetic
  import opened Bytes
  import opened Chains

  /** End of chain as it is read back from an exFAT entry. */
  const XEOC := 0x7FFFFFFF

  /** The allocation fields of an open object: chain status (0: on the FAT, 2: contiguous,
      3: fragmented in this session), start, size, first fragment - 1, pending last fragment. */
  datatype XObj = XObj(stat: nat, sclust: nat, objsize: nat, nCont: nat, nFrag: nat)

  /** Number of clusters - 1 that an object of the given size has, as the code computes it. */
  function LastIndex(objsize: nat, csize: nat): nat
    requires objsize > 0 && csize > 0
  {
    (objsize - 1) / SS % DWORD / csize
  }

  /** The bytes that n clusters hold. */
  function Span(n: nat, csize: nat): nat { n * csize * SS }

  /** What it computes: the number of the cluster with the last byte, for every size that a volume
      of 32-bit sector numbers can hold. */
  lemma LastIndexIs(objsize: nat, csize: nat, k: nat)
    requires 0 < objsize <= DWORD * SS && csize > 0
    ensures LastIndex(objsize, csize) == k <==> Span(k, csize) < objsize <= Span(k + 1, csize)
  {
    var a := (objsize - 1) / SS;
    SmallMod(a, DWORD);
    DivIs(a, csize, k);
    assert (k + 1) * csize == k * csize + csize;
    Behind(objsize - 1, k * csize);
    Behind(objsize - 1, k * csize + csize);
  }

  lemma Behind(x: nat, m: nat)
    ensures x / SS >= m <==> x >= m * SS
  {
  }

  /** get_fat on an exFAT volume. */
  function XGet(f: seq<nat>, o: XObj, csize: nat, clst: nat): nat
    requires csize > 0 && clst < DWORD && o.sclust < DWORD
  {
    if clst < 2 || clst >= |f| || o.objsize == 0 then 1
    else
      var cofs := Sub32(clst, o.sclust);
      var clen := LastIndex(o.objsize, csize);
      if o.stat == 2 && cofs <= clen then (if cofs == clen then XEOC else clst + 1)
      else if o.stat == 3 && cofs < o.nCont then clst + 1
      else if o.stat != 2 then (if o.nFrag != 0 then XEOC else f[clst])
      else 1
  }

  /** n entries from c on linked to their successors. */
  function LinkRun(f: seq<nat>, c: nat, n: nat): (r: seq<nat>)
    requires c + n <= |f|
    ensures |r| == |f|
    ensures forall i | 0 <= i < |f| :: r[i] == if c <= i < c + n then i + 1 else f[i]
    decreases n
  {
    if n == 0 then f else LinkRun(f[c := c + 1], c + 1, n - 1)
  }

  /** fill_last_frag: the m entries that end in lcl linked up, the last one set to term. */
  function FillLast(f: seq<nat>, m: nat, lcl: nat, term: nat): (r: seq<nat>)
    requires m <= lcl + 1 && lcl < |f|
    ensures |r| == |f|
    ensures forall i | 0 <= i < |f| ::
      r[i] == if lcl - m < i < lcl then i + 1 else if m > 0 && i == lcl then term else f[i]
    decreases m
  {
    if m == 0 then f else FillLast(f[lcl + 1 - m := if m > 1 then lcl + 2 - m else term], m - 1, lcl, term)
  }

  /** fill_first_frag. */
  function FillFirst(f: seq<nat>, o: XObj): (seq<nat>, XObj)
    requires o.stat == 3 ==> o.sclust + o.nCont <= |f|
  {
    if o.stat == 3 then (LinkRun(f, o.sclust, o.nCont), o.(stat := 0)) else (f, o)
  }

  // ---- What is pending

  /** The clusters of s from index lo to index hi follow each other. */
  ghost predicate Adjacent(s: seq<nat>, lo: int, hi: int) {
    forall i | 0 < i < |s| && lo < i <= hi :: s[i] == s[i - 1] + 1
  }

  /** The links at indices lo .. hi-1 of s are on the FAT. */
  ghost predicate Written(f: seq<nat>, s: seq<nat>, lo: int, hi: int) {
    forall i | 0 <= i < |s| - 1 && lo <= i < hi :: s[i] < |f| && f[s[i]] == s[i + 1]
  }

  ghost predicate Members(f: seq<nat>, s: seq<nat>) {
    && |s| > 0 && |f| <= XEOC
    && (forall i | 0 <= i < |s| :: 2 <= s[i] < |f|)
    && (forall i, j | 0 <= i < j < |s| :: s[i] != s[j])
  }

  /** o describes the list s of allocated clusters, together with what the FAT holds. */
  ghost predicate Lazy(f: seq<nat>, o: XObj, s: seq<nat>) {
    && Members(f, s) && o.sclust == s[0]
    && match o.stat
       case 2 => o.nFrag == 0 && Adjacent(s, 0, |s| - 1)
       case 0 =>
         && o.nFrag <= |s| && Written(f, s, 0, |s| - o.nFrag) && Adjacent(s, |s| - o.nFrag, |s| - 1)
         && (o.nFrag == 0 ==> f[s[|s| - 1]] == XEOC)
       case 3 =>
         && o.nCont < |s| - 1 && o.nCont < |s| - o.nFrag && Adjacent(s, 0, o.nCont)
         && Written(f, s, o.nCont, |s| - o.nFrag) && Adjacent(s, |s| - o.nFrag, |s| - 1)
         && (o.nFrag == 0 ==> f[s[|s| - 1]] == XEOC)
       case _ => false
  }

  /** The size the object has been given is that of its chain. */
  ghost predicate Sized(o: XObj, csize: nat, s: seq<nat>)
    requires csize > 0
  {
    |s| > 0 && 0 < o.objsize <= DWORD * SS && Span(|s| - 1, csize) < o.objsize <= Span(|s|, csize)
  }

  lemma {:induction false} AdjacentValue(s: seq<nat>, lo: nat, hi: nat, i: nat)
    requires Adjacent(s, lo, hi) && lo <= i <= hi < |s|
    ensures s[i] == s[lo] + (i - lo)
    decreases i
  {
    if i > lo {
      AdjacentValue(s, lo, hi, i - 1);
    }
  }

  /** The first fragment is a range of numbers no later cluster falls into. */
  lemma OutsideFirst(f: seq<nat>, o: XObj, s: seq<nat>, i: nat)
    requires Lazy(f, o, s) && o.stat == 3 && i < |s|
    ensures Sub32(s[i], o.sclust) < o.nCont <==> i < o.nCont
    ensures i <= o.nCont ==> s[i] == o.sclust + i
  {
    AdjacentValue(s, 0, o.nCont, o.nCont);
    if i <= o.nCont {
      AdjacentValue(s, 0, o.nCont, i);
    } else if s[0] <= s[i] < s[0] + o.nCont {
      AdjacentValue(s, 0, o.nCont, s[i] - s[0]);
    }
  }

  /** get_fat at the growing tail always yields end of chain. */
  lemma TailIsEnd(f: seq<nat>, o: XObj, csize: nat, s: seq<nat>)
    requires csize > 0 && Lazy(f, o, s) && Sized(o, csize, s)
    ensures XGet(f, o, csize, s[|s| - 1]) == 0x7FFFFFFF
  {
    hide Span, LastIndex;
    LastIndexIs(o.objsize, csize, |s| - 1);
    if o.stat == 2 {
      AdjacentValue(s, 0, |s| - 1, |s| - 1);
    } else if o.stat == 3 {
      OutsideFirst(f, o, s, |s| - 1);
    }
  }

  /** Once the last fragment is written, get_fat follows the list of allocated clusters. */
  lemma Follows(f: seq<nat>, o: XObj, csize: nat, s: seq<nat>, i: nat)
    requires csize > 0 && Lazy(f, o, s) && Sized(o, csize, s) && o.nFrag == 0 && i < |s| - 1
    ensures XGet(f, o, csize, s[i]) == s[i + 1]
  {
    hide Span, LastIndex;
    LastIndexIs(o.objsize, csize, |s| - 1);
    if o.stat == 2 {
      AdjacentValue(s, 0, |s| - 1, i);
      AdjacentValue(s, 0, |s| - 1, i + 1);
    } else if o.stat == 3 {
      OutsideFirst(f, o, s, i);
      if i < o.nCont {
        OutsideFirst(f, o, s, i + 1);
      }
    }
  }

  // ---- Growing and flushing

  /** The chain status part of create_chain when cluster ncl has been found behind clst. */
  function Attach(f: seq<nat>, o: XObj, clst: nat, ncl: nat): (r: (seq<nat>, XObj))
    requires clst < |f| <= XEOC && o.nFrag <= clst + 1 && o.sclust < DWORD
    ensures |r.0| == |f|
  {
    if clst == 0 then (f, o.(stat := 2))
    else
      var o1 := if o.stat == 2 && ncl != clst + 1 then o.(nCont := Sub32(clst, o.sclust), stat := 3) else o;
      if o1.stat == 2 then (f, o1)
      else if ncl == clst + 1 then (f, o1.(nFrag := if o1.nFrag > 0 then o1.nFrag + 1 else 2))
      else (FillLast(f, if o1.nFrag == 0 then 1 else o1.nFrag, clst, ncl), o1.(nFrag := 1))
  }

  /** The pending last fragment lies right before and at the last cluster. */
  lemma LastFragment(f: seq<nat>, o: XObj, s: seq<nat>, i: nat)
    requires Lazy(f, o, s) && o.stat != 2 && |s| - o.nFrag <= i < |s|
    ensures s[i] == s[|s| - 1] - (|s| - 1 - i) && o.nFrag <= s[|s| - 1] - 1
  {
    var lo := |s| - o.nFrag;
    AdjacentValue(s, lo, |s| - 1, i);
    AdjacentValue(s, lo, |s| - 1, |s| - 1);
  }

  /** Which entries fill_last_frag touches: exactly those of the pending clusters. */
  lemma Pending(f: seq<nat>, o: XObj, s: seq<nat>, i: nat)
    requires Lazy(f, o, s) && o.stat != 2 && i < |s|
    ensures var l := s[|s| - 1]; l - o.nFrag < s[i] <= l <==> |s| - o.nFrag <= i
  {
    if |s| - o.nFrag <= i {
      LastFragment(f, o, s, i);
    } else if s[|s| - 1] - o.nFrag < s[i] <= s[|s| - 1] {
      var j := |s| - 1 - (s[|s| - 1] - s[i]);
      LastFragment(f, o, s, j);
    }
  }

  /** The list with one more cluster: the parts that stay as they were. */
  lemma MoreMembers(f: seq<nat>, s: seq<nat>, c: nat)
    requires Members(f, s) && 2 <= c < |f| && c !in s
    ensures Members(f, s + [c])
  {
  }

  lemma LastBound(f: seq<nat>, o: XObj, s: seq<nat>)
    requires Lazy(f, o, s)
    ensures o.nFrag <= s[|s| - 1] && (o.stat == 2 ==> s[|s| - 1] == o.sclust + (|s| - 1))
  {
    if o.stat == 2 {
      AdjacentValue(s, 0, |s| - 1, |s| - 1);
    } else if o.nFrag > 0 {
      LastFragment(f, o, s, |s| - 1);
    }
  }

  /** The FAT after the last fragment has been written and closed with term. */
  lemma FilledLinks(f: seq<nat>, o: XObj, s: seq<nat>, m: nat, term: nat)
    requires Lazy(f, o, s) && o.stat != 2 && m == (if o.nFrag == 0 then 1 else o.nFrag)
    ensures m <= s[|s| - 1] + 1
    ensures var f' := FillLast(f, m, s[|s| - 1], term);
      && (forall c | 0 <= c < |f| && c !in s :: f'[c] == f[c])
      && f'[s[|s| - 1]] == term
      && Written(f', s, if o.stat == 3 then o.nCont else 0, |s| - 1)
  {
    LastBound(f, o, s);
    var l := s[|s| - 1];
    var f' := FillLast(f, m, l, term);
    var o1 := o.(nFrag := m);
    forall c | 0 <= c < |f| && l - m < c <= l ensures c in s {
      var j := |s| - 1 - (l - c);
      if o.nFrag > 0 {
        LastFragment(f, o, s, j);
      }
      assert s[j] == c;
    }
    forall i | 0 <= i < |s| - 1 && (if o.stat == 3 then o.nCont else 0) <= i < |s| - 1
      ensures s[i] < |f'| && f'[s[i]] == s[i + 1]
    {
      Pending(f, o, s, i);
      if |s| - o.nFrag <= i {
        LastFragment(f, o, s, i);
        LastFragment(f, o, s, i + 1);
      }
    }
  }

  /** Growing a contiguous list. */
  lemma AttachContiguous(f: seq<nat>, o: XObj, s: seq<nat>, ncl: nat)
    requires Lazy(f, o, s) && o.stat == 2 && 2 <= ncl < |f| && ncl !in s
    ensures var (f', o') := Attach(f, o, s[|s| - 1], ncl);
      Lazy(f', o', s + [ncl]) && forall c | 0 <= c < |f| && c !in s :: f'[c] == f[c]
  {
    LastBound(f, o, s);
    MoreMembers(f, s, ncl);
    var l := s[|s| - 1];
    assert l in s;
  }

  /** Growing within the last fragment. */
  lemma AttachNext(f: seq<nat>, o: XObj, s: seq<nat>)
    requires Lazy(f, o, s) && o.stat != 2 && s[|s| - 1] + 1 < |f| && s[|s| - 1] + 1 !in s
    ensures o.nFrag <= s[|s| - 1]
    ensures var (f', o') := Attach(f, o, s[|s| - 1], s[|s| - 1] + 1);
      f' == f && Lazy(f', o', s + [s[|s| - 1] + 1])
  {
    LastBound(f, o, s);
    MoreMembers(f, s, s[|s| - 1] + 1);
    WrittenMore(f, s, if o.stat == 3 then o.nCont else 0, if o.nFrag > 0 then |s| - o.nFrag else |s| - 1,
                s[|s| - 1] + 1);
    AdjacentMore(s, if o.nFrag > 0 then |s| - o.nFrag else |s| - 1);
    if o.stat == 3 {
      AdjacentPrefix(s, o.nCont, s[|s| - 1] + 1);
    }
    hide Written, Adjacent, Members;
  }

  lemma WrittenMore(f: seq<nat>, s: seq<nat>, lo: nat, hi: nat, c: nat)
    requires hi < |s| && exists h | hi <= h <= |s| :: Written(f, s, lo, h)
    ensures Written(f, s + [c], lo, hi)
  {
    var h :| hi <= h <= |s| && Written(f, s, lo, h);
    var s' := s + [c];
    forall i | 0 <= i < |s'| - 1 && lo <= i < hi ensures s'[i] < |f| && f[s'[i]] == s'[i + 1] {
      assert s[i] < |f| && f[s[i]] == s[i + 1];
    }
  }

  lemma AdjacentMore(s: seq<nat>, lo: nat)
    requires lo < |s| && Adjacent(s, lo, |s| - 1)
    ensures Adjacent(s + [s[|s| - 1] + 1], lo, |s|)
  {
  }

  lemma AdjacentPrefix(s: seq<nat>, hi: nat, c: nat)
    requires hi < |s| && Adjacent(s, 0, hi)
    ensures Adjacent(s + [c], 0, hi)
  {
  }

  /** Starting a new fragment. */
  lemma AttachFragment(f: seq<nat>, o: XObj, s: seq<nat>, ncl: nat)
    requires Lazy(f, o, s) && o.stat != 2 && 2 <= ncl < |f| && ncl !in s && ncl != s[|s| - 1] + 1
    ensures o.nFrag <= s[|s| - 1]
    ensures var (f', o') := Attach(f, o, s[|s| - 1], ncl);
      Lazy(f', o', s + [ncl]) && forall c | 0 <= c < |f| && c !in s :: f'[c] == f[c]
  {
    LastBound(f, o, s);
    var m := if o.nFrag == 0 then 1 else o.nFrag;
    FilledLinks(f, o, s, m, ncl);
    MoreMembers(f, s, ncl);
    var f' := FillLast(f, m, s[|s| - 1], ncl);
    var s' := s + [ncl];
    var lo := if o.stat == 3 then o.nCont else 0;
    forall i | 0 <= i < |s'| - 1 && lo <= i < |s'| - 1 ensures s'[i] < |f'| && f'[s'[i]] == s'[i + 1] {
      if i < |s| - 1 {
        assert f'[s[i]] == s[i + 1];
      }
    }
  }

  /** create_chain keeps the bookkeeping: the list grows by the new cluster, and only entries
      of the file's own clusters have been written. */
  lemma AttachKeeps(f: seq<nat>, o: XObj, s: seq<nat>, ncl: nat)
    requires Lazy(f, o, s) && 2 <= ncl < |f| && ncl !in s
    ensures o.nFrag <= s[|s| - 1]
    ensures var (f', o') := Attach(f, o, s[|s| - 1], ncl);
      Lazy(f', o', s + [ncl]) && forall c | 0 <= c < |f| && c !in s :: f'[c] == f[c]
  {
    LastBound(f, o, s);
    if o.stat == 2 {
      AttachContiguous(f, o, s, ncl);
    } else if ncl == s[|s| - 1] + 1 {
      AttachNext(f, o, s);
    } else {
      AttachFragment(f, o, s, ncl);
    }
  }

  /** fill_last_frag at the end of the chain (as f_lseek does it) leaves nothing of the last
      fragment pending. */
  function FlushLast(f: seq<nat>, o: XObj, lcl: nat): (seq<nat>, XObj)
    requires lcl < |f| && o.nFrag <= lcl + 1
  {
    (FillLast(f, o.nFrag, lcl, XEOC), o.(nFrag := 0))
  }

  lemma FlushLastKeeps(f: seq<nat>, o: XObj, s: seq<nat>)
    requires Lazy(f, o, s)
    ensures o.nFrag <= s[|s| - 1]
    ensures var (f', o') := FlushLast(f, o, s[|s| - 1]);
      && Lazy(f', o', s) && o'.nFrag == 0 && o'.stat == o.stat
      && forall c | 0 <= c < |f| && c !in s :: f'[c] == f[c]
  {
    LastBound(f, o, s);
    if o.nFrag > 0 {
      FilledLinks(f, o, s, o.nFrag, XEOC);
    }
  }

  lemma FillFirstKeeps(f: seq<nat>, o: XObj, s: seq<nat>)
    requires Lazy(f, o, s)
    ensures o.stat == 3 ==> o.sclust + o.nCont <= |f|
    ensures var (f', o') := FillFirst(f, o);
      && Lazy(f', o', s) && o'.stat != 3 && o'.nFrag == o.nFrag
      && forall c | 0 <= c < |f| && c !in s :: f'[c] == f[c]
  {
    if o.stat == 3 {
      OutsideFirst(f, o, s, o.nCont);
      var (f', o') := FillFirst(f, o);
      forall c | o.sclust <= c < o.sclust + o.nCont ensures c in s {
        OutsideFirst(f, o, s, c - o.sclust);
        assert s[c - o.sclust] == c;
      }
      forall i | 0 <= i < |s| ensures f'[s[i]] == if i < o.nCont then s[i] + 1 else f[s[i]] {
        OutsideFirst(f, o, s, i);
      }
      assert Written(f', s, 0, |s| - o.nFrag);
    }
  }

  /** f_sync: fill_first_frag, then fill_last_frag. */
  function Sync(f: seq<nat>, o: XObj, lcl: nat): (seq<nat>, XObj)
    requires o.stat == 3 ==> o.sclust + o.nCont <= |f|
    requires lcl < |f| && o.nFrag <= lcl + 1
  {
    var (f1, o1) := FillFirst(f, o);
    FlushLast(f1, o1, lcl)
  }

  /** What is on disk after f_sync: either the list is contiguous and marked so, or the FAT
      chain from the start cluster is exactly the list of allocated clusters. */
  ghost predicate OnDisk(f: seq<nat>, o: XObj, s: seq<nat>) {
    && s != [] && o.sclust == s[0] && o.nFrag == 0
    && if o.stat == 2 then Adjacent(s, 0, |s| - 1) else o.stat == 0 && IsChain(f, s)
  }

  lemma SyncWrites(f: seq<nat>, o: XObj, s: seq<nat>)
    requires Lazy(f, o, s)
    ensures o.nFrag <= s[|s| - 1] && (o.stat == 3 ==> o.sclust + o.nCont <= |f|)
    ensures var (f', o') := Sync(f, o, s[|s| - 1]);
      && Lazy(f', o', s) && OnDisk(f', o', s)
      && forall c | 0 <= c < |f| && c !in s :: f'[c] == f[c]
  {
    FillFirstKeeps(f, o, s);
    var (f1, o1) := FillFirst(f, o);
    FlushLastKeeps(f1, o1, s);
    LastBound(f, o, s);
    var (f', o') := Sync(f, o, s[|s| - 1]);
    if o'.stat == 0 {
      ChainOnDisk(f', o', s);
    }
  }

  lemma ChainOnDisk(f: seq<nat>, o: XObj, s: seq<nat>)
    requires Lazy(f, o, s) && o.stat == 0 && o.nFrag == 0
    ensures IsChain(f, s)
  {
  }

  // ---- Sessions

  datatype XOp = Stretch(ncl: nat) | SeekFlush | SyncFlush

  datatype XState = XState(f: seq<nat>, o: XObj, s: seq<nat>)

  ghost predicate XStep(a: XState, op: XOp, b: XState) {
    && |a.s| > 0 && a.s[|a.s| - 1] < |a.f| <= XEOC && a.o.nFrag <= a.s[|a.s| - 1] + 1 && a.o.sclust < DWORD
    && match op
       case Stretch(ncl) =>
         && 2 <= ncl < |a.f| && ncl !in a.s && b.s == a.s + [ncl]
         && (b.f, b.o.(objsize := a.o.objsize)) == Attach(a.f, a.o, a.s[|a.s| - 1], ncl)
       case SeekFlush => b.s == a.s && (b.f, b.o) == FlushLast(a.f, a.o, a.s[|a.s| - 1])
       case SyncFlush =>
         && (a.o.stat == 3 ==> a.o.sclust + a.o.nCont <= |a.f|)
         && b.s == a.s && (b.f, b.o) == Sync(a.f, a.o, a.s[|a.s| - 1])
  }

  ghost predicate XRun(xs: seq<XState>, ops: seq<XOp>) {
    && |xs| == |ops| + 1
    && forall i | 0 <= i < |ops| :: XStep(xs[i], ops[i], xs[i + 1])
  }

  /** After any sequence of stretches and partial flushes the bookkeeping is right, and no
      entry of another file has been touched; right after a sync the FAT chain is the list. */
  lemma {:induction false} RunLazy(xs: seq<XState>, ops: seq<XOp>, i: nat)
    requires XRun(xs, ops) && i < |xs| && Lazy(xs[0].f, xs[0].o, xs[0].s)
    ensures Lazy(xs[i].f, xs[i].o, xs[i].s) && xs[0].s <= xs[i].s && |xs[i].f| == |xs[0].f|
    ensures forall c | 0 <= c < |xs[0].f| && c !in xs[i].s :: xs[i].f[c] == xs[0].f[c]
    ensures i > 0 && ops[i - 1].SyncFlush? ==> OnDisk(xs[i].f, xs[i].o, xs[i].s)
    ensures xs[i].o.stat == 2 ==> Adjacent(xs[i].s, 0, |xs[i].s| - 1) && xs[i].f == xs[0].f
    decreases i
  {
    if i > 0 {
      RunLazy(xs, ops, i - 1);
      assert XStep(xs[i - 1], ops[i - 1], xs[i - 1 + 1]);
      StepLazy(xs[i - 1], ops[i - 1], xs[i]);
    }
  }

  lemma StepLazy(a: XState, op: XOp, b: XState)
    requires Lazy(a.f, a.o, a.s) && XStep(a, op, b)
    ensures Lazy(b.f, b.o, b.s) && a.s <= b.s && |b.f| == |a.f|
    ensures forall c | 0 <= c < |a.f| && c !in b.s :: b.f[c] == a.f[c]
    ensures op.SyncFlush? ==> OnDisk(b.f, b.o, b.s)
    ensures b.o.stat == 2 ==> a.o.stat == 2 && b.f == a.f
  {
    match op
    case Stretch(ncl) =>
      AttachKeeps(a.f, a.o, a.s, ncl);
      SizeIrrelevant(b.f, b.o.(objsize := a.o.objsize), b.s, b.o.objsize);
    case SeekFlush => FlushLastKeeps(a.f, a.o, a.s);
    case SyncFlush => SyncWrites(a.f, a.o, a.s);
  }

  lemma SizeIrrelevant(f: seq<nat>, o: XObj, s: seq<nat>, size: nat)
    requires Lazy(f, o, s)
    ensures Lazy(f, o.(objsize := size), s)
  {
  }

  // ---- Cutting a chain

  /** The chain status remove_chain leaves when it has cut the list at index k. */
  ghost function CutStat(o: XObj, s: seq<nat>, k: nat): nat
    requires k <= |s|
  {
    if k == 0 then 0
    else if o.stat == 0 then (if Adjacent(s, 0, k - 1) then 2 else 0)
    else if o.stat == 3 && o.sclust <= s[k - 1] <= o.sclust + o.nCont then 2
    else o.stat
  }

  /** The entries remove_chain leaves: the new last cluster closed, unless nothing is on the FAT. */
  ghost function CutFat(f: seq<nat>, o: XObj, s: seq<nat>, k: nat): (r: seq<nat>)
    requires Lazy(f, o, s) && k <= |s|
    ensures |r| == |f|
  {
    if k > 0 && o.stat != 2 then f[s[k - 1] := XEOC] else f
  }

  /** After a partial removal the bookkeeping is right for what remains; in particular a chain
      that is left with status 2 really is contiguous. */
  lemma CutKeeps(f: seq<nat>, o: XObj, s: seq<nat>, k: nat)
    requires Lazy(f, o, s) && o.nFrag == 0 && 0 < k < |s|
    ensures Lazy(CutFat(f, o, s, k), o.(stat := CutStat(o, s, k)), s[..k])
    ensures CutStat(o, s, k) == 2 ==> Adjacent(s[..k], 0, k - 1)
  {
    CutMembers(f, s, k);
    if o.stat == 3 {
      OutsideFirst(f, o, s, k - 1);
      if o.sclust <= s[k - 1] <= o.sclust + o.nCont {
        InsideFirst(f, o, s, k - 1);
      }
    }
    if o.stat != 2 {
      CutWritten(f, s, if o.stat == 3 then o.nCont else 0, k);
    }
    assert forall lo, hi | hi < k && Adjacent(s, lo, hi) :: Adjacent(s[..k], lo, hi);
    hide Members, Written;
  }

  lemma CutMembers(f: seq<nat>, s: seq<nat>, k: nat)
    requires Members(f, s) && 0 < k < |s|
    ensures Members(f, s[..k]) && Members(f[s[k - 1] := XEOC], s[..k])
  {
  }

  lemma CutWritten(f: seq<nat>, s: seq<nat>, lo: nat, k: nat)
    requires Members(f, s) && 0 < k < |s| && Written(f, s, lo, |s|)
    ensures Written(f[s[k - 1] := XEOC], s[..k], lo, k)
  {
    var f', s' := f[s[k - 1] := XEOC], s[..k];
    forall i | 0 <= i < k - 1 && lo <= i ensures s'[i] < |f'| && f'[s'[i]] == s'[i + 1] {
      assert f[s[i]] == s[i + 1];
    }
  }

  /** A cluster whose number falls into the first fragment belongs to it. */
  lemma InsideFirst(f: seq<nat>, o: XObj, s: seq<nat>, i: nat)
    requires Lazy(f, o, s) && o.stat == 3 && i < |s| && o.sclust <= s[i] <= o.sclust + o.nCont
    ensures i <= o.nCont
  {
    AdjacentValue(s, 0, o.nCont, s[i] - s[0]);
  }

  // ---- How the object follows its chain

  /** What attaching a cluster does to an object. A contiguous chain that goes on contiguously stays
      so and nothing is written; one that does not becomes a first fragment of known length and a
      last fragment of one. Later a cluster that follows only lengthens the last fragment; any
      other writes that fragment, linked to the new one. */
  lemma AttachShape(f: seq<nat>, o: XObj, s: seq<nat>, ncl: nat)
    requires Lazy(f, o, s) && 2 <= ncl < |f| && ncl !in s
    ensures o.nFrag <= s[|s| - 1] + 1
    ensures var l := s[|s| - 1];
      var (f', o') := Attach(f, o, l, ncl);
      && (o.stat == 2 && ncl == l + 1 ==> f' == f && o' == o)
      && (o.stat == 2 && ncl != l + 1 ==> f' == f[l := ncl] && o' == o.(stat := 3, nCont := |s| - 1, nFrag := 1))
      && (o.stat != 2 && ncl == l + 1 ==> f' == f && o' == o.(nFrag := if o.nFrag == 0 then 2 else o.nFrag + 1))
      && (o.stat != 2 && ncl != l + 1 ==> f'[l] == ncl && o' == o.(nFrag := 1))
  {
    LastBound(f, o, s);
    if o.stat == 2 {
      AdjacentValue(s, 0, |s| - 1, |s| - 1);
    }
  }

  /** A new chain is contiguous, and nothing is written for it. */
  lemma AttachFirst(f: seq<nat>, o: XObj, ncl: nat)
    requires 0 < |f| <= XEOC && o.nFrag <= 1 && o.sclust < DWORD
    ensures Attach(f, o, 0, ncl) == (f, o.(stat := 2))
  {
  }

  /** The status after a cut: nothing left is 0; a FAT chain becomes contiguous exactly if what is
      left is; a chain with a first fragment exactly if the cut is in it or right behind it. */
  lemma CutDecides(f: seq<nat>, o: XObj, s: seq<nat>, k: nat)
    requires Lazy(f, o, s) && k <= |s|
    ensures k == 0 ==> CutStat(o, s, k) == 0
    ensures k > 0 && o.stat == 0 ==> CutStat(o, s, k) == if Adjacent(s, 0, k - 1) then 2 else 0
    ensures k > 0 && o.stat == 2 ==> CutStat(o, s, k) == 2
    ensures k > 0 && o.stat == 3 ==> CutStat(o, s, k) == if k - 1 <= o.nCont then 2 else 3
  {
    if k > 0 && o.stat == 3 {
      if k - 1 <= o.nCont {
        AdjacentValue(s, 0, o.nCont, k - 1);
      } else if o.sclust <= s[k - 1] <= o.sclust + o.nCont {
        AdjacentValue(s, 0, o.nCont, s[k - 1] - o.sclust);
      }
    }
  }
}
