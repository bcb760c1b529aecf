/** Every run of allocation on an exFAT volume with any number of files. */
module ExFatRuns {
  import opened Bytes
  import opened LazyChain
  import opened ExFatSpec

  /** An object and the list of its clusters. */
  datatype XFile = XFile(o: XObj, s: seq<nat>)

  datatype XVolume = XVolume(x: XVol, files: seq<XFile>)

  /** First is create_chain for an object without clusters, Longer create_chain at the tail,
      LastOut fill_last_frag as f_lseek calls it, Flush both fragment writers as f_sync calls
      them, Remove remove_chain after the first k clusters. */
  datatype FileOp = First | Longer | LastOut | Flush | Remove(k: nat)

  /** Open adds an object without clusters. */
  datatype VolumeOp = Open(o: XObj) | On(file: nat, op: FileOp) | CountFree

  ghost predicate Idle(o: XObj) { o.sclust == 0 && o.nFrag == 0 }

  /** The object has exactly the clusters of its list, and they are marked in use. */
  ghost predicate Owns(x: XVol, csize: nat, a: XFile)
    requires x.Valid() && csize > 0
  {
    if a.s == [] then Idle(a.o) else InUse(x, a.s) && Lazy(x.f, a.o, a.s) && Sized(a.o, csize, a.s)
  }

  ghost predicate Disjoint(s: seq<nat>, t: seq<nat>) { forall c | c in s :: c !in t }

  /** Every file has its clusters, no cluster belongs to two files, and the free count, where it
      is known, is right. */
  ghost predicate Sound(v: XVolume, csize: nat) {
    && csize > 0 && v.x.Valid() && XCounted(v.x)
    && (forall i | 0 <= i < |v.files| :: Owns(v.x, csize, v.files[i]))
    && (forall i, j | 0 <= i < |v.files| && 0 <= j < |v.files| && i != j :: Disjoint(v.files[i].s, v.files[j].s))
  }

  ghost predicate AllSet(x: XVol) {
    x.Valid() && forall m | 0 <= m < |x.f| - 2 :: x.bits[m]
  }

  // ---- The operations on one file

  /** The object's size follows the list; nothing else of it is the caller's. */
  ghost predicate Resized(o: XObj, r: XObj, csize: nat, s: seq<nat>)
    requires csize > 0
  {
    r == o.(objsize := r.objsize) && Sized(r, csize, s)
  }

  ghost predicate Started(x: XVol, csize: nat, a: XFile, y: XVol, b: XFile)
    requires csize > 0 && x.Valid() && Owns(x, csize, a)
  {
    && a.s == []
    && var (x', o, r) := XCreate(x, a.o, csize, 0);
    if r == 0 then y == x && b == a
    else y == x' && b.s == [r] && Resized(o.(sclust := r), b.o, csize, b.s)
  }

  ghost predicate Stretched(x: XVol, csize: nat, a: XFile, y: XVol, b: XFile)
    requires csize > 0 && x.Valid() && Owns(x, csize, a)
  {
    && a.s != []
    && (LastBound(x.f, a.o, a.s);
        var (x', o, r) := XCreate(x, a.o, csize, a.s[|a.s| - 1]);
        if r == 0 then y == x && b == a
        else y == x' && b.s == a.s + [r] && Resized(o, b.o, csize, b.s))
  }

  ghost predicate LastFlushed(x: XVol, csize: nat, a: XFile, y: XVol, b: XFile)
    requires csize > 0 && x.Valid() && Owns(x, csize, a)
  {
    && a.s != []
    && (FlushLastKeeps(x.f, a.o, a.s);
        var (f, o) := FlushLast(x.f, a.o, a.s[|a.s| - 1]);
        y == x.(f := f) && b == XFile(o, a.s))
  }

  ghost predicate Flushed(x: XVol, csize: nat, a: XFile, y: XVol, b: XFile)
    requires csize > 0 && x.Valid() && Owns(x, csize, a)
  {
    && a.s != []
    && (SyncWrites(x.f, a.o, a.s);
        var (f, o) := Sync(x.f, a.o, a.s[|a.s| - 1]);
        y == x.(f := f) && b == XFile(o, a.s))
  }

  /** remove_chain after the first k clusters, with the fragment flushed before; the list does
      not end with cluster 0x7FFFFFFE. A caller that removes the whole list clears the start. */
  ghost predicate Removed(x: XVol, csize: nat, a: XFile, k: nat, y: XVol, b: XFile)
    requires csize > 0 && x.Valid() && Owns(x, csize, a)
  {
    && k < |a.s| && a.o.nFrag == 0 && a.s[|a.s| - 1] != XEOC - 1 && Within(x.bits, a.s[k..])
    && y == XVol(CutFat(x.f, a.o, a.s, k), ClearRuns(x.bits, a.s[k..], 0, a.s[k]),
                 Bump(x.free, |a.s| - k, |x.f| - 2), x.last)
    && b.s == a.s[..k]
    && var o := a.o.(stat := CutStat(a.o, a.s, k));
    if k == 0 then b.o == o.(sclust := 0, objsize := b.o.objsize) else Resized(o, b.o, csize, b.s)
  }

  ghost predicate FileStep(x: XVol, csize: nat, a: XFile, op: FileOp, y: XVol, b: XFile)
    requires csize > 0 && x.Valid() && Owns(x, csize, a)
  {
    match op
    case First => Started(x, csize, a, y, b)
    case Longer => Stretched(x, csize, a, y, b)
    case LastOut => LastFlushed(x, csize, a, y, b)
    case Flush => Flushed(x, csize, a, y, b)
    case Remove(k) => Removed(x, csize, a, k, y, b)
  }

  /** Entries change only on clusters the file had, bits only where clusters join or leave it,
      and a cluster that joins it was free. */
  ghost predicate Apart(x: XVol, a: XFile, y: XVol, b: XFile) {
    && x.Valid() && y.Valid() && |y.f| == |x.f| && |y.bits| == |x.bits|
    && (forall c | 0 <= c < |x.f| && c !in a.s :: y.f[c] == x.f[c])
    && (forall c | c in b.s && c !in a.s :: 2 <= c < |x.f| && !x.bits[c - 2])
    && (forall m | 0 <= m < |x.f| - 2 && (m + 2 in a.s <==> m + 2 in b.s) :: y.bits[m] == x.bits[m])
  }

  /** What every operation does to its file and to the volume. */
  ghost predicate Kept(x: XVol, csize: nat, a: XFile, y: XVol, b: XFile)
    requires csize > 0
  {
    y.Valid() && XCounted(y) && Owns(y, csize, b) && Apart(x, a, y, b)
  }

  lemma Unchanged(x: XVol, a: XFile, y: XVol)
    requires x.Valid() && y.Valid() && y.f == x.f && y.bits == x.bits
    ensures Apart(x, a, y, a)
  {
  }

  lemma OneMore(x: XVol, a: XFile, y: XVol, b: XFile, r: nat)
    requires x.Valid() && y.Valid() && |y.f| == |x.f| && InUse(x, a.s)
    requires 2 <= r < |x.f| && !x.bits[r - 2] && y.bits == x.bits[r - 2 := true] && b.s == a.s + [r]
    requires forall c | 0 <= c < |x.f| && c !in a.s :: y.f[c] == x.f[c]
    ensures Apart(x, a, y, b)
  {
    assert r !in a.s && r == b.s[|a.s|];
  }

  lemma StartKeeps(x: XVol, csize: nat, a: XFile, y: XVol, b: XFile)
    requires csize > 0 && x.Valid() && XCounted(x) && Owns(x, csize, a) && Started(x, csize, a, y, b)
    ensures Kept(x, csize, a, y, b)
    ensures b.s == [] <==> AllSet(x)
  {
    hide XCreate, ClearCount, LastIndex, Span, Lazy, InUse, XCounted, Apart;
    XCreateStarts(x, a.o, csize);
    var (x', o, r) := XCreate(x, a.o, csize, 0);
    if r != 0 {
      SizeIrrelevant(x'.f, o.(sclust := r), [r], b.o.objsize);
      NothingInUse(x);
      OneMore(x, a, y, b, r);
    } else {
      Unchanged(x, a, y);
    }
  }

  lemma NothingInUse(x: XVol)
    requires x.Valid()
    ensures InUse(x, [])
  {
  }

  lemma ListFacts(x: XVol, csize: nat, a: XFile)
    requires x.Valid() && csize > 0 && Owns(x, csize, a) && a.s != []
    ensures a.s[|a.s| - 1] < |x.f| < DWORD && a.o.sclust < DWORD
    ensures forall i, j | 0 <= i < j < |a.s| :: a.s[i] != a.s[j]
  {
  }

  lemma StretchKeeps(x: XVol, csize: nat, a: XFile, y: XVol, b: XFile)
    requires csize > 0 && x.Valid() && XCounted(x) && Owns(x, csize, a) && Stretched(x, csize, a, y, b)
    ensures Kept(x, csize, a, y, b)
    ensures |b.s| == |a.s| <==> AllSet(x)
  {
    hide XCreate, ClearCount, LastIndex, Span, Lazy, InUse, XCounted, Apart;
    XCreateStretches(x, a.o, csize, a.s);
    ListFacts(x, csize, a);
    var (x', o, r) := XCreate(x, a.o, csize, a.s[|a.s| - 1]);
    if r != 0 {
      SizeIrrelevant(x'.f, o, b.s, b.o.objsize);
      OneMore(x, a, y, b, r);
    } else {
      Unchanged(x, a, y);
    }
  }

  lemma LastFlushKeeps(x: XVol, csize: nat, a: XFile, y: XVol, b: XFile)
    requires csize > 0 && x.Valid() && XCounted(x) && Owns(x, csize, a) && LastFlushed(x, csize, a, y, b)
    ensures Kept(x, csize, a, y, b) && b.o.nFrag == 0
  {
    hide Lazy, LastIndex, Span, ClearCount;
    FlushLastKeeps(x.f, a.o, a.s);
  }

  lemma FlushKeeps(x: XVol, csize: nat, a: XFile, y: XVol, b: XFile)
    requires csize > 0 && x.Valid() && XCounted(x) && Owns(x, csize, a) && Flushed(x, csize, a, y, b)
    ensures Kept(x, csize, a, y, b) && OnDisk(y.f, b.o, b.s)
  {
    hide Lazy, OnDisk, LastIndex, Span, ClearCount;
    SyncWrites(x.f, a.o, a.s);
    SyncKeepsSize(x.f, a.o, a.s);
  }

  lemma SyncKeepsSize(f: seq<nat>, o: XObj, s: seq<nat>)
    requires Lazy(f, o, s)
    ensures o.nFrag <= s[|s| - 1] && (o.stat == 3 ==> o.sclust + o.nCont <= |f|)
    ensures var (f', o') := Sync(f, o, s[|s| - 1]); |f'| == |f| && o'.objsize == o.objsize
  {
    hide Lazy;
    SyncWrites(f, o, s);
  }

  lemma CutList(x: XVol, s: seq<nat>, k: nat)
    requires x.Valid() && InUse(x, s) && k < |s| && (forall i, j | 0 <= i < j < |s| :: s[i] != s[j])
    ensures forall i | 0 <= i < |s| - k :: 2 <= s[k..][i] < |x.bits| + 2 && x.bits[s[k..][i] - 2]
    ensures forall i, j | 0 <= i < j < |s| - k :: s[k..][i] != s[k..][j]
    ensures forall i | 0 <= i < k :: s[i] !in s[k..]
  {
    forall i | 0 <= i < k ensures s[i] !in s[k..] {
      forall j | 0 <= j < |s| - k ensures s[k..][j] != s[i] {
        assert s[k..][j] == s[k + j];
      }
    }
  }

  /** Exactly the bits of the removed clusters are cleared. */
  ghost predicate ClearsTail(x: XVol, y: XVol, s: seq<nat>, k: nat) {
    && x.Valid() && y.Valid() && |y.f| == |x.f| && |y.bits| == |x.bits| && k <= |s|
    && forall m | 0 <= m < |x.f| - 2 :: y.bits[m] == (x.bits[m] && m + 2 !in s[k..])
  }

  lemma ClearedTail(x: XVol, y: XVol, s: seq<nat>, k: nat)
    requires x.Valid() && y.Valid() && |y.f| == |x.f| && InUse(x, s) && k < |s|
    requires forall i, j | 0 <= i < j < |s| :: s[i] != s[j]
    requires Within(x.bits, s[k..]) && y.bits == Cleared(x.bits, s[k..])
    ensures ClearsTail(x, y, s, k)
  {
    hide Cleared;
    CutList(x, s, k);
    forall m | 0 <= m < |x.f| - 2 ensures y.bits[m] == (x.bits[m] && m + 2 !in s[k..]) {
      ClearedAt(x.bits, s[k..], m);
    }
  }

  lemma TailApart(x: XVol, a: XFile, y: XVol, b: XFile, k: nat)
    requires ClearsTail(x, y, a.s, k) && InUse(x, a.s) && b.s == a.s[..k]
    requires forall i | 0 <= i < k :: a.s[i] !in a.s[k..]
    requires forall c | 0 <= c < |x.f| && c !in a.s :: y.f[c] == x.f[c]
    ensures Apart(x, a, y, b) && InUse(y, b.s)
  {
    forall c | c in a.s[k..] ensures c in a.s && c !in b.s {}
  }

  lemma CutFatApart(x: XVol, csize: nat, a: XFile, k: nat)
    requires x.Valid() && csize > 0 && Owns(x, csize, a) && k < |a.s|
    ensures forall c | 0 <= c < |x.f| && c !in a.s :: CutFat(x.f, a.o, a.s, k)[c] == x.f[c]
  {
    hide Lazy;
  }

  lemma RemoveKeeps(x: XVol, csize: nat, a: XFile, k: nat, y: XVol, b: XFile)
    requires csize > 0 && x.Valid() && XCounted(x) && Owns(x, csize, a) && Removed(x, csize, a, k, y, b)
    ensures Kept(x, csize, a, y, b) && ClearsTail(x, y, a.s, k)
    ensures k > 0 && b.o.stat == 2 ==> Adjacent(b.s, 0, k - 1)
  {
    hide Lazy, LastIndex, Span, ClearCount, Bump, ClearRuns, Cleared, CutFat, CutStat, XCounted, Adjacent, Within,
         Apart, InUse, ClearsTail;
    ListFacts(x, csize, a);
    CutList(x, a.s, k);
    ClearRunsExact(x.bits, a.s[k..]);
    RemoveCounted(x, a.s, k, y.f);
    ClearedTail(x, y, a.s, k);
    CutFatApart(x, csize, a, k);
    TailApart(x, a, y, b, k);
    if k > 0 {
      CutKeeps(x.f, a.o, a.s, k);
      SizeIrrelevant(y.f, a.o.(stat := CutStat(a.o, a.s, k)), b.s, b.o.objsize);
    }
  }

  lemma StepKeeps(x: XVol, csize: nat, a: XFile, op: FileOp, y: XVol, b: XFile)
    requires csize > 0 && x.Valid() && XCounted(x) && Owns(x, csize, a) && FileStep(x, csize, a, op, y, b)
    ensures Kept(x, csize, a, y, b)
  {
    hide Started, Stretched, LastFlushed, Flushed, Removed, Kept, Owns, XCounted;
    match op
    case First => StartKeeps(x, csize, a, y, b);
    case Longer => StretchKeeps(x, csize, a, y, b);
    case LastOut => LastFlushKeeps(x, csize, a, y, b);
    case Flush => FlushKeeps(x, csize, a, y, b);
    case Remove(k) => RemoveKeeps(x, csize, a, k, y, b);
  }

  // ---- The other files

  /** A list is kept while the entries of its own clusters are. */
  lemma LazyFrame(f: seq<nat>, g: seq<nat>, o: XObj, s: seq<nat>)
    requires Lazy(f, o, s) && |g| == |f| && forall c | c in s :: g[c] == f[c]
    ensures Lazy(g, o, s)
  {
  }

  lemma OtherKept(x: XVol, csize: nat, a: XFile, y: XVol, b: XFile, other: XFile)
    requires csize > 0 && x.Valid() && Owns(x, csize, other) && Disjoint(other.s, a.s) && Apart(x, a, y, b)
    ensures Owns(y, csize, other) && Disjoint(other.s, b.s)
  {
    if other.s != [] {
      OtherBits(x, a, y, b, other.s);
      OtherEntries(x, a, y, b, other);
      hide Lazy, LastIndex, Span, Apart;
      LazyFrame(x.f, y.f, other.o, other.s);
    }
  }

  lemma OtherBits(x: XVol, a: XFile, y: XVol, b: XFile, s: seq<nat>)
    requires x.Valid() && InUse(x, s) && Disjoint(s, a.s) && Apart(x, a, y, b)
    ensures InUse(y, s) && Disjoint(s, b.s)
  {
    forall c | c in s ensures c !in b.s && 2 <= c < |y.f| && y.bits[c - 2] {
      var i :| 0 <= i < |s| && s[i] == c;
      var m := c - 2;
      assert x.bits[m];
      assert c !in a.s;
      assert m + 2 == c;
    }
  }

  lemma OtherEntries(x: XVol, a: XFile, y: XVol, b: XFile, other: XFile)
    requires x.Valid() && Lazy(x.f, other.o, other.s) && Disjoint(other.s, a.s) && Apart(x, a, y, b)
    ensures forall c | c in other.s :: 0 <= c < |x.f| && y.f[c] == x.f[c]
  {
  }

  // ---- Runs

  ghost predicate Step(v: XVolume, csize: nat, op: VolumeOp, w: XVolume)
    requires Sound(v, csize)
  {
    match op
    case Open(o) => Idle(o) && w == v.(files := v.files + [XFile(o, [])])
    case On(j, op) =>
      && j < |v.files| && |w.files| == |v.files| && w.files == v.files[j := w.files[j]]
      && FileStep(v.x, csize, v.files[j], op, w.x, w.files[j])
    case CountFree =>
      var n := |v.x.f| - 2;
      w == v.(x := v.x.(free := if v.x.free <= n then v.x.free else ClearCount(v.x.bits, n)))
  }

  lemma OnSound(v: XVolume, csize: nat, j: nat, op: FileOp, w: XVolume)
    requires Sound(v, csize) && Step(v, csize, On(j, op), w)
    ensures Sound(w, csize) && Kept(v.x, csize, v.files[j], w.x, w.files[j])
  {
    hide FileStep, Owns, Disjoint, Apart, XCounted;
    StepKeeps(v.x, csize, v.files[j], op, w.x, w.files[j]);
    forall i | 0 <= i < |w.files| && i != j
      ensures Owns(w.x, csize, w.files[i])
      ensures Disjoint(w.files[i].s, w.files[j].s) && Disjoint(w.files[j].s, w.files[i].s)
    {
      OtherKept(v.x, csize, v.files[j], w.x, w.files[j], v.files[i]);
      Mutual(w.files[i].s, w.files[j].s);
    }
  }

  lemma Mutual(s: seq<nat>, t: seq<nat>)
    requires Disjoint(s, t)
    ensures Disjoint(t, s)
  {
  }

  lemma OpenSound(v: XVolume, csize: nat, o: XObj, w: XVolume)
    requires Sound(v, csize) && Step(v, csize, Open(o), w)
    ensures Sound(w, csize)
  {
    hide Lazy, Sized, InUse, XCounted;
  }

  lemma CountSound(v: XVolume, csize: nat, w: XVolume)
    requires Sound(v, csize) && Step(v, csize, CountFree, w)
    ensures Sound(w, csize) && w.x.free == ClearCount(w.x.bits, |w.x.f| - 2)
  {
    hide Lazy, Sized, Disjoint;
    forall i | 0 <= i < |w.files| ensures Owns(w.x, csize, w.files[i]) {
      assert Owns(v.x, csize, v.files[i]);
    }
  }

  ghost predicate Run(vs: seq<XVolume>, csize: nat, ops: seq<VolumeOp>) {
    && |vs| == |ops| + 1
    && forall i | 0 <= i < |ops| :: Sound(vs[i], csize) ==> Step(vs[i], csize, ops[i], vs[i + 1])
  }

  /** What one step on the volume promises beside soundness: create_chain fails exactly when no
      bit is clear, a flush leaves the exact list on the disk, remove_chain clears exactly the
      bits of the clusters it removes, f_getfree returns the number of clear bits, and no
      operation on a file touches an entry or a bit of another cluster. */
  ghost predicate Promise(v: XVolume, csize: nat, op: VolumeOp, w: XVolume)
    requires Sound(v, csize) && Sound(w, csize)
  {
    match op
    case Open(o) => w.x == v.x
    case CountFree => w.x.free == ClearCount(w.x.bits, |w.x.f| - 2)
    case On(j, op) =>
      && j < |v.files| == |w.files| && Apart(v.x, v.files[j], w.x, w.files[j])
      && match op
         case First => w.files[j].s == [] <==> AllSet(v.x)
         case Longer => |w.files[j].s| == |v.files[j].s| <==> AllSet(v.x)
         case LastOut => w.files[j].o.nFrag == 0
         case Flush => OnDisk(w.x.f, w.files[j].o, w.files[j].s)
         case Remove(k) => ClearsTail(v.x, w.x, v.files[j].s, k)
  }

  lemma StepPromise(v: XVolume, csize: nat, op: VolumeOp, w: XVolume)
    requires Sound(v, csize) && Step(v, csize, op, w)
    ensures Sound(w, csize) && Promise(v, csize, op, w)
  {
    hide Started, Stretched, LastFlushed, Flushed, Removed, Owns, Disjoint, XCounted, Apart, OnDisk, ClearsTail, AllSet,
         ClearCount;
    match op
    case Open(o) => OpenSound(v, csize, o, w);
    case CountFree => CountSound(v, csize, w);
    case On(j, op) =>
      OnSound(v, csize, j, op, w);
      var a, b := v.files[j], w.files[j];
      match op {
        case First => StartKeeps(v.x, csize, a, w.x, b);
        case Longer => StretchKeeps(v.x, csize, a, w.x, b);
        case LastOut => LastFlushKeeps(v.x, csize, a, w.x, b);
        case Flush => FlushKeeps(v.x, csize, a, w.x, b);
        case Remove(k) => RemoveKeeps(v.x, csize, a, k, w.x, b);
      }
  }

  /** Over every run, on any number of files, the lists stay disjoint and the files', their
      clusters stay marked, the free count stays right, and every step keeps its promise. */
  lemma {:induction false} RunSound(vs: seq<XVolume>, csize: nat, ops: seq<VolumeOp>, i: nat)
    requires Run(vs, csize, ops) && i < |vs| && Sound(vs[0], csize)
    ensures Sound(vs[i], csize)
    ensures i > 0 ==> Sound(vs[i - 1], csize) && Promise(vs[i - 1], csize, ops[i - 1], vs[i])
  {
    hide Sound, Step, Promise;
    if i > 0 {
      RunSound(vs, csize, ops, i - 1);
      assert Step(vs[i - 1], csize, ops[i - 1], vs[i - 1 + 1]);
      StepPromise(vs[i - 1], csize, ops[i - 1], vs[i]);
    }
  }

  /** A volume without open files and with an unknown count is where runs start. */
  lemma StartSound(x: XVol, csize: nat)
    requires x.Valid() && csize > 0 && x.free == ALL_ONES
    ensures Sound(XVolume(x, []), csize)
  {
  }
}
