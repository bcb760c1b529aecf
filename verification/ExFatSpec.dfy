/** Allocation on exFAT, over the bitmap and the late-written FAT as values. */
module ExFatSpec {
  import opened Bytes
  import opened Bitmap
  import opened LazyChain

  // ---- Counting

  ghost function ClearCount(b: seq<bool>, n: nat): (k: nat)
    requires n <= |b|
    ensures k <= n
  {
    if n == 0 then 0 else ClearCount(b, n - 1) + if b[n - 1] then 0 else 1
  }

  lemma {:induction false} ClearCountSet(b: seq<bool>, i: nat, x: bool, n: nat)
    requires i < |b| && n <= |b|
    ensures ClearCount(b[i := x], n)
         == ClearCount(b, n) + if i < n then (if b[i] then 1 else 0) - (if x then 1 else 0) else 0
    decreases n
  {
    if n > 0 {
      ClearCountSet(b, i, x, n - 1);
    }
  }

  lemma {:induction false} ClearCountZero(b: seq<bool>, n: nat)
    requires n <= |b|
    ensures ClearCount(b, n) == 0 <==> forall m | 0 <= m < n :: b[m]
    ensures (exists m | 0 <= m < n :: b[m]) ==> ClearCount(b, n) < n
    decreases n
  {
    if n > 0 {
      ClearCountZero(b, n - 1);
    }
  }

  // ---- Creating

  /** FAT entries, allocation bits and hints of the volume. */
  datatype XVol = XVol(f: seq<nat>, bits: seq<bool>, free: nat, last: nat) {
    ghost predicate Valid() {
      3 <= |f| <= XEOC && |f| - 2 <= |bits| && free <= ALL_ONES && last <= ALL_ONES
    }
  }

  ghost predicate XCounted(x: XVol)
    requires x.Valid()
  {
    x.free == ClearCount(x.bits, |x.f| - 2) || x.free > |x.f| - 2
  }

  /** create_chain on an exFAT volume. */
  ghost function XCreate(x: XVol, o: XObj, csize: nat, clst: nat): (XVol, XObj, nat)
    requires x.Valid() && csize > 0 && clst < DWORD && o.sclust < DWORD && o.nFrag <= clst + 1
  {
    var n := |x.f|;
    var cs := XGet(x.f, o, csize, clst);
    if clst != 0 && cs < 2 then (x, o, 1)
    else if clst != 0 && cs < n then (x, o, cs)
    else if x.free == 0 then (x, o, 0)
    else
      var scl := if clst != 0 then clst else if x.last == 0 || x.last >= n then 1 else x.last;
      var ncl := FindFree(x.bits, n - 2, StartBit(n - 2, scl));
      if ncl == 0 then (x, o, 0)
      else
        var (f', o') := Attach(x.f, o, clst, ncl);
        (XVol(f', x.bits[ncl - 2 := true], if x.free <= n - 2 then x.free - 1 else x.free, ncl), o', ncl)
  }

  /** Every cluster of the list is marked in use. */
  ghost predicate InUse(x: XVol, s: seq<nat>)
    requires x.Valid()
  {
    forall i | 0 <= i < |s| :: 2 <= s[i] < |x.f| && x.bits[s[i] - 2]
  }

  /** Stretching an open exFAT file: one formerly free cluster is appended, and 0 is returned
      exactly when no cluster is free. */
  lemma XCreateStretches(x: XVol, o: XObj, csize: nat, s: seq<nat>)
    requires x.Valid() && csize > 0 && XCounted(x) && InUse(x, s)
    requires Lazy(x.f, o, s) && Sized(o, csize, s)
    ensures o.nFrag <= s[|s| - 1] + 1
    ensures var (x', o', r) := XCreate(x, o, csize, s[|s| - 1]);
      && x'.Valid() && XCounted(x')
      && (r == 0 <==> forall m | 0 <= m < |x.f| - 2 :: x.bits[m])
      && (r == 0 ==> x' == x && o' == o)
      && (r != 0 ==>
            && 2 <= r < |x.f| && !x.bits[r - 2] && x'.bits == x.bits[r - 2 := true]
            && Lazy(x'.f, o', s + [r]) && InUse(x', s + [r]) && |x'.f| == |x.f|
            && forall c | 0 <= c < |x.f| && c !in s :: x'.f[c] == x.f[c])
  {
    hide Attach, Written, Adjacent, FindFree, XGet, LastIndex, Span;
    TailIsEnd(x.f, o, csize, s);
    LastBound(x.f, o, s);
    var (x', o', r) := XCreate(x, o, csize, s[|s| - 1]);
    ClearCountZero(x.bits, |x.f| - 2);
    if r != 0 {
      ClearCountSet(x.bits, r - 2, true, |x.f| - 2);
      assert r !in s;
      AttachKeeps(x.f, o, s, r);
      assert InUse(x', s + [r]);
    }
  }

  /** A new exFAT chain starts contiguous, with nothing on the FAT. */
  lemma XCreateStarts(x: XVol, o: XObj, csize: nat)
    requires x.Valid() && csize > 0 && XCounted(x) && o.nFrag == 0 && o.sclust < DWORD
    ensures var (x', o', r) := XCreate(x, o, csize, 0);
      && x'.Valid() && XCounted(x') && x'.f == x.f
      && (r == 0 <==> forall m | 0 <= m < |x.f| - 2 :: x.bits[m])
      && (r != 0 ==>
            && 2 <= r < |x.f| && !x.bits[r - 2] && x'.bits == x.bits[r - 2 := true]
            && Lazy(x'.f, o'.(sclust := r), [r]) && InUse(x', [r]))
  {
    var (x', o', r) := XCreate(x, o, csize, 0);
    ClearCountZero(x.bits, |x.f| - 2);
    if r != 0 {
      ClearCountSet(x.bits, r - 2, true, |x.f| - 2);
    }
  }

  // ---- Removing

  /** The bits of all clusters of s cleared. */
  function Cleared(b: seq<bool>, s: seq<nat>): (r: seq<bool>)
    requires forall i | 0 <= i < |s| :: 2 <= s[i] < |b| + 2
    ensures |r| == |b|
    decreases |s|
  {
    if s == [] then b else Cleared(b[s[0] - 2 := false], s[1..])
  }

  lemma {:induction false} ClearedAt(b: seq<bool>, s: seq<nat>, m: nat)
    requires (forall i | 0 <= i < |s| :: 2 <= s[i] < |b| + 2) && m < |b|
    ensures Cleared(b, s)[m] == (b[m] && m + 2 !in s)
    decreases |s|
  {
    if s != [] {
      ClearedAt(b[s[0] - 2 := false], s[1..], m);
      assert m + 2 in s <==> m + 2 == s[0] || m + 2 in s[1..];
    }
  }

  /** What follows cluster number i of the removed chain. */
  function Next(s: seq<nat>, i: nat): nat
    requires i < |s|
  {
    if i + 1 < |s| then s[i + 1] else XEOC
  }

  /** Every cluster of s has a bit. */
  predicate Within(b: seq<bool>, s: seq<nat>) { forall i | 0 <= i < |s| :: 2 <= s[i] < |b| + 2 }

  /** The bitmap part of the remove_chain loop, from index i with the current block starting
      at scl: a block is cleared when the next cluster does not continue it. */
  function ClearRuns(b: seq<bool>, s: seq<nat>, i: nat, scl: nat): (r: seq<bool>)
    requires Within(b, s) && i < |s| && 2 <= scl <= s[i]
    ensures |r| == |b|
    decreases |s| - i
  {
    var nxt := Next(s, i);
    if s[i] + 1 == nxt then (if i + 1 < |s| then ClearRuns(b, s, i + 1, scl) else b)
    else
      var b' := SetRun(b, scl - 2, s[i] - scl + 1, false);
      if i + 1 < |s| then ClearRuns(b', s, i + 1, nxt) else b'
  }

  ghost predicate Block(s: seq<nat>, j: nat, i: nat) { j <= i < |s| && Adjacent(s, j, i) }

  /** c is one of the clusters from index j on. */
  ghost predicate FromOn(s: seq<nat>, j: nat, c: nat)
    decreases |s| - j
  {
    j < |s| && (s[j] == c || FromOn(s, j + 1, c))
  }

  lemma {:induction false} FromOnIsIn(s: seq<nat>, j: nat, c: nat)
    requires j <= |s|
    ensures FromOn(s, j, c) <==> c in s[j..]
    decreases |s| - j
  {
    if j < |s| {
      FromOnIsIn(s, j + 1, c);
      assert s[j..] == [s[j]] + s[j + 1..];
    }
  }

  /** The clusters of a block are a range of numbers. */
  lemma {:induction false} BlockMembers(s: seq<nat>, j: nat, i: nat, c: nat)
    requires Block(s, j, i)
    ensures s[j] + (i - j) == s[i]
    ensures FromOn(s, j, c) <==> s[j] <= c <= s[i] || FromOn(s, i + 1, c)
    decreases i - j
  {
    if j < i {
      assert Block(s, j + 1, i);
      BlockMembers(s, j + 1, i, c);
    }
  }

  /** From a block that starts at index j, exactly the bits of the clusters from j on are
      cleared, unless the last cluster is the one right below the end mark. */
  lemma {:induction false} ClearRunsAt(b: seq<bool>, s: seq<nat>, j: nat, i: nat, m: nat)
    requires Within(b, s) && Block(s, j, i) && m < |b|
    requires s[|s| - 1] + 1 != XEOC
    ensures s[j] <= s[i] && ClearRuns(b, s, i, s[j])[m] == (b[m] && !FromOn(s, j, m + 2))
    decreases |s| - i
  {
    BlockMembers(s, j, i, m + 2);
    if i + 1 < |s| && s[i] + 1 == s[i + 1] {
      assert Block(s, j, i + 1);
      ClearRunsAt(b, s, j, i + 1, m);
    } else if i + 1 < |s| {
      assert Block(s, i + 1, i + 1);
      ClearRunsAt(SetRun(b, s[j] - 2, s[i] - s[j] + 1, false), s, i + 1, i + 1, m);
    }
  }

  /** If it is, its own bit stays set. */
  lemma {:induction false} LastStays(b: seq<bool>, s: seq<nat>, j: nat, i: nat)
    requires Within(b, s) && Block(s, j, i)
    requires (forall k, l | 0 <= k < l < |s| :: s[k] != s[l]) && s[|s| - 1] + 1 == XEOC
    ensures s[j] <= s[i] && ClearRuns(b, s, i, s[j])[s[|s| - 1] - 2] == b[s[|s| - 1] - 2]
    decreases |s| - i
  {
    BlockMembers(s, j, i, s[|s| - 1]);
    LastNotIn(s, j, i);
    if i + 1 < |s| && s[i] + 1 == s[i + 1] {
      assert Block(s, j, i + 1);
      LastStays(b, s, j, i + 1);
    } else if i + 1 < |s| {
      assert Block(s, i + 1, i + 1);
      LastStays(SetRun(b, s[j] - 2, s[i] - s[j] + 1, false), s, i + 1, i + 1);
    }
  }

  lemma LastNotIn(s: seq<nat>, j: nat, i: nat)
    requires Block(s, j, i) && forall k, l | 0 <= k < l < |s| :: s[k] != s[l]
    ensures i < |s| - 1 ==> !(s[j] <= s[|s| - 1] <= s[i])
  {
    AdjacentValue(s, j, i, i);
    if i < |s| - 1 && s[j] <= s[|s| - 1] <= s[i] {
      AdjacentValue(s, j, i, j + (s[|s| - 1] - s[j]));
    }
  }

  /** remove_chain clears exactly the bits of the removed clusters if and only if the last of
      them is not cluster 0x7FFFFFFE: to the loop that one looks as if the end mark continued
      its block, so its block is never cleared. */
  lemma ClearRunsExact(b: seq<bool>, s: seq<nat>)
    requires |s| > 0 && (forall k | 0 <= k < |s| :: 2 <= s[k] < |b| + 2 && b[s[k] - 2])
    requires forall k, l | 0 <= k < l < |s| :: s[k] != s[l]
    ensures ClearRuns(b, s, 0, s[0]) == Cleared(b, s) <==> s[|s| - 1] != 0x7FFFFFFE
  {
    hide ClearRuns, Cleared, FromOn;
    var r, l := ClearRuns(b, s, 0, s[0]), s[|s| - 1];
    assert s[0..] == s && Block(s, 0, 0) && l in s;
    if l + 1 != XEOC {
      forall m | 0 <= m < |b| ensures r[m] == Cleared(b, s)[m] {
        ClearedAt(b, s, m);
        ClearRunsAt(b, s, 0, 0, m);
        FromOnIsIn(s, 0, m + 2);
      }
    } else {
      LastStays(b, s, 0, 0);
      ClearedAt(b, s, l - 2);
    }
  }

  /** The case that fails: a volume of the largest size and a chain that is just its last cluster. */
  lemma LastClusterKept(b: seq<bool>)
    requires |b| >= XEOC - 2 && b[XEOC - 3]
    ensures ClearRuns(b, [0x7FFFFFFE], 0, 0x7FFFFFFE) == b != Cleared(b, [0x7FFFFFFE])
  {
    assert [XEOC - 1][1..] == [];
    ClearedAt(b, [XEOC - 1], XEOC - 3);
  }

  /** The count after m clusters have been released one by one. */
  function Bump(free: nat, m: nat, cap: nat): nat
    decreases m
  {
    if m == 0 then free else Bump(if free < cap then free + 1 else free, m - 1, cap)
  }

  lemma {:induction false} BumpIs(free: nat, m: nat, cap: nat)
    ensures free + m <= cap ==> Bump(free, m, cap) == free + m
    ensures free > cap ==> Bump(free, m, cap) == free
    decreases m
  {
    if m > 0 {
      BumpIs(if free < cap then free + 1 else free, m - 1, cap);
    }
  }

  lemma {:induction false} ClearedCounts(b: seq<bool>, s: seq<nat>, n: nat)
    requires n <= |b| && (forall i | 0 <= i < |s| :: 2 <= s[i] < n + 2 && b[s[i] - 2])
    requires forall i, j | 0 <= i < j < |s| :: s[i] != s[j]
    ensures ClearCount(Cleared(b, s), n) == ClearCount(b, n) + |s|
    decreases |s|
  {
    if s != [] {
      ClearCountSet(b, s[0] - 2, false, n);
      ClearedCounts(b[s[0] - 2 := false], s[1..], n);
    }
  }

  /** Releasing exactly the removed clusters keeps the free count right. */
  lemma RemoveCounted(x: XVol, s: seq<nat>, k: nat, f': seq<nat>)
    requires x.Valid() && XCounted(x) && InUse(x, s) && k <= |s| && |f'| == |x.f|
    requires forall i, j | 0 <= i < j < |s| :: s[i] != s[j]
    ensures var x' := XVol(f', Cleared(x.bits, s[k..]), Bump(x.free, |s| - k, |x.f| - 2), x.last);
      x'.Valid() && XCounted(x')
  {
    hide Cleared, ClearCount, Bump;
    var n := |x.f| - 2;
    ClearedCounts(x.bits, s[k..], n);
    BumpIs(x.free, |s| - k, n);
  }

  /** While a chain is being cut, get_fat still follows the removed part. */
  lemma FollowsCut(f: seq<nat>, o: XObj, csize: nat, s: seq<nat>, k: nat, i: nat)
    requires csize > 0 && Lazy(f, o, s) && Sized(o, csize, s) && o.nFrag == 0 && k <= i < |s|
    ensures XGet(CutFat(f, o, s, k), o, csize, s[i]) == Next(s, i)
  {
    hide LastIndex, Span;
    if i < |s| - 1 {
      Follows(f, o, csize, s, i);
    } else {
      TailIsEnd(f, o, csize, s);
    }
  }

  /** And the part that stays, up to its new last cluster. */
  lemma FollowsKept(f: seq<nat>, o: XObj, csize: nat, s: seq<nat>, k: nat, i: nat)
    requires csize > 0 && Lazy(f, o, s) && Sized(o, csize, s) && o.nFrag == 0 && i + 1 < k <= |s|
    ensures XGet(CutFat(f, o, s, k), o, csize, s[i]) == s[i + 1]
  {
    hide LastIndex, Span;
    Follows(f, o, csize, s, i);
  }

  /** The bits still to be cleared: those of the open block and of everything behind it. */
  ghost predicate StillSet(b: seq<bool>, t: seq<nat>, j: nat) {
    forall l | j <= l < |t| :: 2 <= t[l] < |b| + 2 && b[t[l] - 2]
  }

  /** Clearing the block from index j to index i leaves the rest set. */
  lemma RestStillSet(b: seq<bool>, t: seq<nat>, j: nat, i: nat)
    requires StillSet(b, t, j) && Block(t, j, i) && forall k, l | 0 <= k < l < |t| :: t[k] != t[l]
    ensures t[j] <= t[i] && StillSet(SetRun(b, t[j] - 2, t[i] - t[j] + 1, false), t, i + 1)
    ensures Leading(b, t[j] - 2, t[i] - t[j] + 1, false) == t[i] - t[j] + 1
  {
    AdjacentValue(t, j, i, i);
    var b' := SetRun(b, t[j] - 2, t[i] - t[j] + 1, false);
    forall m | t[j] - 2 <= m < t[i] - 1 ensures b[m] {
      AdjacentValue(t, j, i, j + (m + 2 - t[j]));
    }
    LeadingIs(b, t[j] - 2, t[i] - t[j] + 1, false, t[i] - t[j] + 1);
    forall l | i + 1 <= l < |t| ensures 2 <= t[l] < |b'| + 2 && b'[t[l] - 2] {
      if t[j] <= t[l] <= t[i] {
        AdjacentValue(t, j, i, j + (t[l] - t[j]));
      }
    }
  }

  lemma FollowsTail(f: seq<nat>, o: XObj, csize: nat, s: seq<nat>, k: nat, i: nat)
    requires csize > 0 && Lazy(f, o, s) && Sized(o, csize, s) && o.nFrag == 0 && k < |s| && i < |s| - k
    ensures XGet(CutFat(f, o, s, k), o, csize, s[k..][i]) == Next(s[k..], i)
    ensures Next(s[k..], i) >= |f| <==> i + 1 == |s[k..]|
  {
    hide LastIndex, Span, XGet;
    FollowsCut(f, o, csize, s, k, k + i);
  }

  /** Where the removal loop stands: at index i of t, in a block that started at index j. */
  ghost predicate InBlock(b: seq<bool>, t: seq<nat>, j: nat, i: nat)
    ensures InBlock(b, t, j, i) ==> j <= i < |t| && 2 <= t[j] <= t[i] && Within(b, t)
  {
    && j <= i < |t| && t[j] <= t[i] && Block(t, j, i) && StillSet(b, t, j)
    && Within(b, t)
    && (forall k, l | 0 <= k < l < |t| :: t[k] != t[l])
  }

  /** A round that continues the block. */
  lemma RoundContinues(b: seq<bool>, t: seq<nat>, j: nat, i: nat)
    requires InBlock(b, t, j, i) && t[i] + 1 == Next(t, i)
    ensures ClearRuns(b, t, i, t[j]) == if i + 1 < |t| then ClearRuns(b, t, i + 1, t[j]) else b
    ensures i + 1 < |t| ==> InBlock(b, t, j, i + 1)
  {
  }

  /** A round that ends the block and clears it. */
  lemma RoundEnds(b: seq<bool>, t: seq<nat>, j: nat, i: nat)
    requires InBlock(b, t, j, i) && t[i] + 1 != Next(t, i)
    ensures Leading(b, t[j] - 2, t[i] - t[j] + 1, false) == t[i] - t[j] + 1
    ensures var b' := SetRun(b, t[j] - 2, t[i] - t[j] + 1, false);
      && ClearRuns(b, t, i, t[j]) == (if i + 1 < |t| then ClearRuns(b', t, i + 1, t[i + 1]) else b')
      && (i + 1 < |t| ==> InBlock(b', t, i + 1, i + 1))
  {
    RestStillSet(b, t, j, i);
  }

  /** The cluster create_chain takes on exFAT: the first one with a clear bit, going up from the end
      of the chain, or for a new chain from the hint, and round; it becomes the hint. */
  lemma XCreateNextFit(x: XVol, o: XObj, csize: nat, clst: nat)
    requires x.Valid() && csize > 0 && clst < DWORD && o.sclust < DWORD && o.nFrag <= clst + 1
    ensures var (x', o', r) := XCreate(x, o, csize, clst);
      x'.bits != x.bits ==>
        var n := |x.f|;
        var from := if clst != 0 then clst else x.last;
        var start := if 2 <= from < n then from else 2;
        && x'.last == r && 2 <= r < n && x'.bits == x.bits[r - 2 := true]
        && forall m | 0 <= m < n - 2 && (if start <= r then start <= m + 2 < r else m + 2 >= start || m + 2 < r) ::
             x.bits[m]
  {
    hide FindFree, Attach, XGet, StartBit;
    var n := |x.f|;
    var scl := if clst != 0 then clst else if x.last == 0 || x.last >= n then 1 else x.last;
    StartBitIs(n - 2, scl);
    FindsFirst(x.bits, n - 2, StartBit(n - 2, scl));
  }

  /** create_chain inside a list changes nothing and returns the next cluster. */
  lemma XCreateFollows(x: XVol, o: XObj, csize: nat, s: seq<nat>, i: nat)
    requires x.Valid() && csize > 0 && Lazy(x.f, o, s) && Sized(o, csize, s) && o.nFrag == 0 && i < |s| - 1
    ensures XCreate(x, o, csize, s[i]) == (x, o, s[i + 1])
  {
    hide XGet, Span, LastIndex, FindFree, Attach;
    Follows(x.f, o, csize, s, i);
  }
}
