/** The cluster allocator over a FAT seen as a plain sequence of entries: what creating,
    stretching and removing chains does to the chains and to the free-cluster count. */
module Chains {
  import opened Bytes
  import opened VolumeWindow
  import opened FatTable

  /** The FAT together with the two allocation hints of the filesystem object. */
  datatype FatState = FatState(t: FsType, f: seq<nat>, free: nat, last: nat) {
    ghost predicate Valid() {
      && t != ExFat
      && 3 <= |f| <= MaxClusters(t) + 2
      && (forall c | 0 <= c < |f| :: f[c] <= Eoc(t))
      && free <= ALL_ONES && last <= ALL_ONES
    }
  }

  /** The end-of-chain value as it is stored and read back. */
  function Eoc(t: FsType): nat { Cut(t, ALL_ONES) }

  // ---- Counting free clusters

  /** Number of free clusters among 2 .. hi-1. */
  ghost function FreeCount(f: seq<nat>, hi: nat): (n: nat)
    requires hi <= |f|
    ensures hi >= 2 ==> n <= hi - 2
    ensures hi < 2 ==> n == 0
  {
    if hi <= 2 then 0 else FreeCount(f, hi - 1) + if f[hi - 1] == 0 then 1 else 0
  }

  ghost predicate NoneFree(f: seq<nat>) { forall c | 2 <= c < |f| :: f[c] != 0 }

  lemma {:induction false} FreeCountSet(f: seq<nat>, c: nat, x: nat, hi: nat)
    requires 2 <= c < |f| && hi <= |f|
    ensures var d := (if x == 0 then 1 else 0) - (if f[c] == 0 then 1 else 0);
      FreeCount(f[c := x], hi) == FreeCount(f, hi) + if c < hi then d else 0
  {
    if hi > 2 {
      FreeCountSet(f, c, x, hi - 1);
    }
  }

  lemma {:induction false} FreeCountExtremes(f: seq<nat>, hi: nat)
    requires 2 <= hi <= |f|
    ensures FreeCount(f, hi) == 0 <==> forall c | 2 <= c < hi :: f[c] != 0
    ensures (exists c | 2 <= c < hi :: f[c] != 0) ==> FreeCount(f, hi) < hi - 2
  {
    if hi > 2 {
      FreeCountExtremes(f, hi - 1);
    }
  }

  // ---- Chains

  /** ch is a chain of f: linked cluster by cluster and closed by an end mark. */
  ghost predicate IsChain(f: seq<nat>, ch: seq<nat>) {
    && |ch| > 0
    && (forall i | 0 <= i < |ch| :: 2 <= ch[i] < |f|)
    && (forall i | 0 <= i < |ch| - 1 :: f[ch[i]] == ch[i + 1])
    && f[ch[|ch| - 1]] >= |f|
  }

  ghost predicate Covered(chains: set<seq<nat>>, c: nat) { exists ch | ch in chains :: c in ch }

  ghost predicate Apart(a: seq<nat>, b: seq<nat>) { forall c | c in a :: c !in b }

  /** The FAT is exactly the union of the given chains, which share no cluster. */
  ghost predicate Partition(f: seq<nat>, chains: set<seq<nat>>) {
    && (forall ch | ch in chains :: IsChain(f, ch))
    && (forall a, b | a in chains && b in chains && a != b :: Apart(a, b))
    && (forall c | 2 <= c < |f| && f[c] != 0 :: Covered(chains, c))
  }

  /** A chain never comes back to a cluster. */
  lemma {:induction false} Acyclic(f: seq<nat>, ch: seq<nat>, i: nat, j: nat)
    requires IsChain(f, ch) && i < j < |ch|
    ensures ch[i] != ch[j]
    decreases |ch| - j
  {
    assert f[ch[i]] == ch[i + 1];
    if j < |ch| - 1 {
      assert f[ch[j]] == ch[j + 1];
      Acyclic(f, ch, i + 1, j + 1);
    }
  }

  lemma ChainDistinct(f: seq<nat>, ch: seq<nat>)
    requires IsChain(f, ch)
    ensures forall i, j | 0 <= i < j < |ch| :: ch[i] != ch[j]
  {
    forall i, j | 0 <= i < j < |ch| ensures ch[i] != ch[j] {
      Acyclic(f, ch, i, j);
    }
  }

  /** Entries outside the chain do not matter to it. */
  lemma ChainFrame(f: seq<nat>, f': seq<nat>, ch: seq<nat>)
    requires IsChain(f, ch) && |f'| == |f|
    requires forall c | 0 <= c < |f| && c in ch :: f'[c] == f[c]
    ensures IsChain(f', ch)
  {
    assert forall i | 0 <= i < |ch| :: ch[i] in ch;
  }

  // ---- Allocation

  /** First entry with value 0 or 1 in lo .. hi-1, or 0 if there is none. */
  function FirstLow(f: seq<nat>, lo: nat, hi: nat): (c: nat)
    requires 2 <= lo && hi <= |f|
    ensures c == 0 ==> forall d | lo <= d < hi :: f[d] >= 2
    ensures c != 0 ==> lo <= c < hi && f[c] < 2 && forall d | lo <= d < c :: f[d] >= 2
    decreases hi - lo
  {
    if lo >= hi then 0 else if f[lo] < 2 then lo else FirstLow(f, lo + 1, hi)
  }

  /** The circular search that starts behind scl and ends with scl itself. */
  function Search(f: seq<nat>, scl: nat): (c: nat)
    requires 1 <= scl < |f| && |f| >= 3
    ensures c == 0 <==> forall d | 2 <= d < |f| :: f[d] >= 2
    ensures c != 0 ==> 2 <= c < |f| && f[c] < 2
  {
    var c := FirstLow(f, scl + 1, |f|);
    if c != 0 then c else FirstLow(f, 2, scl + 1)
  }

  /** The cluster create_chain settles on: 0 when none is free, otherwise an entry below 2
      (an entry with the illegal value 1 stops the search). */
  function Choose(s: FatState, clst: nat): (c: nat)
    requires 3 <= |s.f| && clst < |s.f| && clst != 1
    ensures c == 0 <==> NoneFree(s.f) && NoOnes(s.f)
    ensures c != 0 ==> 2 <= c < |s.f| && s.f[c] < 2
  {
    var n := |s.f|;
    if clst == 0 then Search(s.f, if s.last == 0 || s.last >= n then 1 else s.last)
    else
      var next := if clst + 1 >= n then 2 else clst + 1;
      if s.f[next] < 2 then next
      else Search(s.f, if 2 <= s.last < n then s.last else clst)
  }

  /** The FAT after cluster ncl has been taken and linked from clst. */
  function Linked(s: FatState, clst: nat, ncl: nat): (f: seq<nat>)
    requires 2 <= ncl < |s.f| && clst < |s.f|
    ensures |f| == |s.f|
  {
    var f := s.f[ncl := Eoc(s.t)];
    if clst != 0 then f[clst := ncl] else f
  }

  /** create_chain: new state and return value (0: full, 1: error, else a cluster). */
  function Create(s: FatState, clst: nat): (FatState, nat)
    requires 3 <= |s.f|
  {
    if clst != 0 && (clst < 2 || clst >= |s.f| || s.f[clst] < 2) then (s, 1)
    else if clst != 0 && s.f[clst] < |s.f| then (s, s.f[clst])
    else if s.free == 0 then (s, 0)
    else
      var ncl := Choose(s, clst);
      if ncl == 0 then (s, 0)
      else if s.f[ncl] == 1 then (s, 1)
      else (FatState(s.t, Linked(s, clst, ncl), if s.free <= |s.f| - 2 then s.free - 1 else s.free, ncl), ncl)
  }

  // ---- Removal

  datatype Removal = Removal(f: seq<nat>, free: nat, ok: bool)

  /** The freeing loop. It ends on every FAT, cyclic and cross-linked ones included,
      because each round turns a nonzero entry into a free one. */
  function Free(f: seq<nat>, free: nat, c: nat): (r: Removal)
    requires 2 <= c < |f|
    ensures |r.f| == |f|
    decreases |f| - FreeCount(f, |f|)
  {
    var nxt := f[c];
    if nxt == 0 then Removal(f, free, true)
    else if nxt == 1 then Removal(f, free, false)
    else
      FreeCountSet(f, c, 0, |f|);
      var free' := if free < |f| - 2 then free + 1 else free;
      if nxt < |f| then Free(f[c := 0], free', nxt) else Removal(f[c := 0], free', true)
  }

  /** remove_chain: new state and whether it succeeded. */
  function Remove(s: FatState, clst: nat, pclst: nat): (FatState, bool)
    requires 3 <= |s.f|
  {
    if clst < 2 || clst >= |s.f| then (s, false)
    else if pclst != 0 && (pclst < 2 || pclst >= |s.f|) then (s, false)
    else
      var f := if pclst != 0 then s.f[pclst := Eoc(s.t)] else s.f;
      var r := Free(f, s.free, clst);
      (FatState(s.t, r.f, r.free, s.last), r.ok)
  }

  /** From any starting contents, cyclic and cross-linked ones included, the loop ends
      having only turned entries into free ones, the first cluster among them. */
  lemma {:induction false} FreeOnlyClears(f: seq<nat>, free: nat, c: nat)
    requires 2 <= c < |f|
    ensures var r := Free(f, free, c);
      && (forall d | 0 <= d < |f| :: r.f[d] == f[d] || r.f[d] == 0)
      && (r.f[c] == 0 || (!r.ok && f[c] == 1))
      && (r.ok || exists d | 2 <= d < |f| :: f[d] == 1)
    decreases |f| - FreeCount(f, |f|)
  {
    if 2 <= f[c] < |f| {
      FreeCountSet(f, c, 0, |f|);
      var free' := if free < |f| - 2 then free + 1 else free;
      FreeOnlyClears(f[c := 0], free', f[c]);
      var r := Free(f[c := 0], free', f[c]);
      assert forall d | 0 <= d < |f| :: f[c := 0][d] == f[d] || f[c := 0][d] == 0;
    }
  }

  /** All clusters of s freed. */
  function Zeroed(f: seq<nat>, s: seq<nat>): (r: seq<nat>)
    requires forall i | 0 <= i < |s| :: s[i] < |f|
    ensures |r| == |f|
    decreases |s|
  {
    if s == [] then f else Zeroed(f[s[0] := 0], s[1..])
  }

  lemma {:induction false} ZeroedAt(f: seq<nat>, s: seq<nat>, c: nat)
    requires (forall i | 0 <= i < |s| :: s[i] < |f|) && c < |f|
    ensures Zeroed(f, s)[c] == if c in s then 0 else f[c]
    decreases |s|
  {
    if s != [] {
      ZeroedAt(f[s[0] := 0], s[1..], c);
      assert c in s <==> c == s[0] || c in s[1..];
    }
  }

  /** On a proper chain the loop frees that chain and nothing else, and counts it. */
  lemma {:induction false} FreeChain(f: seq<nat>, free: nat, s: seq<nat>)
    requires IsChain(f, s)
    ensures Free(f, free, s[0]).ok && Free(f, free, s[0]).f == Zeroed(f, s)
    decreases |s|
  {
    var f' := f[s[0] := 0];
    if |s| == 1 {
      assert s[1..] == [];
    } else {
      ChainDistinct(f, s);
      var t := s[1..];
      assert IsChain(f', t);
      var free' := if free < |f| - 2 then free + 1 else free;
      FreeChain(f', free', t);
    }
  }

  // ---- Every operation keeps the FAT a union of disjoint chains

  lemma EocIsEnd(s: FatState)
    requires s.Valid()
    ensures Eoc(s.t) >= |s.f|
  {
  }

  /** The chain that contains cluster c. */
  ghost function Owner(f: seq<nat>, chains: set<seq<nat>>, c: nat): (ch: seq<nat>)
    requires Partition(f, chains) && 2 <= c < |f| && f[c] != 0
    ensures ch in chains && c in ch
  {
    assert Covered(chains, c);
    var ch :| ch in chains && c in ch; ch
  }

  /** What create_chain makes of the chains when it returns the new cluster ncl. */
  ghost function Extended(f: seq<nat>, chains: set<seq<nat>>, clst: nat, ncl: nat): set<seq<nat>>
    requires Partition(f, chains) && (clst == 0 || (2 <= clst < |f| && f[clst] != 0))
  {
    if clst == 0 then chains + {[ncl]}
    else chains - {Owner(f, chains, clst)} + {Owner(f, chains, clst) + [ncl]}
  }

  /** create_chain appends exactly one formerly free cluster to exactly one chain (or opens
      a new one), and every other chain stays as it is. */
  lemma CreateExtends(s: FatState, chains: set<seq<nat>>, clst: nat)
    requires s.Valid() && Partition(s.f, chains)
    ensures var (s', r) := Create(s, clst);
      if s' == s then Partition(s'.f, chains)
      else
        && 2 <= r < |s.f| && s.f[r] == 0
        && (clst == 0 || (2 <= clst < |s.f| && s.f[clst] >= |s.f|))
        && Partition(s'.f, Extended(s.f, chains, clst, r))
  {
    var (s', r) := Create(s, clst);
    if s' != s {
      EocIsEnd(s);
      if clst == 0 {
        NewChain(s, chains, r);
      } else {
        var ch := Owner(s.f, chains, clst);
        OwnerEnds(s.f, ch, clst);
        LongerChain(s, chains, ch, r);
      }
    }
  }

  /** A cluster that carries an end mark is the last one of its chain. */
  lemma OwnerEnds(f: seq<nat>, ch: seq<nat>, c: nat)
    requires IsChain(f, ch) && c in ch && f[c] >= |f|
    ensures ch[|ch| - 1] == c
  {
    forall i | 0 <= i < |ch| - 1 ensures f[ch[i]] < |f| {
      assert f[ch[i]] == ch[i + 1];
    }
    var i :| 0 <= i < |ch| && ch[i] == c;
  }

  lemma FreeNotInChain(f: seq<nat>, ch: seq<nat>, c: nat)
    requires IsChain(f, ch) && c < |f| && f[c] < 2
    ensures c !in ch
  {
    forall i | 0 <= i < |ch| ensures f[ch[i]] >= 2 {
      assert i < |ch| - 1 ==> f[ch[i]] == ch[i + 1];
    }
  }

  lemma OneCluster(f: seq<nat>, c: nat)
    requires 2 <= c < |f| && f[c] >= |f|
    ensures IsChain(f, [c])
  {
  }

  lemma CoveredBy(chains: set<seq<nat>>, ch: seq<nat>, c: nat)
    requires ch in chains && c in ch
    ensures Covered(chains, c)
  {
  }

  /** Replacing the chain `gone` by the chain `p` (either may be empty, meaning none). */
  ghost function Replaced(chains: set<seq<nat>>, gone: seq<nat>, p: seq<nat>): set<seq<nat>> {
    if p == [] then chains - {gone} else chains - {gone} + {p}
  }

  ghost predicate ApartFrom(chains: set<seq<nat>>, gone: seq<nat>, p: seq<nat>) {
    forall a | a in chains && a != gone :: Apart(a, p)
  }

  lemma Repartition(f: seq<nat>, f': seq<nat>, chains: set<seq<nat>>, gone: seq<nat>, p: seq<nat>)
    requires Partition(f, chains) && |f'| == |f|
    requires p == [] || IsChain(f', p)
    requires ApartFrom(chains, gone, p) && ApartFrom(chains, gone, gone)
    requires forall c | 0 <= c < |f| && c !in gone && c !in p :: f'[c] == f[c]
    requires forall c | 0 <= c < |f| && c in gone && c !in p :: f'[c] == 0
    ensures Partition(f', Replaced(chains, gone, p))
  {
    hide IsChain, Covered;
    var chains' := Replaced(chains, gone, p);
    forall a | a in chains && a != gone ensures IsChain(f', a) && Apart(a, p) && Apart(p, a) {
      assert Apart(a, p) && Apart(a, gone);
      ChainFrame(f, f', a);
    }
    forall c | 2 <= c < |f'| && f'[c] != 0 ensures Covered(chains', c) {
      if c in p {
        CoveredBy(chains', p, c);
      } else {
        var a := Owner(f, chains, c);
        CoveredBy(chains', a, c);
      }
    }
  }

  lemma NewChain(s: FatState, chains: set<seq<nat>>, ncl: nat)
    requires s.Valid() && Partition(s.f, chains) && 2 <= ncl < |s.f| && s.f[ncl] == 0
    ensures Partition(Linked(s, 0, ncl), chains + {[ncl]})
  {
    var f' := Linked(s, 0, ncl);
    EocIsEnd(s);
    OneCluster(f', ncl);
    forall a | a in chains ensures Apart(a, [ncl]) && a != [] {
      FreeNotInChain(s.f, a, ncl);
    }
    Repartition(s.f, f', chains, [], [ncl]);
    assert chains - {[]} + {[ncl]} == chains + {[ncl]};
  }

  lemma AppendChain(s: FatState, ch: seq<nat>, ncl: nat)
    requires s.Valid() && IsChain(s.f, ch) && 2 <= ncl < |s.f| && s.f[ncl] == 0
    ensures IsChain(Linked(s, ch[|ch| - 1], ncl), ch + [ncl])
  {
    var f', ch' := Linked(s, ch[|ch| - 1], ncl), ch + [ncl];
    EocIsEnd(s);
    ChainDistinct(s.f, ch);
    FreeNotInChain(s.f, ch, ncl);
    forall i | 0 <= i < |ch'| - 1 ensures f'[ch'[i]] == ch'[i + 1] {
      assert ch[i] in ch;
      assert i < |ch| - 1 ==> f'[ch[i]] == s.f[ch[i]];
    }
  }

  lemma LongerChain(s: FatState, chains: set<seq<nat>>, ch: seq<nat>, ncl: nat)
    requires s.Valid() && Partition(s.f, chains) && ch in chains
    requires 2 <= ncl < |s.f| && s.f[ncl] == 0
    ensures Partition(Linked(s, ch[|ch| - 1], ncl), chains - {ch} + {ch + [ncl]})
  {
    AppendChain(s, ch, ncl);
    var clst := ch[|ch| - 1];
    assert clst in ch;
    var f' := Linked(s, clst, ncl);
    assert forall c | 0 <= c < |f'| && c != clst && c != ncl :: f'[c] == s.f[c];
    hide IsChain, Covered, Linked;
    forall a | a in chains && a != ch ensures Apart(a, ch + [ncl]) && Apart(a, ch) {
      FreeNotInChain(s.f, a, ncl);
      assert Apart(a, ch);
    }
    Repartition(s.f, f', chains, ch, ch + [ncl]);
  }

  /** What remains of the chains when the suffix from index k of ch has been removed. */
  ghost function Shortened(chains: set<seq<nat>>, ch: seq<nat>, k: nat): set<seq<nat>>
    requires k < |ch|
  {
    if k == 0 then chains - {ch} else chains - {ch} + {ch[..k]}
  }

  /** The entries after the previous cluster has been re-marked as the end. */
  ghost function Marked(s: FatState, ch: seq<nat>, k: nat): (f: seq<nat>)
    requires IsChain(s.f, ch) && k < |ch|
    ensures |f| == |s.f|
  {
    if k == 0 then s.f else s.f[ch[k - 1] := Eoc(s.t)]
  }

  lemma MarkedParts(s: FatState, ch: seq<nat>, k: nat)
    requires s.Valid() && IsChain(s.f, ch) && k < |ch|
    ensures IsChain(Marked(s, ch, k), ch[k..])
    ensures k > 0 ==> IsChain(Marked(s, ch, k), ch[..k])
  {
    var f := Marked(s, ch, k);
    ChainDistinct(s.f, ch);
    EocIsEnd(s);
    assert forall i | 0 <= i < |ch| - 1 && i != k - 1 :: f[ch[i]] == ch[i + 1];
    var t, p := ch[k..], ch[..k];
    forall i | 0 <= i < |t| - 1 ensures f[t[i]] == t[i + 1] {
      assert f[ch[k + i]] == ch[k + i + 1];
    }
    forall i | 0 <= i < |p| - 1 ensures f[p[i]] == p[i + 1] {
      assert f[ch[i]] == ch[i + 1];
    }
  }

  lemma PrefixApart(f: seq<nat>, ch: seq<nat>, k: nat)
    requires IsChain(f, ch) && k <= |ch|
    ensures Apart(ch[..k], ch[k..])
  {
    ChainDistinct(f, ch);
  }

  /** remove_chain, called with the cluster before clst (0 at the head), frees exactly the
      suffix from clst, re-marks the end, and leaves every other chain as it is. */
  lemma RemoveShortens(s: FatState, chains: set<seq<nat>>, ch: seq<nat>, k: nat)
    requires s.Valid() && Partition(s.f, chains) && ch in chains && k < |ch|
    ensures var (s', ok) := Remove(s, ch[k], if k == 0 then 0 else ch[k - 1]);
      && ok && Partition(s'.f, Shortened(chains, ch, k))
      && (forall c | 0 <= c < |s.f| && c in ch[k..] :: s'.f[c] == 0)
  {
    var t := ch[k..];
    var f := Marked(s, ch, k);
    assert ch[k] == t[0] && 2 <= ch[k] < |f| && (k > 0 ==> 2 <= ch[k - 1] < |f|);
    MarkedParts(s, ch, k);
    FreeChain(f, s.free, t);
    var (s', ok) := Remove(s, ch[k], if k == 0 then 0 else ch[k - 1]);
    assert ok && s'.f == Zeroed(f, t);
    AfterZeroing(s, ch, k);
    hide IsChain, Marked, Zeroed, Remove;
    forall a | a in chains && a != ch ensures Apart(a, ch[..k]) && Apart(a, ch) {
      assert Apart(a, ch);
    }
    Repartition(s.f, s'.f, chains, ch, ch[..k]);
  }

  lemma InParts(ch: seq<nat>, k: nat, c: nat)
    requires k <= |ch|
    ensures c in ch <==> c in ch[..k] || c in ch[k..]
  {
    assert ch == ch[..k] + ch[k..];
  }

  /** Freeing the suffix from index k leaves the prefix closed and all foreign entries alone. */
  lemma AfterZeroing(s: FatState, ch: seq<nat>, k: nat)
    requires s.Valid() && IsChain(s.f, ch) && k < |ch|
    ensures var f' := Zeroed(Marked(s, ch, k), ch[k..]);
      && (forall c | 0 <= c < |f'| && c !in ch :: f'[c] == s.f[c])
      && (forall c | 0 <= c < |f'| && c in ch && c !in ch[..k] :: f'[c] == 0)
      && (forall c | 0 <= c < |f'| && c in ch[k..] :: f'[c] == 0)
      && (k > 0 ==> IsChain(f', ch[..k]))
  {
    var f := Marked(s, ch, k);
    var f' := Zeroed(f, ch[k..]);
    assert k > 0 ==> ch[k - 1] in ch;
    MarkedParts(s, ch, k);
    PrefixApart(s.f, ch, k);
    hide IsChain;
    forall c | 0 <= c < |f'|
      ensures f'[c] == if c in ch[k..] then 0 else f[c]
      ensures c in ch <==> c in ch[..k] || c in ch[k..]
    {
      ZeroedAt(f, ch[k..], c);
      InParts(ch, k, c);
    }
    if k > 0 {
      ChainFrame(f, f', ch[..k]);
    }
  }

  // ---- The free-cluster count

  /** The count is right, or the value is out of range and means "unknown". */
  ghost predicate Counted(s: FatState)
    requires s.Valid()
  {
    s.free == FreeCount(s.f, |s.f|) || s.free > |s.f| - 2
  }

  /** No entry holds the illegal value 1. */
  ghost predicate NoOnes(f: seq<nat>) { forall c | 2 <= c < |f| :: f[c] != 1 }

  /** create_chain keeps the count on every FAT, and reports 0 exactly when it is to find a cluster,
      none is free, and the count says so or the search does not stop at an entry 1. */
  lemma CreateCounts(s: FatState, clst: nat)
    requires s.Valid() && Counted(s)
    ensures var (s', r) := Create(s, clst);
      && s'.Valid() && Counted(s') && (NoOnes(s.f) ==> NoOnes(s'.f)) && s'.f[..2] == s.f[..2]
      && (r == 0 <==>
            && (clst == 0 || (2 <= clst < |s.f| && s.f[clst] >= |s.f|))
            && NoneFree(s.f) && (s.free == 0 || NoOnes(s.f)))
  {
    var (s', r) := Create(s, clst);
    FreeCountExtremes(s.f, |s.f|);
    if s' != s {
      EocIsEnd(s);
      var f1 := s.f[r := Eoc(s.t)];
      FreeCountSet(s.f, r, Eoc(s.t), |s.f|);
      if clst != 0 {
        FreeCountSet(f1, clst, r, |s.f|);
      }
    }
  }

  lemma {:induction false} FreeCounts(t: FsType, f: seq<nat>, free: nat, last: nat, c: nat)
    requires FatState(t, f, free, last).Valid() && Counted(FatState(t, f, free, last)) && 2 <= c < |f|
    ensures var r := Free(f, free, c);
      && FatState(t, r.f, r.free, last).Valid() && Counted(FatState(t, r.f, r.free, last))
      && (NoOnes(f) ==> NoOnes(r.f)) && r.f[..2] == f[..2]
    decreases |f| - FreeCount(f, |f|)
  {
    if f[c] >= 2 {
      FreeCountSet(f, c, 0, |f|);
      FreeCountExtremes(f, |f|);
      var free' := if free < |f| - 2 then free + 1 else free;
      if f[c] < |f| {
        FreeCounts(t, f[c := 0], free', last, f[c]);
      }
    }
  }

  /** The numbers remove_chain accepts. */
  predicate InRange(f: seq<nat>, clst: nat, pclst: nat) {
    2 <= clst < |f| && (pclst == 0 || 2 <= pclst < |f|)
  }

  /** When remove_chain keeps the count, on every FAT: exactly unless the new end is a free entry,
      the count is known, and some entry in use is not on the way of the removal. */
  lemma RemoveCounts(s: FatState, clst: nat, pclst: nat)
    requires s.Valid() && Counted(s)
    ensures var (s', ok) := Remove(s, clst, pclst);
      && s'.Valid() && (NoOnes(s.f) ==> NoOnes(s'.f)) && s'.f[..2] == s.f[..2]
      && (Counted(s') <==>
            || !EndsAtFree(s.f, clst, pclst) || s.free > |s.f| - 2
            || Empties(s.f[pclst := Eoc(s.t)], clst))
  {
    hide Free, Empties, FatState.Valid;
    if InRange(s.f, clst, pclst) {
      if EndsAtFree(s.f, clst, pclst) && s.free <= |s.f| - 2 {
        RemoveDrifts(s, clst, pclst);
      } else {
        RemoveKeepsCount(s, clst, pclst);
      }
    }
  }

  lemma RemoveKeepsCount(s: FatState, clst: nat, pclst: nat)
    requires s.Valid() && Counted(s) && InRange(s.f, clst, pclst)
    requires !EndsAtFree(s.f, clst, pclst) || s.free > |s.f| - 2
    ensures var s' := Remove(s, clst, pclst).0;
      s'.Valid() && Counted(s') && (NoOnes(s.f) ==> NoOnes(s'.f)) && s'.f[..2] == s.f[..2]
  {
    hide Free;
    var f := if pclst != 0 then s.f[pclst := Eoc(s.t)] else s.f;
    if pclst != 0 {
      FreeCountSet(s.f, pclst, Eoc(s.t), |s.f|);
    }
    FreeCounts(s.t, f, s.free, s.last, clst);
  }

  lemma RemoveDrifts(s: FatState, clst: nat, pclst: nat)
    requires s.Valid() && Counted(s) && EndsAtFree(s.f, clst, pclst) && s.free <= |s.f| - 2
    ensures var s' := Remove(s, clst, pclst).0;
      && s'.Valid() && (NoOnes(s.f) ==> NoOnes(s'.f)) && s'.f[..2] == s.f[..2]
      && (Counted(s') <==> Empties(s.f[pclst := Eoc(s.t)], clst))
  {
    hide Free, Visits;
    var f := s.f[pclst := Eoc(s.t)];
    FreeCountSet(s.f, pclst, Eoc(s.t), |s.f|);
    FreeDrifts(s.t, f, s.free, s.last, clst);
    FreeVisits(f, s.free, clst);
    AllFree(Free(f, s.free, clst).f, |f|);
  }

  /** The new end is a free entry, which remove_chain takes into use without counting it. */
  predicate EndsAtFree(f: seq<nat>, clst: nat, pclst: nat) {
    InRange(f, clst, pclst) && pclst != 0 && f[pclst] == 0
  }

  /** The entries that the removal from c on visits, following the table as it is before it. */
  ghost function Visits(f: seq<nat>, c: nat): set<nat>
    requires 2 <= c < |f|
    decreases |f| - FreeCount(f, |f|)
  {
    if f[c] < 2 then {}
    else
      FreeCountSet(f, c, 0, |f|);
      {c} + if f[c] < |f| then Visits(f[c := 0], f[c]) else {}
  }

  /** Every entry in use is among them. */
  ghost predicate Empties(f: seq<nat>, c: nat)
    requires 2 <= c < |f|
  {
    forall d | 2 <= d < |f| && f[d] != 0 :: d in Visits(f, c)
  }

  lemma {:induction false} FreeVisits(f: seq<nat>, free: nat, c: nat)
    requires 2 <= c < |f|
    ensures forall d | 0 <= d < |f| :: Free(f, free, c).f[d] == if d in Visits(f, c) then 0 else f[d]
    decreases |f| - FreeCount(f, |f|)
  {
    if f[c] >= 2 {
      FreeCountSet(f, c, 0, |f|);
      if f[c] < |f| {
        FreeVisits(f[c := 0], if free < |f| - 2 then free + 1 else free, f[c]);
      }
    }
  }

  lemma {:induction false} AllFree(f: seq<nat>, hi: nat)
    requires 2 <= hi <= |f|
    ensures FreeCount(f, hi) == hi - 2 <==> forall c | 2 <= c < hi :: f[c] == 0
  {
    if hi > 2 {
      AllFree(f, hi - 1);
    }
  }

  /** One too many, as far as the count can go. */
  ghost function OneOver(f: seq<nat>): int
    requires |f| >= 2
  {
    var n := FreeCount(f, |f|);
    if n + 1 <= |f| - 2 then n + 1 else |f| - 2
  }

  lemma {:induction false} FreeDrifts(t: FsType, f: seq<nat>, free: nat, last: nat, c: nat)
    requires FatState(t, f, free, last).Valid() && free == OneOver(f) && 2 <= c < |f|
    ensures var r := Free(f, free, c);
      && FatState(t, r.f, r.free, last).Valid() && r.free == OneOver(r.f)
      && (NoOnes(f) ==> NoOnes(r.f)) && r.f[..2] == f[..2]
    decreases |f| - FreeCount(f, |f|)
  {
    if f[c] >= 2 {
      FreeCountSet(f, c, 0, |f|);
      var free' := if free < |f| - 2 then free + 1 else free;
      if f[c] < |f| {
        FreeDrifts(t, f[c := 0], free', last, f[c]);
      }
    }
  }

  /** What the FAT scan of f_getfree counts: on FAT12 free clusters up to the first illegal
      entry, on FAT16/32 every zero entry, the two reserved ones included. */
  ghost function Scanned(s: FatState): nat
    requires 3 <= |s.f|
  {
    if s.t == Fat12 then FreeCount(s.f, FirstOne(s.f, 2))
    else FreeCount(s.f, |s.f|) + (if s.f[0] == 0 then 1 else 0) + (if s.f[1] == 0 then 1 else 0)
  }

  ghost function FirstOne(f: seq<nat>, lo: nat): (c: nat)
    requires lo <= |f|
    ensures lo <= c <= |f| && (forall d | lo <= d < c :: f[d] != 1) && (c < |f| ==> f[c] == 1)
    decreases |f| - lo
  {
    if lo == |f| || f[lo] == 1 then lo else FirstOne(f, lo + 1)
  }

  /** f_getfree. */
  ghost function GetFree(s: FatState): FatState
    requires 3 <= |s.f|
  {
    if s.free <= |s.f| - 2 then s else s.(free := Scanned(s))
  }

  /** The scan of FAT16/32 is right if and only if neither reserved entry is zero;
      the scan of FAT12 is right whenever no entry is illegal. */
  lemma ScanExact(s: FatState)
    requires s.Valid()
    ensures s.t != Fat12 ==> (Scanned(s) == FreeCount(s.f, |s.f|) <==> s.f[0] != 0 && s.f[1] != 0)
    ensures s.t == Fat12 && NoOnes(s.f) ==> Scanned(s) == FreeCount(s.f, |s.f|)
    ensures s.t == Fat12 && !NoOnes(s.f) ==>
      (Scanned(s) == FreeCount(s.f, |s.f|) <==> forall c | FirstOne(s.f, 2) <= c < |s.f| :: s.f[c] != 0)
  {
    if s.t == Fat12 {
      CountBetween(s.f, FirstOne(s.f, 2), |s.f|);
    }
  }

  lemma {:induction false} CountBetween(f: seq<nat>, lo: nat, hi: nat)
    requires 2 <= lo <= hi <= |f|
    ensures FreeCount(f, lo) <= FreeCount(f, hi)
    ensures FreeCount(f, lo) == FreeCount(f, hi) <==> forall c | lo <= c < hi :: f[c] != 0
    decreases hi - lo
  {
    if lo < hi {
      CountBetween(f, lo, hi - 1);
    }
  }

  // ---- Whole runs

  datatype AllocOp = OpCreate(clst: nat) | OpRemove(clst: nat, pclst: nat) | OpGetFree

  ghost function Step(s: FatState, op: AllocOp): FatState
    requires 3 <= |s.f|
  {
    match op
    case OpCreate(clst) => Create(s, clst).0
    case OpRemove(clst, pclst) => Remove(s, clst, pclst).0
    case OpGetFree => GetFree(s)
  }

  /** One step of the abstract allocator, which knows only the set of chains: a successful
      allocation of r lengthens the chain that ends in clst or adds a new chain, a removal
      names a cluster of some chain and its predecessor and cuts that chain there. */
  ghost predicate Allocates(chains: set<seq<nat>>, clst: nat, r: nat, chains': set<seq<nat>>) {
    if clst == 0 then chains' == chains + {[r]}
    else exists ch | ch in chains && ch != [] :: ch[|ch| - 1] == clst && chains' == chains - {ch} + {ch + [r]}
  }

  ghost predicate Names(ch: seq<nat>, k: nat, clst: nat, pclst: nat) {
    k < |ch| && clst == ch[k] && pclst == if k == 0 then 0 else ch[k - 1]
  }

  ghost predicate Releases(chains: set<seq<nat>>, clst: nat, pclst: nat, chains': set<seq<nat>>) {
    exists ch, k: nat :: ch in chains && Names(ch, k, clst, pclst) && chains' == Shortened(chains, ch, k)
  }

  ghost predicate ChainStep(s: FatState, chains: set<seq<nat>>, op: AllocOp, chains': set<seq<nat>>)
    requires 3 <= |s.f|
  {
    match op
    case OpCreate(clst) =>
      if Create(s, clst).0 == s then chains' == chains else Allocates(chains, clst, Create(s, clst).1, chains')
    case OpRemove(clst, pclst) =>
      if InRange(s.f, clst, pclst) then Releases(chains, clst, pclst, chains') else chains' == chains
    case OpGetFree => chains' == chains
  }

  /** Volumes as they are made: reserved entries in use, nothing illegal, count right or unknown. */
  ghost predicate Sound(s: FatState) {
    s.Valid() && Counted(s) && NoOnes(s.f) && s.f[0] != 0 && s.f[1] != 0
  }

  lemma SameReserved(f: seq<nat>, f': seq<nat>)
    requires |f| >= 3 && |f'| >= 3 && f'[..2] == f[..2]
    ensures f'[0] == f[0] && f'[1] == f[1]
  {
    assert f'[0] == f'[..2][0] && f'[1] == f'[..2][1];
  }

  /** The chain a create step lengthens is the one that ends in clst, and there is only one. */
  lemma CreateRefines(s: FatState, chains: set<seq<nat>>, clst: nat, chains': set<seq<nat>>)
    requires Sound(s) && Partition(s.f, chains) && ChainStep(s, chains, OpCreate(clst), chains')
    ensures var s' := Create(s, clst).0; Sound(s') && Partition(s'.f, chains')
  {
    var (s', r) := Create(s, clst);
    CreateCounts(s, clst);
    SameReserved(s.f, s'.f);
    CreateExtends(s, chains, clst);
    if s' != s && clst != 0 {
      var ch :| ch in chains && ch != [] && ch[|ch| - 1] == clst && chains' == chains - {ch} + {ch + [r]};
      assert clst in ch;
      var o := Owner(s.f, chains, clst);
      assert o != ch ==> Apart(o, ch);
    }
  }

  lemma RemoveRefines(s: FatState, chains: set<seq<nat>>, clst: nat, pclst: nat, chains': set<seq<nat>>)
    requires Sound(s) && Partition(s.f, chains) && ChainStep(s, chains, OpRemove(clst, pclst), chains')
    ensures var s' := Remove(s, clst, pclst).0; Sound(s') && Partition(s'.f, chains')
  {
    if !InRange(s.f, clst, pclst) {
      return;
    }
    var ch, k: nat :| ch in chains && Names(ch, k, clst, pclst) && chains' == Shortened(chains, ch, k);
    if k > 0 {
      assert s.f[ch[k - 1]] == ch[k];
    }
    RemoveCounts(s, clst, pclst);
    SameReserved(s.f, Remove(s, clst, pclst).0.f);
    RemoveShortens(s, chains, ch, k);
  }

  lemma StepSound(s: FatState, chains: set<seq<nat>>, op: AllocOp, chains': set<seq<nat>>)
    requires Sound(s) && Partition(s.f, chains) && ChainStep(s, chains, op, chains')
    ensures Sound(Step(s, op)) && Partition(Step(s, op).f, chains')
  {
    match op
    case OpCreate(clst) => CreateRefines(s, chains, clst, chains');
    case OpRemove(clst, pclst) => RemoveRefines(s, chains, clst, pclst, chains');
    case OpGetFree =>
      ScanExact(s);
      FreeCountExtremes(s.f, |s.f|);
  }

  /** A run of the allocator beside a run of the abstract one. */
  ghost predicate Trace(ss: seq<FatState>, cs: seq<set<seq<nat>>>, ops: seq<AllocOp>) {
    && |ss| == |cs| == |ops| + 1
    && forall i | 0 <= i < |ops| ::
         |ss[i].f| >= 3 && ss[i + 1] == Step(ss[i], ops[i]) && ChainStep(ss[i], cs[i], ops[i], cs[i + 1])
  }

  /** Every state of every run is a union of disjoint, acyclic, closed chains and free
      entries, with a free count that is right whenever it claims to be. */
  lemma {:induction false} RunSound(ss: seq<FatState>, cs: seq<set<seq<nat>>>, ops: seq<AllocOp>, i: nat)
    requires Trace(ss, cs, ops) && i < |ss|
    requires Sound(ss[0]) && Partition(ss[0].f, cs[0])
    ensures Sound(ss[i]) && Partition(ss[i].f, cs[i])
  {
    if i > 0 {
      RunSound(ss, cs, ops, i - 1);
      assert ss[i - 1 + 1] == Step(ss[i - 1], ops[i - 1]);
      StepSound(ss[i - 1], cs[i - 1], ops[i - 1], cs[i]);
    }
  }

  // ---- Which cluster create_chain takes

  /** Going up from start and round, d comes before r. */
  predicate OnTheWay(start: nat, d: nat, r: nat) {
    if start < r then start < d < r else d > start || d < r
  }

  lemma SearchFirst(f: seq<nat>, scl: nat)
    requires 1 <= scl < |f| && |f| >= 3
    ensures var r := Search(f, scl); r != 0 ==> forall d | 2 <= d < |f| && OnTheWay(scl, d, r) :: f[d] >= 2
  {
  }

  /** A chain is stretched by the cluster behind its end, if that is free. Otherwise, and for a new
      chain, the new cluster is the first free one behind the hint, going round; it becomes the
      hint. */
  lemma CreateNextFit(s: FatState, clst: nat)
    requires s.Valid()
    ensures var (s', r) := Create(s, clst);
      s' != s ==>
        var n := |s.f|;
        var behind := if clst + 1 < n then clst + 1 else 2;
        && s'.last == r
        && (clst != 0 && s.f[behind] == 0 ==> r == behind)
        && (clst == 0 || s.f[behind] != 0 ==>
              var start := if clst == 0 then (if 0 < s.last < n then s.last else 1)
                           else if 2 <= s.last < n then s.last else clst;
              forall d | 2 <= d < n && OnTheWay(start, d, r) :: s.f[d] != 0)
  {
    hide Search, Linked;
    if 0 < s.last < |s.f| {
      SearchFirst(s.f, s.last);
    }
    SearchFirst(s.f, 1);
    if 2 <= clst < |s.f| {
      SearchFirst(s.f, clst);
    }
  }

  // ---- Every run of the allocator has a run of the abstract one beside it

  /** What a caller of remove_chain owes, on the table itself: clst is in use, and pclst links to
      it or, if there is none, nothing does. Numbers out of range are refused by the code. */
  ghost predicate Legal(f: seq<nat>, op: AllocOp) {
    op.OpRemove? && InRange(f, op.clst, op.pclst) ==>
      && f[op.clst] != 0
      && (op.pclst != 0 ==> f[op.pclst] == op.clst)
      && (op.pclst == 0 ==> forall c | 2 <= c < |f| :: f[c] != op.clst)
  }

  /** A link inside a partition joins two neighbours of one chain. */
  lemma LinkInChain(f: seq<nat>, chains: set<seq<nat>>, p: nat, c: nat) returns (ch: seq<nat>, k: nat)
    requires Partition(f, chains) && 2 <= p < |f| && 2 <= c < |f| && f[p] == c
    ensures ch in chains && 0 < k < |ch| && ch[k - 1] == p && ch[k] == c
  {
    hide Partition, IsChain;
    ch := Owner(f, chains, p);
    ChainOf(f, chains, ch);
    var j :| 0 <= j < |ch| && ch[j] == p;
    ChainLink(f, ch, j);
    k := j + 1;
  }

  lemma ChainLink(f: seq<nat>, ch: seq<nat>, j: nat)
    requires IsChain(f, ch) && j < |ch|
    ensures 2 <= ch[j] < |f| && (f[ch[j]] < |f| ==> j + 1 < |ch| && ch[j + 1] == f[ch[j]])
    ensures j > 0 ==> 2 <= ch[j - 1] < |f| && f[ch[j - 1]] == ch[j]
  {
    if j > 0 {
      assert f[ch[j - 1]] == ch[j - 1 + 1];
    }
  }

  lemma LegalNames(f: seq<nat>, chains: set<seq<nat>>, clst: nat, pclst: nat) returns (ch: seq<nat>, k: nat)
    requires Partition(f, chains) && InRange(f, clst, pclst) && Legal(f, OpRemove(clst, pclst))
    ensures ch in chains && Names(ch, k, clst, pclst)
  {
    hide Partition, IsChain;
    if pclst != 0 {
      ch, k := LinkInChain(f, chains, pclst, clst);
    } else {
      ch := Owner(f, chains, clst);
      ChainOf(f, chains, ch);
      var j :| 0 <= j < |ch| && ch[j] == clst;
      ChainLink(f, ch, j);
      k := j;
    }
  }

  lemma NextChains(s: FatState, chains: set<seq<nat>>, op: AllocOp) returns (chains': set<seq<nat>>)
    requires Sound(s) && Partition(s.f, chains) && Legal(s.f, op)
    ensures ChainStep(s, chains, op, chains')
  {
    hide Partition, Free, Choose;
    chains' := chains;
    match op
    case OpCreate(clst) =>
      var (s', r) := Create(s, clst);
      if s' != s {
        CreateExtends(s, chains, clst);
        chains' := Extended(s.f, chains, clst, r);
        if clst != 0 {
          var ch := Owner(s.f, chains, clst);
          ChainOf(s.f, chains, ch);
          OwnerEnds(s.f, ch, clst);
        }
      }
    case OpRemove(clst, pclst) =>
      if InRange(s.f, clst, pclst) {
        var ch, k := LegalNames(s.f, chains, clst, pclst);
        chains' := Shortened(chains, ch, k);
      }
    case OpGetFree =>
  }

  lemma ChainOf(f: seq<nat>, chains: set<seq<nat>>, ch: seq<nat>)
    requires Partition(f, chains) && ch in chains
    ensures IsChain(f, ch)
  {
  }

  /** A run of create_chain, remove_chain and f_getfree on the table. */
  ghost predicate Run(ss: seq<FatState>, ops: seq<AllocOp>) {
    && |ss| == |ops| + 1
    && forall i | 0 <= i < |ops| ::
         |ss[i].f| >= 3 && ss[i + 1] == Step(ss[i], ops[i]) && Legal(ss[i].f, ops[i])
  }

  /** Every such run has a run of the set of chains beside it. */
  lemma {:induction false} TraceExists(ss: seq<FatState>, ops: seq<AllocOp>, chains: set<seq<nat>>)
    returns (cs: seq<set<seq<nat>>>)
    requires Run(ss, ops) && Sound(ss[0]) && Partition(ss[0].f, chains)
    ensures Trace(ss, cs, ops) && cs[0] == chains
    decreases |ops|
  {
    hide Sound, Partition, ChainStep, Step, Legal;
    if ops == [] {
      cs := [chains];
    } else {
      var n := |ops| - 1;
      var ss1, ops1 := ss[..n + 1], ops[..n];
      assert Run(ss1, ops1);
      var cs1 := TraceExists(ss1, ops1, chains);
      RunSound(ss1, cs1, ops1, n);
      assert ss[n + 1] == Step(ss[n], ops[n]) && Legal(ss[n].f, ops[n]);
      var next := NextChains(ss[n], cs1[n], ops[n]);
      cs := cs1 + [next];
      assert Trace(ss, cs, ops) by {
        forall i | 0 <= i < |ops|
          ensures |ss[i].f| >= 3 && ss[i + 1] == Step(ss[i], ops[i]) && ChainStep(ss[i], cs[i], ops[i], cs[i + 1])
        {
          if i < n {
            assert ss1[i] == ss[i] && ss1[i + 1] == ss[i + 1] && ops1[i] == ops[i];
            assert cs[i] == cs1[i] && cs[i + 1] == cs1[i + 1];
          }
        }
      }
    }
  }

  /** Every state of every run from a sound table that is a union of chains is again a union of
      disjoint, acyclic, end-marked chains and free entries, with a right count. */
  lemma EveryRunSound(ss: seq<FatState>, ops: seq<AllocOp>, i: nat)
    requires Run(ss, ops) && i < |ss| && Sound(ss[0]) && exists chains :: Partition(ss[0].f, chains)
    ensures Sound(ss[i]) && exists chains :: Partition(ss[i].f, chains)
  {
    hide Run, Trace, Sound, Partition;
    var chains :| Partition(ss[0].f, chains);
    var cs := TraceExists(ss, ops, chains);
    TraceLengths(ss, cs, ops);
    RunSound(ss, cs, ops, i);
  }

  lemma TraceLengths(ss: seq<FatState>, cs: seq<set<seq<nat>>>, ops: seq<AllocOp>)
    requires Trace(ss, cs, ops)
    ensures |ss| == |cs| == |ops| + 1
  {
  }

  /** A formatted volume, with both hints unknown, is where runs start. */
  lemma FormattedSound(s: FatState)
    requires s.Valid() && s.f[0] != 0 && s.f[1] != 0 && (forall c | 2 <= c < |s.f| :: s.f[c] == 0)
    requires s.free == ALL_ONES
    ensures Sound(s) && Partition(s.f, {})
  {
    assert forall c | 2 <= c < |s.f| :: !Covered({}, c);
  }

  /** A FAT16 table with zero reserved entries, and a FAT12 table with an entry 1 before a free
      one, on which f_getfree is wrong. */
  lemma ScanMiscounts()
    ensures var s := FatState(Fat16, seq(0x1000, i => 0), ALL_ONES, ALL_ONES);
      s.Valid() && Scanned(s) == FreeCount(s.f, 0x1000) + 2
    ensures var s := FatState(Fat12, [0xFF8, 0xFFF, 1, 0], ALL_ONES, ALL_ONES);
      s.Valid() && Scanned(s) + 1 == FreeCount(s.f, 4)
  {
    var f := [0xFF8, 0xFFF, 1, 0];
    assert FirstOne(f, 2) == 2;
    assert FreeCount(f, 3) == 0;
  }

  // ---- What the calls return

  /** create_chain on a cluster that is not the end of a chain changes nothing and returns the next
      cluster, or 1 for a number out of range and for an entry that no chain has. */
  lemma CreateReturns(s: FatState, clst: nat)
    requires s.Valid() && clst != 0
    ensures 2 <= clst < |s.f| && 2 <= s.f[clst] < |s.f| ==> Create(s, clst) == (s, s.f[clst])
    ensures !(2 <= clst < |s.f|) || s.f[clst] < 2 ==> Create(s, clst) == (s, 1)
  {
  }

  /** remove_chain refuses numbers out of range and changes nothing then. */
  lemma RemoveReturns(s: FatState, clst: nat, pclst: nat)
    requires s.Valid() && (!(2 <= clst < |s.f|) || (pclst != 0 && !(2 <= pclst < |s.f|)))
    ensures Remove(s, clst, pclst) == (s, false)
  {
  }

  /** f_getfree returns, and records, the number of free clusters of a sound table. */
  lemma GetFreeReturns(s: FatState)
    requires Sound(s)
    ensures GetFree(s) == s.(free := FreeCount(s.f, |s.f|))
  {
    ScanExact(s);
  }

  /** The end marks. */
  lemma EocIs()
    ensures Eoc(Fat12) == 0xFFF && Eoc(Fat16) == 0xFFFF && Eoc(Fat32) == 0x0FFFFFFF
  {
  }
}
