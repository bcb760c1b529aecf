/** Where the bytes of a file lie: the sectors of its cluster chain as one flat list. */
module Layout {
  import opened Arithmetic
  import opened Bytes
  import opened VolumeWindow

  // ---- Division by the cluster size, by repeated subtraction

  ghost function Quo(a: nat, b: nat): nat
    requires b > 0
  {
    if a < b then 0 else Quo(a - b, b) + 1
  }

  ghost function Rem(a: nat, b: nat): (r: nat)
    requires b > 0
    ensures r < b && r <= a
  {
    if a < b then a else Rem(a - b, b)
  }

  lemma {:induction false} QuoRemAre(a: nat, b: nat)
    requires b > 0
    ensures Quo(a, b) == a / b && Rem(a, b) == a % b
    decreases a
  {
    if a >= b {
      QuoRemAre(a - b, b);
      DivStep(a, b);
    }
  }

  lemma DivStep(a: nat, b: nat)
    requires 0 < b <= a
    ensures a / b == (a - b) / b + 1 && a % b == (a - b) % b
  {
    var q, r := (a - b) / b, (a - b) % b;
    assert a == (q + 1) * b + r;
    DivUnique(a, b, q + 1, r);
  }

  lemma {:induction false} QuoNext(a: nat, b: nat)
    requires b > 0
    ensures Rem(a, b) + 1 < b ==> Quo(a + 1, b) == Quo(a, b) && Rem(a + 1, b) == Rem(a, b) + 1
    ensures Rem(a, b) + 1 == b ==> Quo(a + 1, b) == Quo(a, b) + 1 && Rem(a + 1, b) == 0
    decreases a
  {
    if a >= b {
      QuoNext(a - b, b);
    }
  }

  /** Moving within one cluster. */
  lemma {:induction false} QuoWithin(a: nat, b: nat, d: nat)
    requires b > 0 && Rem(a, b) + d < b
    ensures Quo(a + d, b) == Quo(a, b) && Rem(a + d, b) == Rem(a, b) + d
    decreases a
  {
    if a >= b {
      QuoWithin(a - b, b, d);
    }
  }

  lemma {:induction false} QuoRemEqual(a: nat, c: nat, b: nat)
    requires b > 0 && Quo(a, b) == Quo(c, b) && Rem(a, b) == Rem(c, b)
    ensures a == c
    decreases a
  {
    if a >= b {
      QuoRemEqual(a - b, c - b, b);
    }
  }

  // ---- Sectors

  /** n consecutive numbers. */
  ghost function Consecutive(base: nat, n: nat): (s: seq<nat>)
    ensures |s| == n && forall i | 0 <= i < n :: s[i] == base + i
  {
    if n == 0 then [] else Consecutive(base, n - 1) + [base + n - 1]
  }

  /** The sectors of cluster c. */
  ghost function ClusterSectors(g: Geometry, c: nat): seq<nat> {
    Consecutive(g.ClusterBase(c), g.csize)
  }

  ghost function Sectors(g: Geometry, chain: seq<nat>): seq<nat> {
    if chain == [] then [] else ClusterSectors(g, chain[0]) + Sectors(g, chain[1..])
  }

  lemma {:induction false} SectorsAppend(g: Geometry, chain: seq<nat>, c: nat)
    ensures Sectors(g, chain + [c]) == Sectors(g, chain) + ClusterSectors(g, c)
  {
    if chain == [] {
      assert chain + [c] == [c] && [c][1..] == [];
      assert Sectors(g, []) == [];
    } else {
      SectorsAppend(g, chain[1..], c);
      assert (chain + [c])[1..] == chain[1..] + [c];
    }
  }

  /** Sector number q of the file, from its cluster and its offset in the cluster. */
  lemma {:induction false} SectorAt(g: Geometry, chain: seq<nat>, q: nat)
    requires g.csize > 0 && q < |Sectors(g, chain)|
    ensures Quo(q, g.csize) < |chain|
    ensures Sectors(g, chain)[q] == g.ClusterBase(chain[Quo(q, g.csize)]) + Rem(q, g.csize)
    decreases |chain|
  {
    if q >= g.csize {
      SectorAt(g, chain[1..], q - g.csize);
    }
  }

  /** The list ends on a cluster boundary, right behind the last cluster. */
  lemma {:induction false} SectorsEnd(g: Geometry, chain: seq<nat>)
    requires g.csize > 0
    ensures Quo(|Sectors(g, chain)|, g.csize) == |chain| && Rem(|Sectors(g, chain)|, g.csize) == 0
    decreases |chain|
  {
    if chain != [] {
      SectorsEnd(g, chain[1..]);
    }
  }

  /** A position up to the end whose cluster exists has its whole cluster in the list. */
  lemma {:induction false} WholeCluster(g: Geometry, chain: seq<nat>, q: nat)
    requires g.csize > 0 && Quo(q, g.csize) < |chain|
    ensures q - Rem(q, g.csize) + g.csize <= |Sectors(g, chain)|
    decreases |chain|
  {
    if q >= g.csize {
      WholeCluster(g, chain[1..], q - g.csize);
    }
  }

  lemma {:induction false} BaseGap(g: Geometry, c: nat, d: nat)
    requires 2 <= c < d
    ensures g.ClusterBase(c) + g.csize <= g.ClusterBase(d)
    decreases d
  {
    if c < d - 1 {
      BaseGap(g, c, d - 1);
    }
  }

  lemma {:induction false} BaseIs(g: Geometry, c: nat)
    requires c >= 2
    ensures g.ClusterBase(c) == g.database + g.csize * (c - 2)
    decreases c
  {
    if c > 2 {
      BaseIs(g, c - 1);
      assert g.csize * (c - 3) + g.csize == g.csize * (c - 2);
    }
  }

  ghost predicate Clusters(g: Geometry, chain: seq<nat>) {
    && (forall i | 0 <= i < |chain| :: 2 <= chain[i] < g.nFatent)
    && (forall i, j | 0 <= i < j < |chain| :: chain[i] != chain[j])
  }

  /** No sector belongs to two places of the file, and all lie in the data area. */
  lemma SectorsDistinct(g: Geometry, chain: seq<nat>, q: nat, r: nat)
    requires g.Valid() && Clusters(g, chain) && q < r < |Sectors(g, chain)|
    ensures Sectors(g, chain)[q] != Sectors(g, chain)[r]
  {
    SectorAt(g, chain, q);
    SectorAt(g, chain, r);
    var c, d := chain[Quo(q, g.csize)], chain[Quo(r, g.csize)];
    if c < d {
      BaseGap(g, c, d);
    } else if d < c {
      BaseGap(g, d, c);
    } else if Rem(q, g.csize) == Rem(r, g.csize) {
      QuoRemEqual(q, r, g.csize);
    }
  }

  lemma SectorsInData(g: Geometry, chain: seq<nat>, q: nat)
    requires g.Valid() && Clusters(g, chain) && q < |Sectors(g, chain)|
    ensures g.database <= Sectors(g, chain)[q] < g.nSectors
  {
    SectorAt(g, chain, q);
    BaseGap(g, chain[Quo(q, g.csize)], g.nFatent);
  }

  /** A sector list usable as file storage. */
  ghost predicate Storage(g: Geometry, s: seq<nat>) {
    && (forall q, r | 0 <= q < r < |s| :: s[q] != s[r])
    && (forall q | 0 <= q < |s| :: g.database <= s[q] < g.nSectors)
  }

  lemma SectorsAreStorage(g: Geometry, chain: seq<nat>)
    requires g.Valid() && Clusters(g, chain)
    ensures Storage(g, Sectors(g, chain))
  {
    hide Sectors, Clusters;
    var s := Sectors(g, chain);
    forall q, r | 0 <= q < r < |s| ensures s[q] != s[r] {
      SectorsDistinct(g, chain, q, r);
    }
    forall q | 0 <= q < |s| ensures g.database <= s[q] < g.nSectors {
      SectorsInData(g, chain, q);
    }
  }

  /** clst2sect: the first sector of a valid cluster, 0 for any other number. */
  method ClustToSect(g: Geometry, clst: nat) returns (s: nat)
    requires g.Valid() && clst < DWORD
    ensures s == (if 2 <= clst < g.nFatent then g.ClusterBase(clst) else 0)
    ensures s == 0 <==> !(2 <= clst < g.nFatent)
  {
    var k := Sub32(clst, 2);
    if k >= g.nFatent - 2 {
      return 0;
    }
    BaseIs(g, clst);
    s := g.database + g.csize * k;
  }

  // ---- Positions in bytes

  /** One cluster further. */
  lemma NextBoundary(q: nat, b: nat)
    requires b > 0 && Rem(q, b) == 0
    ensures Quo(q + b, b) == Quo(q, b) + 1 && Rem(q + b, b) == 0
  {
  }

  /** The start of the cluster that contains sector q. */
  lemma {:induction false} ClusterStart(q: nat, b: nat)
    requires b > 0
    ensures Rem(q - Rem(q, b), b) == 0 && Quo(q - Rem(q, b), b) == Quo(q, b)
    decreases q
  {
    if q >= b {
      ClusterStart(q - b, b);
    }
  }

  /** The byte offset within a cluster, from the sector and the offset in the sector. */
  lemma OffsetInCluster(x: nat, b: nat)
    requires b > 0
    ensures x % (b * SS) == SS * Rem(x / SS, b) + x % SS && x / (b * SS) == Quo(x / SS, b)
  {
    var q := x / SS;
    QuoRemAre(q, b);
    var k, m := q / b, q % b;
    assert q == k * b + m;
    assert SS * (k * b) == k * (b * SS);
    assert x == k * (b * SS) + (SS * m + x % SS);
    assert SS * m + x % SS < b * SS;
    DivUnique(x, b * SS, k, SS * m + x % SS);
  }

  lemma SameOrFollowing(a: nat, c: nat, b: nat)
    requires b > 0 && a / b >= c / b
    ensures a >= c - c % b
  {
    MulGap(c / b, a / b, b);
    assert c == c / b * b + c % b && a == a / b * b + a % b;
  }
}
