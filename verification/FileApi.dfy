/** The byte-stream API on FAT12/16/32: f_write, f_read and f_lseek of one open file act
    on a byte string with a cursor. */
module FileApi {
  import opened Bytes
  import opened VolumeWindow
  import opened FatTable
  import opened Chains
  import opened Allocator
  import opened Layout
  import opened FileStore

  /** The file's chain, as far as the FAT is concerned. */
  ghost predicate ChainOk(s: FatState, sclust: nat, chain: seq<nat>) {
    Sound(s) && if chain == [] then sclust == 0 else sclust == chain[0] >= 2 && IsChain(s.f, chain)
  }

  /** The cluster in hand is the one that holds byte fptr - 1, and inside a sector that
      sector is the cached one. */
  ghost predicate Placed(g: Geometry, chain: seq<nat>, fptr: nat, clust: nat, sect: nat)
    requires g.csize > 0
  {
    && (fptr > 0 ==>
          Quo((fptr - 1) / SS, g.csize) < |chain| && clust == chain[Quo((fptr - 1) / SS, g.csize)])
    && (fptr % SS != 0 ==> fptr / SS < |Sectors(g, chain)| && sect == Sectors(g, chain)[fptr / SS])
  }

  /** What create_chain does for an open file: it follows the chain, or lengthens it at its
      end by a formerly free cluster, or finds the volume full. */
  lemma FollowOrStretch(s: FatState, chain: seq<nat>, k: nat)
    requires Sound(s) && (chain == [] || IsChain(s.f, chain)) && k <= |chain| && (k == 0 ==> chain == [])
    ensures var (s', r) := Create(s, if k == 0 then 0 else chain[k - 1]);
      if k < |chain| then s' == s && r == chain[k] >= 2
      else if r == 0 then s' == s && NoneFree(s.f)
      else
        && Sound(s') && s'.f != s.f && 2 <= r < |s.f| && IsChain(s'.f, chain + [r])
        && |s'.f| == |s.f|
        && (forall c | 0 <= c < |s.f| && c !in chain + [r] :: s'.f[c] == s.f[c])
    ensures chain != [] ==> chain[0] >= 2
  {
    var clst := if k == 0 then 0 else chain[k - 1];
    var (s', r) := Create(s, clst);
    CreateCounts(s, clst);
    SameReserved(s.f, s'.f);
    if 0 < k < |chain| {
      assert s.f[chain[k - 1]] == chain[k];
    } else if r != 0 {
      EocIsEnd(s);
      if chain == [] {
        assert chain + [r] == [r];
        OneCluster(s'.f, r);
      } else {
        assert chain[k - 1] in chain;
        AppendChain(s, chain, r);
      }
    }
  }

  lemma ChainClusters(g: Geometry, f: seq<nat>, chain: seq<nat>)
    requires |f| == g.nFatent && (chain == [] || IsChain(f, chain))
    ensures Clusters(g, chain)
  {
    if chain != [] {
      ChainDistinct(f, chain);
    }
  }

  /** Where a cluster boundary lies: at an existing cluster, or right behind the last one. */
  lemma Boundary(g: Geometry, chain: seq<nat>, q: nat)
    requires g.csize > 0 && q <= |Sectors(g, chain)| && Rem(q, g.csize) == 0
    ensures Quo(q, g.csize) <= |chain| && (Quo(q, g.csize) < |chain| <==> q < |Sectors(g, chain)|)
    ensures q > 0 ==> 0 < Quo(q, g.csize) && Quo(q - 1, g.csize) == Quo(q, g.csize) - 1
  {
    SectorsEnd(g, chain);
    if q < |Sectors(g, chain)| {
      SectorAt(g, chain, q);
    }
    if q > 0 {
      QuoNext(q - 1, g.csize);
    }
  }

  /** Only this file's clusters and sectors have changed. */
  ghost predicate Confined(g: Geometry, v: seq<Sector>, v': seq<Sector>, chain: seq<nat>) {
    && g.Valid() && |v| == |v'| == g.nSectors
    && (forall c | 0 <= c < g.nFatent && c !in chain :: Fat(g, v')[c] == Fat(g, v)[c])
    && (forall x | 0 <= x < g.nSectors && !g.InFat1(x) && !g.InFat2(x) && x !in Sectors(g, chain) :: v'[x] == v[x])
  }

  lemma SameConfined(g: Geometry, v: seq<Sector>, chain: seq<nat>)
    requires g.Valid() && |v| == g.nSectors
    ensures Confined(g, v, v, chain)
  {
  }

  lemma QuoZero(b: nat)
    requires b > 0
    ensures Quo(0, b) == 0
  {
  }

  lemma ConfinedThen(g: Geometry, u: seq<Sector>, v: seq<Sector>, w: seq<Sector>, chain: seq<nat>, chain': seq<nat>)
    requires Confined(g, u, v, chain) && Confined(g, v, w, chain')
    requires chain <= chain' && Sectors(g, chain) <= Sectors(g, chain')
    ensures Confined(g, u, w, chain')
  {
    hide Fat, Sectors;
  }

  /** The allocator leaves all data alone. */
  lemma AllocConfined(g: Geometry, v: seq<Sector>, v': seq<Sector>, chain: seq<nat>)
    requires g.Valid() && |v| == |v'| == g.nSectors && SameOutsideFat(g, v, v')
    requires forall c | 0 <= c < g.nFatent && c !in chain :: Fat(g, v')[c] == Fat(g, v)[c]
    ensures Confined(g, v, v', chain)
    ensures forall x | g.database <= x < g.nSectors :: v'[x] == v[x]
  {
    hide Fat;
  }

  /** disk_write of several consecutive sectors. */
  method WriteRun(vol: Volume, x: nat, d: seq<byte>, cc: nat)
    requires vol.Valid() && |d| == SS * cc && vol.g.database <= x && x + cc <= vol.g.nSectors
    requires !(x <= vol.winsect < x + cc)
    modifies vol`disk
    ensures vol.Valid() && WroteRun(old(vol.View()), vol.View(), x, d, cc)
  {
    hide Volume.Valid, Volume.View;
    var i := 0;
    while i < cc
      invariant 0 <= i <= cc && vol.Valid()
      invariant forall y | x <= y < x + i :: vol.View()[y] == Chunk(d, y - x)
      invariant forall y | 0 <= y < vol.g.nSectors && !(x <= y < x + i) :: vol.View()[y] == old(vol.View())[y]
    {
      vol.WriteSector(x + i, d[SS * i..SS * i + SS]);
      i := i + 1;
    }
  }

  /** Consecutive sectors of one cluster. */
  lemma RunInCluster(g: Geometry, chain: seq<nat>, q: nat, cc: nat)
    requires g.csize > 0 && q < |Sectors(g, chain)| && Rem(q, g.csize) + cc <= g.csize
    ensures q + cc <= |Sectors(g, chain)|
    ensures forall r | q <= r < q + cc :: Sectors(g, chain)[r] == Sectors(g, chain)[q] + (r - q)
    ensures forall r | q <= r < q + cc :: Quo(r, g.csize) == Quo(q, g.csize)
  {
    hide Sectors, Quo, Rem;
    SectorAt(g, chain, q);
    WholeCluster(g, chain, q);
    forall r | q <= r < q + cc
      ensures Sectors(g, chain)[r] == Sectors(g, chain)[q] + (r - q) && Quo(r, g.csize) == Quo(q, g.csize)
    {
      QuoWithin(q, g.csize, r - q);
      SectorAt(g, chain, r);
    }
  }

  /** Writing sectors of the file leaves the FAT and all other data alone. */
  lemma DataOnly(g: Geometry, v: seq<Sector>, w: seq<Sector>, chain: seq<nat>, q: nat, x: nat, d: seq<byte>, cc: nat)
    requires g.Valid() && |v| == g.nSectors && WroteRun(v, w, x, d, cc) && g.database <= x
    requires q + cc <= |Sectors(g, chain)|
    requires forall r | q <= r < q + cc :: Sectors(g, chain)[r] == x + (r - q)
    ensures Fat(g, w) == Fat(g, v) && Confined(g, v, w, chain)
  {
    hide Sectors;
    SameFat(g, v, w);
    forall y | 0 <= y < g.nSectors && y !in Sectors(g, chain) ensures w[y] == v[y] {
      OneOf(y, x, cc, q, Sectors(g, chain));
    }
  }

  /** Within a cluster the cluster in hand stays. */
  lemma MidCluster(g: Geometry, chain: seq<nat>, q: nat)
    requires g.csize > 0 && q <= |Sectors(g, chain)| && Rem(q, g.csize) != 0
    ensures 0 < q < |Sectors(g, chain)| && Quo(q, g.csize) == Quo(q - 1, g.csize) < |chain|
  {
    SectorsEnd(g, chain);
    QuoNext(q - 1, g.csize);
    SectorAt(g, chain, q);
  }

  /** Where sector q lies, from its cluster number. */
  method Locate(g: Geometry, clust: nat, csect: nat, ghost f: seq<nat>, ghost chain: seq<nat>, ghost q: nat)
    returns (x: nat)
    requires g.Valid() && |f| == g.nFatent && IsChain(f, chain) && q < |Sectors(g, chain)|
    requires Quo(q, g.csize) < |chain| && clust == chain[Quo(q, g.csize)] && csect == Rem(q, g.csize)
    ensures x == Sectors(g, chain)[q]
  {
    hide Sectors, Quo, Rem;
    SectorAt(g, chain, q);
    x := ClustToSect(g, clust);
    x := x + csect;
  }

  /** Inside a sector the buffer holds that sector and the cluster in hand contains it. */
  lemma CachedHere(g: Geometry, chain: seq<nat>, st: Store, size: nat, fptr: nat, clust: nat)
    requires g.csize > 0 && Covers(g, st, size) && st.s == Sectors(g, chain) && fptr <= size && fptr % SS != 0
    requires Placed(g, chain, fptr, clust, st.c.sect)
    ensures fptr / SS < |st.s| && st.c.buf == Held(st, fptr / SS)
    ensures Quo(fptr / SS, g.csize) < |chain| && clust == chain[Quo(fptr / SS, g.csize)]
  {
    hide Sectors, Quo;
    assert (fptr - 1) / SS == fptr / SS;
  }

  datatype IoResult = IoOk | IoDenied

  /** disk_read of several consecutive sectors. */
  method ReadRun(vol: Volume, x: nat, cc: nat) returns (d: seq<byte>)
    requires vol.Valid() && vol.g.database <= x && x + cc <= vol.g.nSectors
    requires !(x <= vol.winsect < x + cc)
    ensures ReadRunIs(vol.View(), x, d, cc)
  {
    hide Volume.Valid, Volume.View;
    d := [];
    var i := 0;
    while i < cc
      invariant 0 <= i <= cc && ReadRunIs(vol.View(), x, d, i)
    {
      var one := vol.ReadSector(x + i);
      ReadMore(vol.View(), x, d, i, one);
      d := d + one;
      i := i + 1;
    }
  }

  lemma ChainNext(f: seq<nat>, chain: seq<nat>, k: nat)
    requires IsChain(f, chain) && 0 < k < |chain|
    ensures 2 <= chain[k - 1] < |f| && f[chain[k - 1]] == chain[k] >= 2
  {
  }

  /** A position inside the file has a cluster. */
  lemma SeekInside(g: Geometry, chain: seq<nat>, q: nat, size: nat)
    requires g.csize > 0 && size <= SS * |Sectors(g, chain)| && SS * q + SS * g.csize < size
    ensures Quo(q + g.csize, g.csize) < |chain|
  {
    SectorAt(g, chain, q + g.csize);
  }

  lemma NoClusters(g: Geometry, chain: seq<nat>)
    ensures chain == [] ==> |Sectors(g, chain)| == 0
    ensures g.csize > 0 ==> Rem(0, g.csize) == 0
  {
  }

  /** The start of the cluster that holds byte ifptr - 1, when the target is not before it. */
  lemma CurrentCluster(ifptr: nat, ofs: nat, b: nat)
    requires b > 0 && ifptr > 0 && ofs > 0 && (ofs - 1) / (b * SS) >= (ifptr - 1) / (b * SS)
    ensures var q := (ifptr - 1) / SS - Rem((ifptr - 1) / SS, b);
      && (ifptr - 1) - (ifptr - 1) % (b * SS) == SS * q < ofs && SS * q < ifptr
      && Rem(q, b) == 0 && Quo(q, b) == Quo((ifptr - 1) / SS, b)
  {
    SameOrFollowing(ofs - 1, ifptr - 1, b * SS);
    OffsetInCluster(ifptr - 1, b);
    ClusterStart((ifptr - 1) / SS, b);
  }

  lemma ChainMember(f: seq<nat>, chain: seq<nat>, k: nat)
    requires IsChain(f, chain) && k < |chain|
    ensures 2 <= chain[k] < |f|
  {
  }

  /** The sectors of the byte before position 512 * q + rest and of that position. */
  lemma InsideCluster(q: nat, rest: nat)
    requires rest > 0
    ensures (SS * q + rest - 1) / SS == q + (rest - 1) / SS && (SS * q + rest) % SS == rest % SS
    ensures rest % SS != 0 ==> rest / SS == (rest - 1) / SS && (SS * q + rest) / SS == q + rest / SS
  {
  }

  lemma BackOne(q: nat, b: nat)
    requires b > 0 && Rem(q, b) == 0
    ensures Quo(q + b - 1, b) == Quo(q, b)
  {
    QuoWithin(q, b, b - 1);
  }

  class File {
    const vol: Volume
    const buf: array<byte>
    const canRead: bool
    const canWrite: bool
    var sclust: nat
    var objsize: nat
    var fptr: nat
    var clust: nat
    var sect: nat
    var dirty: bool
    var modified: bool
    ghost var chain: seq<nat>

    /** The part of f_open that sets up the file object; the directory entry has supplied
        the start cluster and the size, whose chain is c. */
    constructor (v: Volume, start: nat, size: nat, rd: bool, wr: bool, ghost c: seq<nat>)
      requires v.Valid() && v.g.fsType != ExFat && ChainOk(StateOf(v), start, c)
      requires size <= ALL_ONES && size <= SS * |Sectors(v.g, c)| && v.winsect !in Sectors(v.g, c)
      ensures Valid() && fresh(buf) && vol == v && chain == c && objsize == size && fptr == 0
      ensures canRead == rd && canWrite == wr
    {
      hide Volume.Valid, Volume.View, Fat, IsChain, Sectors, Sound, Quo;
      vol, sclust, objsize, canRead, canWrite := v, start, size, rd, wr;
      fptr, clust, sect, dirty, modified := 0, 0, 0, false, false;
      buf := new byte[SS](_ => 0);
      chain := c;
      new;
      ChainClusters(vol.g, StateOf(vol).f, chain);
      SectorsAreStorage(vol.g, chain);
    }

    ghost predicate Shape()
      reads this, vol, vol.win
    {
      buf.Length == SS && buf != vol.win && vol.Valid() && vol.g.fsType != ExFat
    }

    ghost function St(): Store
      requires Shape()
      reads this, buf, vol, vol.win
    {
      Store(vol.View(), Sectors(vol.g, chain), Cache(buf[..], sect, dirty))
    }

    /** Everything but the position. */
    ghost predicate Core()
      reads this, buf, vol, vol.win
      ensures Core() ==> Shape() && Covers(vol.g, St(), objsize)
    {
      && Shape()
      && ChainOk(StateOf(vol), sclust, chain)
      && Covers(vol.g, St(), objsize)
      && fptr <= objsize <= ALL_ONES
      && (sect == 0 || sect in St().s)
      && vol.winsect !in St().s
    }

    ghost predicate Valid()
      reads this, buf, vol, vol.win
      ensures Valid() ==> Core()
    {
      Core() && Placed(vol.g, chain, fptr, clust, sect)
    }

    /** The byte string. */
    ghost function Bytes(): (b: seq<byte>)
      requires Valid()
      reads this, buf, vol, vol.win
      ensures |b| == objsize
    {
      Content(vol.g, St(), objsize)
    }

    /** Write-back of the dirty buffer. */
    method Flush()
      requires Core()
      modifies this`dirty, vol`disk
      ensures Core() && !dirty && vol.Valid()
      ensures SameSectors(old(St()), St()) && St().s == old(St().s)
      ensures StateOf(vol) == old(StateOf(vol))
      ensures Confined(vol.g, old(vol.View()), vol.View(), chain)
    {
      hide Volume.Valid, Volume.View, Fat, IsChain, Sectors, Sound, Quo;
      if dirty {
        FlushKeeps(vol.g, St());
        ghost var v := vol.View();
        vol.WriteSector(sect, buf[..]);
        SameFat(vol.g, v, vol.View());
        dirty := false;
      }
    }

    /** Appends a cluster the allocator has just linked behind the chain. */
    ghost method Grow(v: seq<Sector>, c: nat)
      requires Shape() && |v| == vol.g.nSectors
      requires Sane(vol.g, Store(v, Sectors(vol.g, chain), Cache(buf[..], sect, dirty)))
      requires Covers(vol.g, Store(v, Sectors(vol.g, chain), Cache(buf[..], sect, dirty)), objsize)
      requires sect == 0 || sect in Sectors(vol.g, chain)
      requires IsChain(StateOf(vol).f, chain + [c]) && vol.g.InFat1(vol.winsect)
      requires SameOutsideFat(vol.g, v, vol.View())
      requires forall d | 0 <= d < vol.g.nFatent && d !in chain + [c] :: Fat(vol.g, vol.View())[d] == Fat(vol.g, v)[d]
      modifies this`chain
      ensures chain == old(chain) + [c] && Sectors(vol.g, old(chain)) <= Sectors(vol.g, chain)
      ensures |Sectors(vol.g, chain)| == |Sectors(vol.g, old(chain))| + vol.g.csize
      ensures Covers(vol.g, St(), objsize) && vol.winsect !in St().s
      ensures SameSectors(Store(v, Sectors(vol.g, old(chain)), Cache(buf[..], sect, dirty)), St())
      ensures Confined(vol.g, v, vol.View(), chain)
    {
      hide Volume.Valid, Volume.View, Fat, IsChain, Sectors, Quo;
      var g := vol.g;
      var c0 := chain;
      chain := chain + [c];
      ChainClusters(g, StateOf(vol).f, chain);
      SectorsAreStorage(g, chain);
      SectorsAppend(g, c0, c);
      AllocConfined(g, v, vol.View(), chain);
      GrowKeeps(g, Store(v, Sectors(g, c0), Cache(buf[..], sect, dirty)), vol.View(), Sectors(g, chain));
    }

    /** Follows the chain behind cluster number k - 1, stretching it at its end. */
    method NextCluster(clst: nat, ghost k: nat) returns (c: nat)
      requires Core() && k <= |chain| && (k == 0 ==> chain == [])
      requires clst == if k == 0 then 0 else chain[k - 1]
      modifies this`chain, this`sclust, vol`disk, vol`wflag, vol`winsect, vol`freeClst, vol`lastClst, vol.win
      ensures Core()
      ensures c == 0 ==> NoneFree(StateOf(vol).f) && chain == old(chain) && k == |chain|
      ensures c != 0 ==> k < |chain| && c == chain[k]
      ensures old(chain) <= chain && old(St()).s <= St().s
      ensures SameSectors(old(St()), St())
      ensures Confined(vol.g, old(vol.View()), vol.View(), chain)
    {
      hide Volume.Valid, Volume.View, Fat, IsChain, Sectors, Sound, Quo, Create, Held;
      ghost var v, s := vol.View(), StateOf(vol);
      FollowOrStretch(s, chain, k);
      c := CreateChain(vol, clst);
      if k == |chain| && c != 0 {
        Grow(v, c);
      } else {
        AllocConfined(vol.g, v, vol.View(), chain);
        GrowKeeps(vol.g, Store(v, Sectors(vol.g, chain), Cache(buf[..], sect, dirty)), vol.View(),
                  Sectors(vol.g, chain));
        assert vol.g.InFat1(vol.winsect) ==> vol.winsect !in Sectors(vol.g, chain);
      }
      if sclust == 0 {
        sclust := c;
      }
    }

    /** The cluster step of f_write at a cluster boundary. */
    method EnterForWrite(ghost q: nat) returns (full: bool)
      requires Valid() && fptr == SS * q && Rem(q, vol.g.csize) == 0
      modifies this`chain, this`sclust, this`clust
      modifies vol`disk, vol`wflag, vol`winsect, vol`freeClst, vol`lastClst, vol.win
      ensures Core() && old(chain) <= chain && old(St()).s <= St().s
      ensures full ==> Valid() && NoneFree(StateOf(vol).f)
      ensures !full ==> q < |St().s| && Quo(q, vol.g.csize) < |chain| && clust == chain[Quo(q, vol.g.csize)]
      ensures SameSectors(old(St()), St())
      ensures Confined(vol.g, old(vol.View()), vol.View(), chain)
    {
      hide Volume.Valid, Volume.View, Fat, IsChain, Sectors, Sound, Quo, Rem, Held, Confined;
      Boundary(vol.g, chain, q);
      var c;
      if fptr == 0 {
        c := sclust;
        QuoZero(vol.g.csize);
        if c == 0 {
          c := NextCluster(0, 0);
        } else {
          SameConfined(vol.g, vol.View(), chain);
        }
      } else {
        c := NextCluster(clust, Quo(q, vol.g.csize));
      }
      full := c == 0;
      if !full {
        clust := c;
        Boundary(vol.g, chain, q);
      }
    }

    /** Copies d into the buffer. */
    method CopyIn(off: nat, d: seq<byte>)
      requires buf.Length == SS && off + |d| <= SS
      modifies buf
      ensures buf[..] == Patched(old(buf[..]), off, d)
    {
      forall i | 0 <= i < |d| {
        buf[off + i] := d[i];
      }
    }

    /** Moves the cursor over n bytes just written. */
    method Advance(n: nat)
      requires n + fptr <= ALL_ONES
      modifies this`fptr, this`objsize
      ensures fptr == old(fptr) + n && objsize == if fptr > old(objsize) then fptr else old(objsize)
    {
      fptr := fptr + n;
      objsize := if fptr > objsize then fptr else objsize;
    }

    /** The direct multi-sector transfer of f_write. */
    method WriteDirect(d: seq<byte>, cc: nat, x: nat, ghost q: nat)
      requires Core() && !dirty && 0 < cc && |d| == SS * cc && fptr == SS * q && fptr + |d| <= ALL_ONES
      requires q < |St().s| && Rem(q, vol.g.csize) + cc <= vol.g.csize && x == St().s[q]
      requires Quo(q, vol.g.csize) < |chain| && clust == chain[Quo(q, vol.g.csize)]
      modifies this`dirty, this`fptr, this`objsize, buf, vol`disk
      ensures Valid() && fptr == old(fptr) + |d|
      ensures objsize == if fptr > old(objsize) then fptr else old(objsize)
      ensures Overwrites(vol.g, old(St()), St(), old(fptr), d, old(objsize))
      ensures Confined(vol.g, old(vol.View()), vol.View(), chain)
    {
      hide Volume.Valid, Volume.View, Geometry.Valid, Fat, IsChain, Sectors, Sound, Quo, Rem, Sane, WroteRun,
           Confined, Overwrites;
      ghost var a, v := St(), vol.View();
      RunInCluster(vol.g, chain, q, cc);
      OneOf(vol.winsect, x, cc, q, a.s);
      RunInData(vol.g, a, q, x, cc);
      WriteRun(vol, x, d, cc);
      if x <= sect < x + cc {
        CopyIn(0, d[SS * (sect - x)..SS * (sect - x) + SS]);
        assert buf[..] == Chunk(d, sect - x);
        dirty := false;
      }
      DirectWrites(vol.g, a, vol.View(), q, x, d, cc, objsize);
      assert St() == Store(vol.View(), a.s, Refilled(a.c, x, d, cc));
      OverwritesCovers(vol.g, a, St(), fptr, d, objsize);
      DataOnly(vol.g, v, vol.View(), chain, q, x, d, cc);
      Advance(|d|);
      assert (fptr - 1) / SS == q + cc - 1;
    }

    /** Puts d into the buffer, which stands for sector q of the file. */
    method Patch(off: nat, d: seq<byte>, x: nat, ghost q: nat)
      requires Shape() && ChainOk(StateOf(vol), sclust, chain) && vol.winsect !in Sectors(vol.g, chain)
      requires fptr <= objsize <= ALL_ONES && fptr == SS * q + off
      requires 0 < |d| && off + |d| <= SS && fptr + |d| <= ALL_ONES
      requires q < |Sectors(vol.g, chain)| && x == Sectors(vol.g, chain)[q]
      requires Quo(q, vol.g.csize) < |chain| && clust == chain[Quo(q, vol.g.csize)]
      requires Covers(vol.g, St(), objsize) && (dirty ==> sect == x)
      requires buf[..] == Held(St(), q) || (off == 0 && objsize <= SS * q)
      modifies this`dirty, this`sect, this`fptr, this`objsize, buf
      ensures Valid() && fptr == old(fptr) + |d| && dirty
      ensures objsize == if fptr > old(objsize) then fptr else old(objsize)
      ensures Overwrites(vol.g, old(St()), St(), old(fptr), d, old(objsize))
    {
      hide Volume.Valid, Volume.View, Geometry.Valid, Fat, IsChain, Sectors, Sound, Quo, Sane, Overwrites;
      ghost var a := St();
      PatchWrites(vol.g, a, q, off, d, buf[..], objsize);
      sect := x;
      CopyIn(off, d);
      dirty := true;
      assert St() == Store(a.v, a.s, Cache(Patched(a.c.buf, off, d), a.s[q], true));
      OverwritesCovers(vol.g, a, St(), fptr, d, objsize);
      Advance(|d|);
      assert (fptr - 1) / SS == q;
    }

    /** A partial sector at a sector boundary: the buffer is filled first unless the file ends here. */
    method WriteHead(d: seq<byte>, x: nat, ghost q: nat)
      requires Core() && !dirty && 0 < |d| < SS && fptr == SS * q && fptr + |d| <= ALL_ONES
      requires q < |St().s| && x == St().s[q]
      requires Quo(q, vol.g.csize) < |chain| && clust == chain[Quo(q, vol.g.csize)]
      modifies this`dirty, this`sect, this`fptr, this`objsize, buf
      ensures Valid() && fptr == old(fptr) + |d|
      ensures objsize == if fptr > old(objsize) then fptr else old(objsize)
      ensures Overwrites(vol.g, old(St()), St(), old(fptr), d, old(objsize))
    {
      hide Volume.Valid, Volume.View, Geometry.Valid, Fat, IsChain, Sectors, Sound, Quo, Overwrites, ChainOk;
      ghost var a := St();
      if sect != x && fptr < objsize {
        var data := vol.ReadSector(x);
        LoadKeeps(vol.g, a, x);
        sect := x;
        CopyIn(0, data);
        assert buf[..] == data;
        SameSectorsSameBytes(vol.g, a, St(), fptr, objsize);
      } else {
        OverwritesNothing(vol.g, a, fptr, objsize);
      }
      ghost var b := St();
      Patch(0, d, x, q);
      OverwritesAfter(vol.g, a, b, St(), old(fptr), d, old(objsize));
    }

    /** Makes q's sector addressable at a sector boundary of f_write: follow or stretch the
        chain, write the buffer back, compute the sector number. */
    method PrepareWrite(csect: nat, ghost q: nat) returns (x: nat, full: bool)
      requires Valid() && fptr == SS * q && csect == Rem(q, vol.g.csize)
      modifies this`chain, this`sclust, this`clust, this`dirty
      modifies vol`disk, vol`wflag, vol`winsect, vol`freeClst, vol`lastClst, vol.win
      ensures Core() && old(chain) <= chain && old(St()).s <= St().s
      ensures full ==> Valid() && NoneFree(StateOf(vol).f)
      ensures !full ==> !dirty && q < |St().s| && Quo(q, vol.g.csize) < |chain| && clust == chain[Quo(q, vol.g.csize)]
      ensures !full ==> x == St().s[q]
      ensures Overwrites(vol.g, old(St()), St(), fptr, [], objsize)
      ensures Confined(vol.g, old(vol.View()), vol.View(), chain)
    {
      hide Volume.Valid, Volume.View, Geometry.Valid, Fat, IsChain, Sectors, Sound, Quo, Rem, Sane, Overwrites,
           Confined, SameSectors;
      ghost var a, v, c0 := St(), vol.View(), chain;
      x, full := 0, false;
      if csect == 0 {
        full := EnterForWrite(q);
        SameSectorsSameBytes(vol.g, a, St(), fptr, objsize);
        if full {
          return;
        }
      } else {
        MidCluster(vol.g, chain, q);
        OverwritesNothing(vol.g, a, fptr, objsize);
        SameConfined(vol.g, v, chain);
      }
      ghost var b, v1 := St(), vol.View();
      Flush();
      SameSectorsSameBytes(vol.g, b, St(), fptr, objsize);
      OverwritesAfter(vol.g, a, b, St(), fptr, [], objsize);
      ConfinedThen(vol.g, v, v1, vol.View(), chain, chain);
      x := Locate(vol.g, clust, csect, StateOf(vol).f, chain, q);
    }

    /** One round of the f_write loop: a run of whole sectors, or part of one. */
    method WriteRound(d: seq<byte>) returns (w: nat, full: bool)
      requires Valid() && 0 < |d| && fptr + |d| <= ALL_ONES
      modifies this`chain, this`sclust, this`clust, this`sect, this`dirty, this`fptr, this`objsize, buf
      modifies vol`disk, vol`wflag, vol`winsect, vol`freeClst, vol`lastClst, vol.win
      ensures Valid() && w <= |d| && (full ==> w == 0 && NoneFree(StateOf(vol).f)) && (!full ==> w > 0)
      ensures fptr == old(fptr) + w && objsize == if fptr > old(objsize) then fptr else old(objsize)
      ensures old(chain) <= chain && old(St()).s <= St().s
      ensures Overwrites(vol.g, old(St()), St(), old(fptr), d[..w], old(objsize))
      ensures Confined(vol.g, old(vol.View()), vol.View(), chain)
    {
      hide Volume.Valid, Volume.View, Geometry.Valid, Fat, IsChain, Sectors, Sound, Quo, Rem, Sane, Overwrites,
           Confined, ChainOk;
      ghost var a, v, c0 := St(), vol.View(), chain;
      var q := fptr / SS;
      if fptr % SS == 0 {
        var csect := q % vol.g.csize;
        QuoRemAre(q, vol.g.csize);
        var x;
        x, full := PrepareWrite(csect, q);
        if full {
          w := 0;
          assert d[..0] == [];
          return;
        }
        ghost var b, v1 := St(), vol.View();
        var cc := |d| / SS;
        if cc > 0 {
          if csect + cc > vol.g.csize {
            cc := vol.g.csize - csect;
          }
          w := SS * cc;
          WriteDirect(d[..w], cc, x, q);
          ConfinedThen(vol.g, v, v1, vol.View(), chain, chain);
        } else {
          w := |d|;
          WriteHead(d[..w], x, q);
        }
        OverwritesAfter(vol.g, a, b, St(), old(fptr), d[..w], old(objsize));
      } else {
        full := false;
        w := SS - fptr % SS;
        if w > |d| {
          w := |d|;
        }
        CachedHere(vol.g, chain, St(), objsize, fptr, clust);
        SameConfined(vol.g, v, chain);
        Patch(fptr % SS, d[..w], sect, q);
      }
    }

    /** The f_write loop. */
    method WriteAll(d: seq<byte>) returns (bw: nat)
      requires Valid() && fptr + |d| <= ALL_ONES
      modifies this`chain, this`sclust, this`clust, this`sect, this`dirty, this`fptr, this`objsize, buf
      modifies vol`disk, vol`wflag, vol`winsect, vol`freeClst, vol`lastClst, vol.win
      ensures Valid() && bw <= |d| && (bw < |d| ==> NoneFree(StateOf(vol).f))
      ensures fptr == old(fptr) + bw && objsize == if fptr > old(objsize) then fptr else old(objsize)
      ensures old(chain) <= chain
      ensures Overwrites(vol.g, old(St()), St(), old(fptr), d[..bw], old(objsize))
      ensures Confined(vol.g, old(vol.View()), vol.View(), chain)
    {
      hide Volume.Valid, Volume.View, Geometry.Valid, Fat, IsChain, Sectors, Sound, Quo, Rem, Sane, Overwrites,
           Confined, ChainOk, Placed, NoneFree;
      ghost var a, v := St(), vol.View();
      bw := 0;
      OverwritesNothing(vol.g, a, fptr, objsize);
      SameConfined(vol.g, v, chain);
      assert d[..0] == [];
      while bw < |d|
        invariant Valid() && bw <= |d| && fptr == old(fptr) + bw
        invariant objsize == if fptr > old(objsize) then fptr else old(objsize)
        invariant old(chain) <= chain && a.s <= St().s
        invariant Overwrites(vol.g, a, St(), old(fptr), d[..bw], old(objsize))
        invariant Confined(vol.g, v, vol.View(), chain)
      {
        ghost var b, v1, c1 := St(), vol.View(), chain;
        var rest := d[bw..];
        var w, full := WriteRound(rest);
        ConfinedThen(vol.g, v, v1, vol.View(), c1, chain);
        OverwritesThen(vol.g, a, b, St(), old(fptr), d[..bw], rest[..w], old(objsize));
        assert d[..bw] + rest[..w] == d[..bw + w];
        bw := bw + w;
        if full {
          break;
        }
      }
    }

    /** f_write: the bytes written replace or extend the byte string from the cursor on; fewer
        than asked for are written only at 4 GiB - 1 or when no cluster is free. */
    method Write(data: seq<byte>) returns (res: IoResult, bw: nat)
      requires Valid() && |data| < DWORD
      modifies this, buf, vol`disk, vol`wflag, vol`winsect, vol`freeClst, vol`lastClst, vol.win
      ensures Valid() && res == (if canWrite then IoOk else IoDenied)
      ensures !canWrite ==> bw == 0
      ensures bw <= |data| && fptr == old(fptr) + bw
      ensures objsize == if fptr > old(objsize) then fptr else old(objsize)
      ensures modified == (old(modified) || canWrite)
      ensures forall p | 0 <= p < objsize ::
        Bytes()[p] == if old(fptr) <= p < fptr then data[p - old(fptr)] else old(Bytes())[p]
      ensures canWrite && bw < |data| && fptr < ALL_ONES ==> NoneFree(StateOf(vol).f)
      ensures old(chain) <= chain && Confined(vol.g, old(vol.View()), vol.View(), chain)
    {
      hide Volume.Valid, Volume.View, Geometry.Valid, Fat, IsChain, Sectors, Sound, Quo, Rem, Sane, Overwrites,
           Confined, ChainOk, Placed, NoneFree;
      ghost var a := St();
      if !canWrite {
        SameConfined(vol.g, vol.View(), chain);
        assert data[..0] == [];
        return IoDenied, 0;
      }
      var btw := |data|;
      if (fptr + btw) % DWORD < fptr {
        btw := ALL_ONES - fptr;
      }
      bw := WriteAll(data[..btw]);
      modified := true;
      assert data[..btw][..bw] == data[..bw];
      OverwrittenContent(vol.g, a, St(), old(fptr), data[..bw], old(objsize));
      res := IoOk;
    }

    /** Follows the chain by one cluster through the FAT. */
    method Follow(ghost k: nat)
      requires Core() && 0 < k < |chain| && clust == chain[k - 1]
      modifies this`clust, vol`disk, vol`wflag, vol`winsect, vol.win
      ensures Core() && St() == old(St()) && StateOf(vol) == old(StateOf(vol)) && clust == chain[k] && clust >= 2
    {
      hide Volume.Valid, Volume.View, Fat, IsChain, Sectors, Sound;
      ChainNext(StateOf(vol).f, chain, k);
      var c := GetFat(vol, clust);
      clust := c;
      assert vol.g.InFat1(vol.winsect) ==> vol.winsect !in Sectors(vol.g, chain);
    }

    /** The cluster step of f_read at a cluster boundary. */
    method EnterForRead(ghost q: nat)
      requires Valid() && fptr == SS * q && Rem(q, vol.g.csize) == 0 && q < |St().s|
      modifies this`clust, vol`disk, vol`wflag, vol`winsect, vol.win
      ensures Core() && St() == old(St()) && StateOf(vol) == old(StateOf(vol))
      ensures Quo(q, vol.g.csize) < |chain| && clust == chain[Quo(q, vol.g.csize)]
    {
      hide Volume.Valid, Volume.View, Geometry.Valid, Fat, IsChain, Sectors, Sound, Quo, Rem, Sane;
      Boundary(vol.g, chain, q);
      QuoZero(vol.g.csize);
      if fptr == 0 {
        clust := sclust;
      } else {
        Follow(Quo(q, vol.g.csize));
      }
    }

    /** Makes q's sector addressable at a sector boundary of f_read. */
    method PrepareRead(csect: nat, ghost q: nat) returns (x: nat)
      requires Valid() && fptr == SS * q && csect == Rem(q, vol.g.csize) && q < |St().s|
      modifies this`clust, vol`disk, vol`wflag, vol`winsect, vol.win
      ensures Core() && St() == old(St()) && StateOf(vol) == old(StateOf(vol)) && x == St().s[q]
      ensures Quo(q, vol.g.csize) < |chain| && clust == chain[Quo(q, vol.g.csize)]
    {
      hide Volume.Valid, Volume.View, Geometry.Valid, Fat, IsChain, Sectors, Sound, Quo, Rem, Sane;
      if csect == 0 {
        EnterForRead(q);
      } else {
        MidCluster(vol.g, chain, q);
      }
      x := Locate(vol.g, clust, csect, StateOf(vol).f, chain, q);
    }

    /** Takes the sector with number x into the buffer, writing a dirty one back first. */
    method LoadSector(x: nat, ghost q: nat)
      requires Core() && q < |St().s| && x == St().s[q]
      modifies this`sect, this`dirty, buf, vol`disk
      ensures Core() && sect == x && St().s == old(St().s)
      ensures Overwrites(vol.g, old(St()), St(), fptr, [], objsize)
      ensures Confined(vol.g, old(vol.View()), vol.View(), chain)
      ensures StateOf(vol) == old(StateOf(vol))
    {
      hide Volume.Valid, Volume.View, Geometry.Valid, Fat, IsChain, Sectors, Sound, Quo, Overwrites, Confined,
           ChainOk, Sane, SameSectors;
      ghost var a := St();
      InData(vol.g, a, q);
      if sect != x {
        Flush();
        ghost var b := St();
        SameSectorsSameBytes(vol.g, a, b, fptr, objsize);
        var data := vol.ReadSector(x);
        LoadKeeps(vol.g, b, x);
        CopyIn(0, data);
        assert buf[..] == data;
        sect := x;
        SameSectorsSameBytes(vol.g, b, St(), fptr, objsize);
        OverwritesAfter(vol.g, a, b, St(), fptr, [], objsize);
      } else {
        OverwritesNothing(vol.g, a, fptr, objsize);
        SameConfined(vol.g, vol.View(), chain);
      }
    }

    /** Hands out n bytes of the buffer, which holds sector q of the file. */
    method TakeFromBuffer(n: nat, ghost q: nat) returns (piece: seq<byte>)
      requires Core() && fptr / SS == q < |St().s| && sect == St().s[q]
      requires 0 < n && fptr % SS + n <= SS && fptr + n <= objsize
      requires Quo(q, vol.g.csize) < |chain| && clust == chain[Quo(q, vol.g.csize)]
      modifies this`fptr
      ensures Valid() && |piece| == n && fptr == old(fptr) + n
      ensures St() == old(St()) && Slice(vol.g, old(St()), old(fptr), piece)
    {
      hide Volume.Valid, Volume.View, Geometry.Valid, Fat, IsChain, Sectors, Sound, Quo, Sane, Slice, ChainOk;
      BufferHolds(vol.g, St(), q);
      BufferReads(vol.g, St(), q, fptr % SS, n);
      piece := buf[fptr % SS..fptr % SS + n];
      assert piece == St().c.buf[fptr % SS..fptr % SS + n];
      assert SS * q + fptr % SS == fptr;
      fptr := fptr + n;
      assert (fptr - 1) / SS == q;
    }

    /** The direct multi-sector transfer of f_read. */
    method ReadDirect(cc: nat, x: nat, ghost q: nat) returns (piece: seq<byte>)
      requires Core() && 0 < cc && fptr == SS * q && fptr + SS * cc <= objsize
      requires q < |St().s| && Rem(q, vol.g.csize) + cc <= vol.g.csize && x == St().s[q]
      requires Quo(q, vol.g.csize) < |chain| && clust == chain[Quo(q, vol.g.csize)]
      modifies this`fptr
      ensures Valid() && |piece| == SS * cc && fptr == old(fptr) + SS * cc
      ensures St() == old(St()) && Slice(vol.g, old(St()), old(fptr), piece)
    {
      hide Volume.Valid, Volume.View, Geometry.Valid, Fat, IsChain, Sectors, Sound, Quo, Rem, Sane, Slice, ChainOk;
      ghost var a := St();
      RunInCluster(vol.g, chain, q, cc);
      OneOf(vol.winsect, x, cc, q, a.s);
      RunInData(vol.g, a, q, x, cc);
      var d := ReadRun(vol, x, cc);
      DirectReads(vol.g, a, q, x, d, cc);
      piece := Overlaid(Cache(buf[..], sect, dirty), x, d, cc);
      fptr := fptr + SS * cc;
      assert (fptr - 1) / SS == q + cc - 1;
    }

    /** One round of the f_read loop. */
    method ReadRound(n: nat) returns (piece: seq<byte>)
      requires Valid() && 0 < n && fptr + n <= objsize
      modifies this`clust, this`sect, this`dirty, this`fptr, buf, vol`disk, vol`wflag, vol`winsect, vol.win
      ensures Valid() && 0 < |piece| <= n && fptr == old(fptr) + |piece|
      ensures Slice(vol.g, old(St()), old(fptr), piece)
      ensures Overwrites(vol.g, old(St()), St(), old(fptr), [], objsize)
      ensures Confined(vol.g, old(vol.View()), vol.View(), chain)
    {
      hide Volume.Valid, Volume.View, Geometry.Valid, Fat, IsChain, Sectors, Sound, Quo, Rem, Sane, Overwrites, Slice,
           Confined, ChainOk;
      ghost var a, v := St(), vol.View();
      OverwritesNothing(vol.g, a, fptr, objsize);
      SameConfined(vol.g, v, chain);
      var q := fptr / SS;
      if fptr % SS == 0 {
        var csect := q % vol.g.csize;
        QuoRemAre(q, vol.g.csize);
        var x := PrepareRead(csect, q);
        var cc := n / SS;
        if cc > 0 {
          if csect + cc > vol.g.csize {
            cc := vol.g.csize - csect;
          }
          piece := ReadDirect(cc, x, q);
        } else {
          LoadSector(x, q);
          ghost var b := St();
          piece := TakeFromBuffer(n, q);
          SliceBack(vol.g, a, b, old(fptr), piece, objsize);
        }
      } else {
        CachedHere(vol.g, chain, a, objsize, fptr, clust);
        var w := SS - fptr % SS;
        if w > n {
          w := n;
        }
        piece := TakeFromBuffer(w, q);
      }
    }

    /** f_read: exactly the next bytes of the byte string, which stays as it is. */
    method Read(btr: nat) returns (res: IoResult, data: seq<byte>)
      requires Valid()
      modifies this, buf, vol`disk, vol`wflag, vol`winsect, vol.win
      ensures Valid() && res == (if canRead then IoOk else IoDenied)
      ensures !canRead ==> data == [] && fptr == old(fptr)
      ensures canRead ==> fptr == old(fptr) + |data|
      ensures canRead ==> |data| == if btr < old(objsize) - old(fptr) then btr else old(objsize) - old(fptr)
      ensures forall i | 0 <= i < |data| :: old(fptr) + i < old(objsize) && data[i] == old(Bytes())[old(fptr) + i]
      ensures objsize == old(objsize) && chain == old(chain) && Bytes() == old(Bytes()) && modified == old(modified)
      ensures Confined(vol.g, old(vol.View()), vol.View(), chain)
    {
      hide Volume.Valid, Volume.View, Geometry.Valid, Fat, IsChain, Sectors, Sound, Quo, Rem, Sane, Overwrites, Slice,
           Confined, ChainOk, Placed;
      ghost var a, v := St(), vol.View();
      OverwritesNothing(vol.g, a, fptr, objsize);
      SameConfined(vol.g, v, chain);
      data := [];
      if !canRead {
        return IoDenied, data;
      }
      var n := if btr > objsize - fptr then objsize - fptr else btr;
      SliceNothing(vol.g, a, fptr, objsize);
      ghost var at := fptr;
      while n > 0
        invariant 0 <= n && Valid() && chain == old(chain) && objsize == old(objsize) && modified == old(modified)
        invariant fptr == at + |data| && fptr + n == (if btr < objsize - at then at + btr else objsize)
        invariant Slice(vol.g, a, at, data)
        invariant Overwrites(vol.g, a, St(), at, [], objsize)
        invariant Confined(vol.g, v, vol.View(), chain)
      {
        ghost var b, v1 := St(), vol.View();
        var piece := ReadRound(n);
        OverwritesElsewhere(vol.g, b, St(), at + |data|, at, objsize);
        OverwritesAfter(vol.g, a, b, St(), at, [], objsize);
        ConfinedThen(vol.g, v, v1, vol.View(), chain, chain);
        SliceThen(vol.g, a, b, at, data, piece, objsize);
        data := data + piece;
        n := n - |piece|;
      }
      SliceOfContent(vol.g, a, at, data, objsize);
      SameContent(vol.g, a, St(), at, objsize);
      res := IoOk;
    }

    /** The cursor stands at the start of cluster number k, which is in hand. */
    ghost predicate AtCluster(q: nat)
      requires Core()
      reads this, buf, vol, vol.win
    {
      && fptr == SS * q && Rem(q, vol.g.csize) == 0
      && Quo(q, vol.g.csize) < |chain| && clust == chain[Quo(q, vol.g.csize)]
    }

    /** One round of the cluster following loop of f_lseek. */
    method SeekStep(ghost q: nat) returns (c: nat)
      requires Core() && AtCluster(q) && fptr + SS * vol.g.csize <= ALL_ONES
      requires !canWrite ==> fptr + SS * vol.g.csize < objsize
      modifies this`chain, this`sclust, this`clust, this`fptr, this`objsize, this`modified
      modifies vol`disk, vol`wflag, vol`winsect, vol`freeClst, vol`lastClst, vol.win
      ensures Core() && fptr == old(fptr) + SS * vol.g.csize
      ensures objsize == if canWrite && fptr > old(objsize) then fptr else old(objsize)
      ensures modified == (old(modified) || objsize > old(objsize))
      ensures c != 0 ==> AtCluster(q + vol.g.csize)
      ensures c == 0 ==> canWrite && NoneFree(StateOf(vol).f) && fptr == objsize
      ensures c == 0 ==> clust == old(clust) && chain == old(chain)
      ensures old(chain) <= chain && old(St()).s <= St().s
      ensures Overwrites(vol.g, old(St()), St(), 0, [], old(objsize))
      ensures Confined(vol.g, old(vol.View()), vol.View(), chain)
    {
      hide Volume.Valid, Volume.View, Geometry.Valid, Fat, IsChain, Sectors, Sound, Quo, Rem, Sane, Overwrites,
           Confined, SameSectors, NoneFree, ChainOk;
      ghost var a, size := St(), objsize;
      var clst := clust;
      WholeCluster(vol.g, chain, q);
      NextBoundary(q, vol.g.csize);
      fptr := fptr + SS * vol.g.csize;
      if canWrite {
        if fptr > objsize {
          objsize := fptr;
          modified := true;
        }
        Boundary(vol.g, chain, q + vol.g.csize);
        c := NextCluster(clst, Quo(q, vol.g.csize) + 1);
        if c != 0 {
          clust := c;
        }
        SameSectorsSameBytes(vol.g, a, St(), 0, size);
      } else {
        SeekInside(vol.g, chain, q, objsize);
        Follow(Quo(q, vol.g.csize) + 1);
        c := clust;
        OverwritesNothing(vol.g, a, 0, size);
        SameConfined(vol.g, a.v, chain);
      }
    }

    /** The start of f_lseek: from the current cluster when seeking forward, else from the
        first one, which is created if there is none. */
    method SeekStart(ofs: nat) returns (rest: nat, clst: nat, ghost q: nat)
      requires Valid() && 0 < ofs <= ALL_ONES && (!canWrite ==> ofs <= objsize)
      modifies this`chain, this`sclust, this`clust, this`fptr
      modifies vol`disk, vol`wflag, vol`winsect, vol`freeClst, vol`lastClst, vol.win
      ensures Core() && rest > 0 && fptr + rest == ofs
      ensures clst != 0 ==> AtCluster(q)
      ensures clst == 0 ==> fptr == objsize == 0 && canWrite && NoneFree(StateOf(vol).f)
      ensures old(chain) <= chain && old(St()).s <= St().s
      ensures Overwrites(vol.g, old(St()), St(), 0, [], objsize)
      ensures Confined(vol.g, old(vol.View()), vol.View(), chain)
    {
      hide Volume.Valid, Volume.View, Geometry.Valid, Fat, IsChain, Sectors, Sound, Quo, Rem, Sane, Overwrites,
           Confined, SameSectors, NoneFree;
      ghost var a := St();
      OverwritesNothing(vol.g, a, 0, objsize);
      SameConfined(vol.g, a.v, chain);
      var ifptr, bcs := fptr, vol.g.csize * SS;
      q := 0;
      fptr := 0;
      if ifptr > 0 && (ofs - 1) / bcs >= (ifptr - 1) / bcs {
        CurrentCluster(ifptr, ofs, vol.g.csize);
        q := (ifptr - 1) / SS - Rem((ifptr - 1) / SS, vol.g.csize);
        fptr := (ifptr - 1) - (ifptr - 1) % bcs;
        rest := ofs - fptr;
        ChainMember(StateOf(vol).f, chain, Quo((ifptr - 1) / SS, vol.g.csize));
        clst := clust;
      } else {
        rest := ofs;
        clst := sclust;
        QuoZero(vol.g.csize);
        NoClusters(vol.g, chain);
        if clst == 0 {
          clst := NextCluster(0, 0);
          SameSectorsSameBytes(vol.g, a, St(), 0, objsize);
        }
        clust := clst;
      }
    }

    /** The cluster following loop of f_lseek. */
    method SeekWalk(ofs: nat, ghost q0: nat) returns (rest: nat, full: bool, ghost q: nat)
      requires Core() && AtCluster(q0) && 0 < ofs && fptr + ofs <= ALL_ONES && (!canWrite ==> fptr + ofs <= objsize)
      modifies this`chain, this`sclust, this`clust, this`fptr, this`objsize, this`modified
      modifies vol`disk, vol`wflag, vol`winsect, vol`freeClst, vol`lastClst, vol.win
      ensures Core() && old(objsize) <= objsize && (objsize == old(objsize) || objsize <= fptr)
      ensures modified == (old(modified) || objsize > old(objsize))
      ensures !full ==> AtCluster(q) && 0 < rest <= SS * vol.g.csize && fptr + rest == old(fptr) + ofs
      ensures full ==> rest == 0 && canWrite && NoneFree(StateOf(vol).f) && fptr == objsize && fptr < old(fptr) + ofs
      ensures full ==> fptr == SS * q && 0 < q
      ensures full ==> Quo(q - 1, vol.g.csize) < |chain| && clust == chain[Quo(q - 1, vol.g.csize)]
      ensures old(chain) <= chain && old(St()).s <= St().s
      ensures Overwrites(vol.g, old(St()), St(), 0, [], old(objsize))
      ensures Confined(vol.g, old(vol.View()), vol.View(), chain)
    {
      hide Volume.Valid, Volume.View, Geometry.Valid, Fat, IsChain, Sectors, Sound, Quo, Rem, Sane, Overwrites,
           Confined, SameSectors, NoneFree, ChainOk;
      ghost var a, size := St(), objsize;
      OverwritesNothing(vol.g, a, 0, objsize);
      SameConfined(vol.g, a.v, chain);
      var bcs := SS * vol.g.csize;
      rest, full, q := ofs, false, q0;
      while rest > bcs
        invariant Core() && AtCluster(q) && 0 < rest && fptr + rest == old(fptr) + ofs && !full
        invariant size <= objsize && (objsize == size || objsize <= fptr)
        invariant !canWrite ==> objsize == size
        invariant modified == (old(modified) || objsize > size)
        invariant old(chain) <= chain && a.s <= St().s
        invariant Overwrites(vol.g, a, St(), 0, [], size)
        invariant Confined(vol.g, a.v, vol.View(), chain)
      {
        ghost var b, c1, size1 := St(), chain, objsize;
        rest := rest - bcs;
        var c := SeekStep(q);
        ConfinedThen(vol.g, a.v, b.v, vol.View(), c1, chain);
        OverwritesLess(vol.g, b, St(), size1, size);
        OverwritesAfter(vol.g, a, b, St(), 0, [], size);
        NextBoundary(q, vol.g.csize);
        if c == 0 {
          BackOne(q, vol.g.csize);
          q := q + vol.g.csize;
          rest, full := 0, true;
          break;
        }
        q := q + vol.g.csize;
      }
    }

    /** The sector number of q, whose cluster is in hand. */
    method Here(csect: nat, ghost q: nat) returns (x: nat)
      requires Core() && q < |St().s| && csect == Rem(q, vol.g.csize)
      requires Quo(q, vol.g.csize) < |chain| && clust == chain[Quo(q, vol.g.csize)]
      ensures x == St().s[q]
    {
      hide Volume.Valid, Volume.View, Geometry.Valid, Fat, IsChain, Sectors, Sound, Quo, Rem, Sane;
      x := Locate(vol.g, clust, csect, StateOf(vol).f, chain, q);
    }

    /** The end of f_lseek: the cursor goes `rest` bytes into the cluster in hand. */
    method SeekFinish(rest: nat, ghost q: nat)
      requires Core() && AtCluster(q) && 0 < rest <= SS * vol.g.csize && fptr + rest <= ALL_ONES
      modifies this`sect, this`dirty, this`fptr, this`objsize, this`modified, buf, vol`disk
      ensures Valid() && fptr == old(fptr) + rest
      ensures objsize == if fptr > old(objsize) then fptr else old(objsize)
      ensures modified == (old(modified) || objsize > old(objsize))
      ensures St().s == old(St().s) && Overwrites(vol.g, old(St()), St(), 0, [], old(objsize))
      ensures Confined(vol.g, old(vol.View()), vol.View(), chain) && StateOf(vol) == old(StateOf(vol))
    {
      hide Volume.Valid, Volume.View, Geometry.Valid, Fat, IsChain, Sectors, Sound, Quo, Rem, Sane, Overwrites,
           Confined, ChainOk;
      ghost var a, size := St(), objsize;
      WholeCluster(vol.g, chain, q);
      QuoWithin(q, vol.g.csize, (rest - 1) / SS);
      InsideCluster(q, rest);
      fptr := fptr + rest;
      if fptr > objsize {
        objsize := fptr;
        modified := true;
      }
      OverwritesNothing(vol.g, a, 0, size);
      SameConfined(vol.g, a.v, chain);
      if rest % SS != 0 {
        var nsect := Here(rest / SS, q + rest / SS);
        LoadSector(nsect, q + rest / SS);
        OverwritesElsewhere(vol.g, a, St(), fptr, 0, objsize);
        OverwritesLess(vol.g, a, St(), objsize, size);
      }
    }

    /** Where a seek aims: clipped at 4 GiB - 1, and at the end of a file not open for writing. */
    ghost function Target(ofs: nat): nat
      reads this
    {
      var t := if ofs >= DWORD then ALL_ONES else ofs;
      if t > objsize && !canWrite then objsize else t
    }

    /** A seek to a position other than the start. */
    method SeekTo(t: nat)
      requires Valid() && 0 < t <= ALL_ONES && (!canWrite ==> t <= objsize)
      modifies this, buf, vol`disk, vol`wflag, vol`winsect, vol`freeClst, vol`lastClst, vol.win
      ensures Valid() && old(chain) <= chain
      ensures fptr == t || (fptr == objsize < t && canWrite && NoneFree(StateOf(vol).f))
      ensures objsize == if fptr > old(objsize) then fptr else old(objsize)
      ensures modified == (old(modified) || objsize > old(objsize))
      ensures Overwrites(vol.g, old(St()), St(), 0, [], old(objsize))
      ensures Confined(vol.g, old(vol.View()), vol.View(), chain)
    {
      hide Volume.Valid, Volume.View, Geometry.Valid, Fat, IsChain, Sectors, Sound, Quo, Rem, Sane, Overwrites,
           Confined, ChainOk, NoneFree;
      ghost var a, size, q := St(), objsize, 0;
      var rest, clst;
      rest, clst, q := SeekStart(t);
      if clst != 0 {
        ghost var b, c1 := St(), chain;
        var full;
        rest, full, q := SeekWalk(rest, q);
        ConfinedThen(vol.g, a.v, b.v, vol.View(), c1, chain);
        OverwritesAfter(vol.g, a, b, St(), 0, [], size);
        if !full {
          b, c1 := St(), chain;
          ghost var size1 := objsize;
          SeekFinish(rest, q);
          ConfinedThen(vol.g, a.v, b.v, vol.View(), c1, chain);
          OverwritesLess(vol.g, b, St(), size1, size);
          OverwritesAfter(vol.g, a, b, St(), 0, [], size);
        } else {
          assert (fptr - 1) / SS == q - 1;
        }
      }
    }

    /** f_lseek: the cursor goes to the target, or as far as there are clusters; the byte
        string only grows, by bytes that have no particular value. */
    method Seek(ofs: nat)
      requires Valid()
      modifies this, buf, vol`disk, vol`wflag, vol`winsect, vol`freeClst, vol`lastClst, vol.win
      ensures Valid()
      ensures fptr == old(Target(ofs))
        || (old(objsize) <= fptr == objsize < old(Target(ofs)) && canWrite && NoneFree(StateOf(vol).f))
      ensures objsize == if fptr > old(objsize) then fptr else old(objsize)
      ensures modified == (old(modified) || objsize > old(objsize))
      ensures old(Bytes()) <= Bytes()
      ensures old(chain) <= chain && Confined(vol.g, old(vol.View()), vol.View(), chain)
    {
      hide Volume.Valid, Volume.View, Geometry.Valid, Fat, IsChain, Sectors, Sound, Quo, Rem, Sane, Overwrites,
           Confined, ChainOk, NoneFree;
      ghost var a, size := St(), objsize;
      var t := if ofs >= DWORD then ALL_ONES else ofs;
      if t > objsize && !canWrite {
        t := objsize;
      }
      if t == 0 {
        OverwritesNothing(vol.g, a, 0, objsize);
        SameConfined(vol.g, a.v, chain);
        fptr := 0;
      } else {
        SeekTo(t);
      }
      SizeRaised(vol.g, a, St(), 0, size, objsize);
    }
  }
}
