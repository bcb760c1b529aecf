/** f_lseek in fast seek mode: the cluster comes from the link map table. */
module FastSeekMode {
  import opened Arithmetic
  import opened Bytes
  import opened VolumeWindow
  import opened FatTable
  import opened Chains
  import opened Allocator
  import opened Layout
  import opened FileStore
  import opened FileApi
  import FastSeek

  /** The cluster number of a sector of the file, computed by division, is its quotient. */
  lemma IndexIs(f: File, t: nat)
    requires f.Valid() && 0 < t <= f.objsize
    ensures var q := (t - 1) / SS;
      && q < |f.St().s| && Quo(q, f.vol.g.csize) < |f.chain|
      && FastSeek.IndexOf(t - 1, f.vol.g.csize) == Quo(q, f.vol.g.csize) && q % f.vol.g.csize == Rem(q, f.vol.g.csize)
  {
    hide Fat, Volume.View, Sectors, Sound, Sane, IsChain, Quo, Rem;
    var q, b := (t - 1) / SS, f.vol.g.csize;
    SectorAt(f.vol.g, f.chain, q);
    QuoRemAre(q, b);
    Small(q, b);
  }

  lemma Small(q: nat, b: nat)
    requires b > 0 && q < DWORD
    ensures q / b % DWORD == q / b
  {
    assert q == q / b * b + q % b;
    MulGrows(1, b, q / b);
    SmallMod(q / b, DWORD);
  }

  /** A cursor position says which cluster, and inside a sector which sector, a valid file is at;
      so a seek by the table and a seek by the FAT to the same place agree. */
  lemma SamePlace(g: Geometry, chain: seq<nat>, fptr: nat, clust: nat, sect: nat, clust': nat, sect': nat)
    requires g.csize > 0 && Placed(g, chain, fptr, clust, sect) && Placed(g, chain, fptr, clust', sect')
    ensures (fptr > 0 ==> clust == clust') && (fptr % SS != 0 ==> sect == sect')
  {
  }

  /** The cursor goes to the offset, cut at the end of the file; what it then says of cluster and
      cached sector is what every valid file says, and the contents stay. */
  method Seek(f: File, tbl: array<nat>, ofs: nat)
    requires f.Valid() && tbl.Length > 1 && FastSeek.LinkMap(f.chain) <= tbl[1..]
    modifies f, f.buf, f.vol`disk
    ensures f.Valid() && f.fptr == if ofs > old(f.objsize) then old(f.objsize) else ofs
    ensures f.objsize == old(f.objsize) && f.chain == old(f.chain) && f.Bytes() == old(f.Bytes())
    ensures StateOf(f.vol) == old(StateOf(f.vol)) && Confined(f.vol.g, old(f.vol.View()), f.vol.View(), f.chain)
  {
    hide Fat, Volume.Valid, Volume.View, Geometry.Valid, Sectors, Sound, Sane, IsChain, Quo, Rem, ChainOk, Overwrites,
         Confined, FastSeek.LinkMap, FastSeek.Lookup, FastSeek.IndexOf;
    ghost var a, size := f.St(), f.objsize;
    var b := f.vol.g.csize;
    var t := if ofs > f.objsize then f.objsize else ofs;
    OverwritesNothing(f.vol.g, a, t, size);
    SameConfined(f.vol.g, a.v, f.chain);
    if t == 0 {
      f.fptr := 0;
      return;
    }
    IndexIs(f, t);
    ghost var q := (t - 1) / SS;
    var cl := FastSeek.ClusterAt(tbl, t - 1, b, f.chain);
    f.fptr := t;
    f.clust := cl;
    if t % SS != 0 {
      assert t / SS == q;
      var dsc := f.Here((t - 1) / SS % b, q);
      f.LoadSector(dsc, q);
    }
    SameContent(f.vol.g, a, f.St(), t, size);
  }
}
