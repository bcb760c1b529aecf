/** The mounted volume: geometry, the sector array behind it, and the single write-back
    window through which every FAT and bitmap sector is accessed. */
module VolumeWindow {
  import opened Bytes

  datatype FsType = Fat12 | Fat16 | Fat32 | ExFat

  /** Largest number of clusters of each format. */
  function MaxClusters(t: FsType): nat {
    match t
    case Fat12 => 0xFF5
    case Fat16 => 0xFFF5
    case Fat32 => 0x0FFFFFF5
    case ExFat => 0x7FFFFFFD
  }

  /** Bytes a FAT with n entries occupies. */
  function FatBytes(t: FsType, n: nat): nat {
    match t
    case Fat12 => n * 3 / 2 + n % 2
    case Fat16 => n * 2
    case Fat32 => n * 4
    case ExFat => n * 4
  }

  /** The fields of the filesystem object that never change after mounting. */
  datatype Geometry = Geometry(
    fsType: FsType, mirror: bool, csize: nat, nFatent: nat,
    fsize: nat, fatbase: nat, database: nat, nSectors: nat)
  {
    /** First sector of cluster c, written without multiplication. */
    ghost function ClusterBase(c: nat): (s: nat)
      ensures s >= database
    {
      if c <= 2 then database else ClusterBase(c - 1) + csize
    }

    /** What mounting has checked, together with the layout FAT < data area < end of disk. */
    ghost predicate Valid()
      ensures Valid() ==> csize > 0 && 3 <= nFatent && fatbase + fsize <= database
    {
      && (fsType == ExFat ==> !mirror)
      && csize > 0
      && 3 <= nFatent <= MaxClusters(fsType) + 2
      && FatBytes(fsType, nFatent) <= fsize * SS
      && 0 < fatbase && fatbase + fsize <= database && (mirror ==> fatbase + 2 * fsize <= database)
      && ClusterBase(nFatent) <= nSectors <= ALL_ONES
    }

    predicate InFat1(s: nat) { fatbase <= s < fatbase + fsize }

    predicate InFat2(s: nat) { mirror && fatbase + fsize <= s < fatbase + 2 * fsize }
  }

  /** The disk after sector s has been written, a sector of the first FAT being
      reflected to the second one. */
  ghost function Reflected(g: Geometry, d: seq<Sector>, s: nat, data: Sector): (r: seq<Sector>)
    requires g.Valid() && |d| == g.nSectors && s < |d|
    ensures |r| == |d|
  {
    if g.InFat1(s) && g.mirror then d[s := data][s + g.fsize := data] else d[s := data]
  }

  /** Both copies of the FAT hold the same bytes. */
  ghost predicate Mirrored(g: Geometry, d: seq<Sector>)
    requires g.Valid() && |d| == g.nSectors
  {
    g.mirror ==> forall s: nat | g.InFat1(s) :: d[s] == d[s + g.fsize]
  }

  class Volume {
    const g: Geometry
    const win: array<byte>
    var disk: seq<Sector>
    var winsect: nat
    var wflag: bool
    var lastClst: nat
    var freeClst: nat

    ghost predicate Shaped()
      reads this
    {
      g.Valid() && win.Length == SS && |disk| == g.nSectors && lastClst <= ALL_ONES && freeClst <= ALL_ONES
    }

    /** What the disk holds once the window is written back. */
    ghost function View(): (v: seq<Sector>)
      requires Shaped()
      reads this, win
      ensures |v| == g.nSectors
    {
      if winsect < g.nSectors then Reflected(g, disk, winsect, win[..]) else disk
    }

    ghost predicate Valid()
      reads this, win
      ensures Valid() ==> Shaped()
    {
      && Shaped()
      && (winsect < g.nSectors || winsect == ALL_ONES)
      && (wflag ==> winsect < g.nSectors && !g.InFat2(winsect))
      && (!wflag ==> View() == disk)
      && Mirrored(g, disk)
    }

    /** A freshly mounted volume: the window holds nothing. */
    constructor (geometry: Geometry, sectors: seq<Sector>)
      requires geometry.Valid() && |sectors| == geometry.nSectors && Mirrored(geometry, sectors)
      ensures Valid() && fresh(win) && g == geometry && disk == sectors && View() == sectors
      ensures freeClst == ALL_ONES && lastClst == ALL_ONES && winsect == ALL_ONES
    {
      g := geometry;
      win := new byte[SS](_ => 0);
      disk := sectors;
      winsect := ALL_ONES;
      wflag := false;
      lastClst, freeClst := ALL_ONES, ALL_ONES;
    }

    method SyncWindow()
      requires Valid()
      modifies this`disk, this`wflag
      ensures Valid() && !wflag
      ensures View() == old(View()) && disk == View()
    {
      if wflag {
        disk := disk[winsect := win[..]];
        wflag := false;
        if Sub32(winsect, g.fatbase) < g.fsize {
          if g.mirror {
            disk := disk[winsect + g.fsize := win[..]];
          }
        }
      }
    }

    method MoveWindow(sector: nat)
      requires Valid() && sector < g.nSectors
      modifies this`disk, this`wflag, this`winsect, win
      ensures Valid() && winsect == sector
      ensures View() == old(View()) && win[..] == View()[sector]
      ensures sector != old(winsect) ==> disk == View() && !wflag
      ensures sector == old(winsect) ==> disk == old(disk) && wflag == old(wflag)
    {
      if sector != winsect {
        SyncWindow();
        ghost var v := View();
        forall i | 0 <= i < SS { win[i] := disk[sector][i]; }
        assert win[..] == disk[sector];
        winsect := sector;
        assert View() == disk;
      }
    }

    /** Stores one byte in the window and marks it dirty. */
    method Poke(off: nat, x: byte)
      requires Valid() && off < SS && winsect < g.nSectors && !g.InFat2(winsect)
      modifies this`wflag, win
      ensures Valid() && wflag
      ensures win[..] == old(win[..])[off := x]
      ensures View() == Reflected(g, old(View()), winsect, old(View()[winsect])[off := x])
    {
      win[off] := x;
      wflag := true;
      assert win[..] == old(win[..])[off := x];
    }

    /** Records the allocation hints. */
    method SetHints(free: nat, last: nat)
      requires Valid() && free <= ALL_ONES && last <= ALL_ONES
      modifies this`freeClst, this`lastClst
      ensures Valid() && View() == old(View()) && freeClst == free && lastClst == last
    {
      freeClst, lastClst := free, last;
    }

    /** Low-level write of one data sector, past the window. */
    method WriteSector(s: nat, data: Sector)
      requires Valid() && g.database <= s < g.nSectors && s != winsect
      modifies this`disk
      ensures Valid() && View() == old(View())[s := data]
    {
      disk := disk[s := data];
    }

    /** Low-level read of one data sector, past the window. */
    method ReadSector(s: nat) returns (data: Sector)
      requires Valid() && g.database <= s < g.nSectors && s != winsect
      ensures data == View()[s]
    {
      data := disk[s];
    }
  }
}
