/** The packed FAT: entries of 12, 16, 28 (or, on exFAT, 31) bits seen through the window
    are a plain sequence of numbers. */
module FatTable {
  import opened Arithmetic
  import opened Bytes
  import opened VolumeWindow

  datatype FResult = FrOk | FrIntErr

  // ---- The format, over the bytes of one FAT copy

  /** Offset of the first byte of entry c. */
  function EntryPos(t: FsType, c: nat): nat {
    match t
    case Fat12 => c + c / 2
    case Fat16 => 2 * c
    case Fat32 => 4 * c
    case ExFat => 4 * c
  }

  /** The 32-bit cell of entry c. */
  function Cell(b: seq<byte>, c: nat): nat
    requires 4 * c + 3 < |b|
  {
    Dword(b[4 * c], b[4 * c + 1], b[4 * c + 2], b[4 * c + 3])
  }

  /** The 12-bit entry c within its two bytes: an odd entry takes the upper, an even one the lower bits. */
  function Entry12(c: nat, lo: byte, hi: byte): nat {
    if c % 2 == 1 then Word(lo, hi) / 16 else Word(lo, hi) % 0x1000
  }

  /** Entry c as the FAT specification defines it. */
  function Entry(t: FsType, b: seq<byte>, c: nat): nat
    requires FatBytes(t, c + 1) <= |b|
  {
    match t
    case Fat12 => Entry12(c, b[c + c / 2], b[c + c / 2 + 1])
    case Fat16 => Word(b[2 * c], b[2 * c + 1])
    case Fat32 => Cell(b, c) % 0x10000000
    case ExFat => Cell(b, c) % 0x80000000
  }

  /** A value cut to the width of an entry. */
  function Cut(t: FsType, val: nat): nat {
    match t
    case Fat12 => val % 0x1000
    case Fat16 => val % 0x10000
    case Fat32 => val % 0x10000000
    case ExFat => val % 0x80000000
  }

  /** The first n entries as a plain map from cluster number to value. */
  ghost function Entries(t: FsType, b: seq<byte>, n: nat): (f: seq<nat>)
    requires FatBytes(t, n) <= |b|
    ensures |f| == n
    ensures forall c | 0 <= c < n :: f[c] == Entry(t, b, c)
  {
    seq(n, c requires 0 <= c < n => Entry(t, b, c))
  }

  /** New first and second byte of a 12-bit entry, from the old byte in that place. */
  function Low12(c: nat, old1: byte, val: nat): byte {
    if c % 2 == 1 then old1 % 16 + 16 * (val % 16) else val % 256
  }

  function High12(c: nat, old2: byte, val: nat): byte {
    if c % 2 == 1 then val / 16 % 256 else old2 / 16 * 16 + val / 256 % 16
  }

  /** The two new bytes hold the new entry. */
  lemma Nibbles(c: nat, b1: byte, b2: byte, val: nat)
    ensures Entry12(c, Low12(c, b1, val), High12(c, b2, val)) == val % 0x1000
  {
    var lo, hi := Low12(c, b1, val), High12(c, b2, val);
    Shared12(lo, hi);
    Split12(val);
    hide Word;
    if c % 2 == 1 {
      Quotient16(lo, val % 16, b1 % 16);
    } else {
      Quotient16(hi, b2 / 16, val / 256 % 16);
    }
  }

  lemma Rest12(val: nat, q: nat, r: nat)
    requires val == 0x1000 * q + r && r < 0x1000
    ensures val % 0x1000 == r
  {
  }

  lemma Quotient16(val: nat, q: nat, r: nat)
    requires val == 16 * q + r && r < 16
    ensures val / 16 == q && val % 16 == r
  {
  }

  lemma Split12(val: nat)
    ensures val % 0x1000 == val % 16 + 16 * (val / 16 % 256)
    ensures val % 0x1000 == val % 256 + 256 * (val / 256 % 16)
  {
    var a, b := val / 16, val / 256;
    Rest12(val, a / 256, 16 * (a % 256) + val % 16);
    Rest12(val, b / 16, 256 * (b % 16) + val % 256);
  }

  /** A 12-bit entry depends on a byte shared with a neighbour only through its own nibble. */
  lemma Shared12(lo: byte, hi: byte)
    ensures Word(lo, hi) / 16 == lo / 16 + 16 * hi
    ensures Word(lo, hi) % 0x1000 == lo + 256 * (hi % 16)
  {
    Quotient16(Word(lo, hi), lo / 16 + 16 * hi, lo % 16);
    Rest12(Word(lo, hi), hi / 16, lo + 256 * (hi % 16));
  }

  lemma Within12(c: nat, n: nat, size: nat)
    requires c < n && FatBytes(Fat12, n) <= size
    ensures c + c / 2 + 1 < size
  {
  }

  /** The bytes after a 12-bit entry has been stored. */
  function Store12(b: seq<byte>, c: nat, val: nat): (b': seq<byte>)
    requires c + c / 2 + 1 < |b|
    ensures |b'| == |b|
  {
    var k := c + c / 2;
    b[k := Low12(c, b[k], val)][k + 1 := High12(c, b[k + 1], val)]
  }

  /** The byte shared with a neighbour keeps the neighbour's nibble. */
  lemma LeftNeighbour(c: nat, d: nat, lo: byte, shared: byte, val: nat)
    requires c % 2 == 1 && d + 1 == c
    ensures Entry12(d, lo, Low12(c, shared, val)) == Entry12(d, lo, shared)
  {
    Shared12(lo, shared);
    Shared12(lo, Low12(c, shared, val));
  }

  lemma RightNeighbour(c: nat, d: nat, shared: byte, hi: byte, val: nat)
    requires c % 2 == 0 && d == c + 1
    ensures Entry12(d, High12(c, shared, val), hi) == Entry12(d, shared, hi)
  {
    Shared12(shared, hi);
    Shared12(High12(c, shared, val), hi);
  }

  lemma Other12(b: seq<byte>, c: nat, d: nat, val: nat)
    requires FatBytes(Fat12, c + 1) <= |b| && FatBytes(Fat12, d + 1) <= |b| && c != d
    ensures Entry(Fat12, Store12(b, c, val), d) == Entry(Fat12, b, d)
  {
    hide Entry12, Low12, High12;
    var b' := Store12(b, c, val);
    var k, m := c + c / 2, d + d / 2;
    if d == c + 1 && c % 2 == 0 {
      RightNeighbour(c, d, b[m], b[m + 1], val);
      assert m == k + 1;
    } else if c == d + 1 && c % 2 == 1 {
      LeftNeighbour(c, d, b[m], b[k], val);
      assert k == m + 1;
    } else {
      assert m + 1 < k || k + 1 < m;
    }
  }

  lemma Own12(b: seq<byte>, c: nat, val: nat)
    requires FatBytes(Fat12, c + 1) <= |b|
    ensures Entry(Fat12, Store12(b, c, val), c) == val % 0x1000
  {
    var k := c + c / 2;
    Nibbles(c, b[k], b[k + 1], val);
    hide Entry12, Low12, High12;
  }

  /** Rewriting the two bytes of a 12-bit entry changes that entry alone, although
      its neighbours share a byte with it. */
  lemma Put12(b: seq<byte>, n: nat, c: nat, val: nat)
    requires FatBytes(Fat12, n) <= |b| && c < n
    ensures Entries(Fat12, Store12(b, c, val), n) == Entries(Fat12, b, n)[c := val % 0x1000]
  {
    hide Entry, Store12;
    Own12(b, c, val);
    forall d | 0 <= d < n && d != c
      ensures Entry(Fat12, Store12(b, c, val), d) == Entry(Fat12, b, d)
    {
      Other12(b, c, d, val);
    }
  }

  /** The cells of 16 and 32 bits never straddle two sectors. */
  lemma CellPlace(c: nat, size: nat)
    requires 4 * c + 3 < size * SS
    ensures 4 * c / SS == (4 * c + 1) / SS == (4 * c + 2) / SS == (4 * c + 3) / SS == c / 128 < size
  {
    assert 4 * c == SS * (c / 128) + 4 * (c % 128);
  }

  lemma WordPlace(c: nat, size: nat)
    requires 2 * c + 1 < size * SS
    ensures 2 * c / SS == (2 * c + 1) / SS == c / 256 < size
  {
    assert 2 * c == SS * (c / 256) + 2 * (c % 256);
  }

  lemma Put16(b: seq<byte>, n: nat, c: nat, val: nat)
    requires 2 * n <= |b| && c < n
    ensures Entries(Fat16, b[2 * c := val % 256][2 * c + 1 := val / 256 % 256], n)
         == Entries(Fat16, b, n)[c := val % 0x10000]
  {
    assert val % 256 + 256 * (val / 256 % 256) == val % 0x10000;
  }

  /** The bytes after a 32-bit cell has been stored. */
  function StoreBytes(b: seq<byte>, c: nat, x: nat): (b': seq<byte>)
    requires 4 * c + 3 < |b| && x < DWORD
    ensures |b'| == |b|
  {
    var d := DwordBytes(x);
    b[4 * c := d[0]][4 * c + 1 := d[1]][4 * c + 2 := d[2]][4 * c + 3 := d[3]]
  }

  lemma StoredCells(b: seq<byte>, n: nat, c: nat, x: nat)
    requires 4 * n <= |b| && c < n && x < DWORD
    ensures Cell(StoreBytes(b, c, x), c) == x
    ensures forall d | 0 <= d < n && d != c :: Cell(StoreBytes(b, c, x), d) == Cell(b, d)
  {
  }

  /** Storing a cell changes one entry; on FAT32 the stored value is made so that the
      top four bits stay. */
  lemma Put32(t: FsType, b: seq<byte>, n: nat, c: nat, x: nat)
    requires (t == Fat32 || t == ExFat) && 4 * n <= |b| && c < n && x < DWORD
    ensures Entries(t, StoreBytes(b, c, x), n) == Entries(t, b, n)[c := Cut(t, x)]
    ensures x / 0x10000000 == Cell(b, c) / 0x10000000 ==>
      forall d | 0 <= d < n :: Cell(StoreBytes(b, c, x), d) / 0x10000000 == Cell(b, d) / 0x10000000
  {
    StoredCells(b, n, c, x);
  }

  /** The value put_fat stores in a FAT32 cell. */
  function Keep4(cell: nat, val: nat): (x: nat)
    requires cell < DWORD
    ensures x < DWORD && x % 0x10000000 == val % 0x10000000 && x / 0x10000000 == cell / 0x10000000
  {
    val % 0x10000000 + cell / 0x10000000 * 0x10000000
  }

  // ---- The FAT of a volume

  /** All bytes of the first FAT. */
  ghost function FatImage(g: Geometry, v: seq<Sector>): (b: seq<byte>)
    requires g.Valid() && |v| == g.nSectors
    ensures |b| == g.fsize * SS
  {
    seq(g.fsize * SS, k requires 0 <= k < g.fsize * SS => v[g.fatbase + k / SS][k % SS])
  }

  ghost function Fat(g: Geometry, v: seq<Sector>): (f: seq<nat>)
    requires g.Valid() && |v| == g.nSectors
    ensures |f| == g.nFatent
  {
    Entries(g.fsType, FatImage(g, v), g.nFatent)
  }

  /** Sectors outside both FAT copies are the same. */
  ghost predicate SameOutsideFat(g: Geometry, v: seq<Sector>, w: seq<Sector>)
    requires |v| == |w| == g.nSectors
  {
    forall s | 0 <= s < g.nSectors && !g.InFat1(s) && !g.InFat2(s) :: v[s] == w[s]
  }

  /** Sectors outside the first FAT do not matter to its entries. */
  lemma SameFat(g: Geometry, v: seq<Sector>, w: seq<Sector>)
    requires g.Valid() && |v| == |w| == g.nSectors
    requires forall s: nat | g.InFat1(s) :: v[s] == w[s]
    ensures Fat(g, v) == Fat(g, w)
  {
    hide Entries;
    assert FatImage(g, v) == FatImage(g, w);
  }

  lemma SameTrans(g: Geometry, u: seq<Sector>, v: seq<Sector>, w: seq<Sector>)
    requires |u| == |v| == |w| == g.nSectors && SameOutsideFat(g, u, v) && SameOutsideFat(g, v, w)
    ensures SameOutsideFat(g, u, w)
  {
  }

  lemma PokeSetsByte(g: Geometry, v: seq<Sector>, k: nat, x: byte)
    requires g.Valid() && |v| == g.nSectors && k < g.fsize * SS
    ensures var s := g.fatbase + k / SS;
      var w := Reflected(g, v, s, v[s][k % SS := x]);
      FatImage(g, w) == FatImage(g, v)[k := x] && SameOutsideFat(g, v, w)
  {
    var s := g.fatbase + k / SS;
    var w := Reflected(g, v, s, v[s][k % SS := x]);
    var b, b' := FatImage(g, v), FatImage(g, w);
    forall j | 0 <= j < g.fsize * SS && j != k ensures b'[j] == b[j] {
      if j / SS == k / SS {
        assert j % SS != k % SS;
      }
    }
  }

  /** Writes byte k of the FAT through the window, which is already in place. */
  method PokeFat(vol: Volume, k: nat, x: byte)
    requires vol.Valid() && k < vol.g.fsize * SS && vol.winsect == vol.g.fatbase + k / SS
    modifies vol`wflag, vol.win
    ensures vol.Valid()
    ensures FatImage(vol.g, vol.View()) == FatImage(vol.g, old(vol.View()))[k := x]
    ensures SameOutsideFat(vol.g, old(vol.View()), vol.View())
  {
    PokeSetsByte(vol.g, vol.View(), k, x);
    vol.Poke(k % SS, x);
  }

  /** Reads byte k of the FAT from the window, which is already in place. */
  method PeekAt(vol: Volume, k: nat) returns (x: byte)
    requires vol.Valid() && k < vol.g.fsize * SS && vol.winsect == vol.g.fatbase + k / SS
    ensures x == FatImage(vol.g, vol.View())[k]
  {
    x := vol.win[k % SS];
    assert x == vol.win[..][k % SS];
    assert vol.win[..] == vol.View()[vol.winsect];
  }

  /** Moves the window to byte k of the FAT and reads it. */
  method PeekFat(vol: Volume, k: nat) returns (x: byte)
    requires vol.Valid() && k < vol.g.fsize * SS
    modifies vol`disk, vol`wflag, vol`winsect, vol.win
    ensures vol.Valid() && vol.View() == old(vol.View())
    ensures vol.winsect == vol.g.fatbase + k / SS
    ensures x == FatImage(vol.g, vol.View())[k]
  {
    vol.MoveWindow(vol.g.fatbase + k / SS);
    x := PeekAt(vol, k);
  }

  /** Moves the window to the 32-bit cell of entry c and reads it. */
  method PeekCell(vol: Volume, c: nat) returns (x: nat)
    requires vol.Valid() && 4 * c + 3 < vol.g.fsize * SS
    modifies vol`disk, vol`wflag, vol`winsect, vol.win
    ensures vol.Valid() && vol.View() == old(vol.View())
    ensures vol.winsect == vol.g.fatbase + c / 128
    ensures x == Cell(FatImage(vol.g, vol.View()), c)
  {
    hide FatImage, Reflected;
    CellPlace(c, vol.g.fsize);
    vol.MoveWindow(vol.g.fatbase + c / 128);
    var b0 := PeekAt(vol, 4 * c);
    var b1 := PeekAt(vol, 4 * c + 1);
    var b2 := PeekAt(vol, 4 * c + 2);
    var b3 := PeekAt(vol, 4 * c + 3);
    x := Dword(b0, b1, b2, b3);
  }

  method PokeCell(vol: Volume, c: nat, x: nat)
    requires vol.Valid() && 4 * c + 3 < vol.g.fsize * SS && x < DWORD
    requires vol.winsect == vol.g.fatbase + c / 128
    modifies vol`wflag, vol.win
    ensures vol.Valid()
    ensures FatImage(vol.g, vol.View()) == StoreBytes(FatImage(vol.g, old(vol.View())), c, x)
    ensures SameOutsideFat(vol.g, old(vol.View()), vol.View())
  {
    hide FatImage, Reflected;
    var b := DwordBytes(x);
    CellPlace(c, vol.g.fsize);
    PokeFat(vol, 4 * c, b[0]);
    PokeFat(vol, 4 * c + 1, b[1]);
    PokeFat(vol, 4 * c + 2, b[2]);
    PokeFat(vol, 4 * c + 3, b[3]);
  }

  /** What put_fat promises: one entry replaced, every other entry and every sector outside
      the FAT kept, and the reserved top bits of every 32-bit cell kept on FAT32. */
  ghost predicate EntryPut(g: Geometry, v: seq<Sector>, w: seq<Sector>, c: nat, val: nat)
    requires g.Valid() && |v| == |w| == g.nSectors && c < g.nFatent
  {
    && Fat(g, w) == Fat(g, v)[c := Cut(g.fsType, val)]
    && SameOutsideFat(g, v, w)
    && (g.fsType == Fat32 ==>
          forall d | 0 <= d < g.nFatent ::
            Cell(FatImage(g, w), d) / 0x10000000 == Cell(FatImage(g, v), d) / 0x10000000)
  }

  method GetFat12(vol: Volume, clst: nat) returns (val: nat)
    requires vol.Valid() && vol.g.fsType == Fat12 && clst < vol.g.nFatent
    modifies vol`disk, vol`wflag, vol`winsect, vol.win
    ensures vol.Valid() && vol.View() == old(vol.View()) && vol.g.InFat1(vol.winsect)
    ensures val == Fat(vol.g, vol.View())[clst]
  {
    hide FatImage, Reflected;
    Within12(clst, vol.g.nFatent, vol.g.fsize * SS);
    var bc := clst + clst / 2;
    var lo := PeekFat(vol, bc);
    var hi := PeekFat(vol, bc + 1);
    hide Entry12;
    val := Entry12(clst, lo, hi);
  }

  method GetFat16(vol: Volume, clst: nat) returns (val: nat)
    requires vol.Valid() && vol.g.fsType == Fat16 && clst < vol.g.nFatent
    modifies vol`disk, vol`wflag, vol`winsect, vol.win
    ensures vol.Valid() && vol.View() == old(vol.View()) && vol.g.InFat1(vol.winsect)
    ensures val == Fat(vol.g, vol.View())[clst]
  {
    hide FatImage, Reflected;
    WordPlace(clst, vol.g.fsize);
    vol.MoveWindow(vol.g.fatbase + clst / 256);
    var lo := PeekAt(vol, 2 * clst);
    var hi := PeekAt(vol, 2 * clst + 1);
    val := Word(lo, hi);
  }

  /** Reading an entry of a FAT12/16/32 volume. Value 1 reports a cluster number out of range. */
  method GetFat(vol: Volume, clst: nat) returns (val: nat)
    requires vol.Valid() && vol.g.fsType != ExFat
    modifies vol`disk, vol`wflag, vol`winsect, vol.win
    ensures vol.Valid() && vol.View() == old(vol.View())
    ensures val == (if 2 <= clst < vol.g.nFatent then Fat(vol.g, vol.View())[clst] else 1)
    ensures vol.winsect == old(vol.winsect) || vol.g.InFat1(vol.winsect)
    ensures 2 <= clst < vol.g.nFatent ==> vol.g.InFat1(vol.winsect)
  {
    if clst < 2 || clst >= vol.g.nFatent {
      return 1;
    }
    match vol.g.fsType
    case Fat12 => val := GetFat12(vol, clst);
    case Fat16 => val := GetFat16(vol, clst);
    case Fat32 =>
      var cell := PeekCell(vol, clst);
      val := cell % 0x10000000;
  }

  /** The two read-modify-write steps of a 12-bit entry, which may lie in two sectors. */
  method Poke12(vol: Volume, clst: nat, bc: nat, val: nat)
    requires vol.Valid() && bc + 1 < vol.g.fsize * SS
    modifies vol`disk, vol`wflag, vol`winsect, vol.win
    ensures vol.Valid() && vol.g.InFat1(vol.winsect)
    ensures var b := FatImage(vol.g, old(vol.View()));
      FatImage(vol.g, vol.View()) == b[bc := Low12(clst, b[bc], val)][bc + 1 := High12(clst, b[bc + 1], val)]
    ensures SameOutsideFat(vol.g, old(vol.View()), vol.View())
  {
    hide FatImage, Reflected, Low12, High12;
    var p := PeekFat(vol, bc);
    PokeFat(vol, bc, Low12(clst, p, val));
    p := PeekFat(vol, bc + 1);
    PokeFat(vol, bc + 1, High12(clst, p, val));
  }

  method PutFat12(vol: Volume, clst: nat, val: nat)
    requires vol.Valid() && vol.g.fsType == Fat12 && clst < vol.g.nFatent
    modifies vol`disk, vol`wflag, vol`winsect, vol.win
    ensures vol.Valid() && vol.g.InFat1(vol.winsect)
    ensures EntryPut(vol.g, old(vol.View()), vol.View(), clst, val)
  {
    ghost var b := FatImage(vol.g, vol.View());
    hide FatImage, Reflected;
    Within12(clst, vol.g.nFatent, vol.g.fsize * SS);
    var bc := clst + clst / 2;
    Put12(b, vol.g.nFatent, clst, val);
    ghost var b' := Store12(b, clst, val);
    assert b' == b[bc := Low12(clst, b[bc], val)][bc + 1 := High12(clst, b[bc + 1], val)];
    Poke12(vol, clst, bc, val);
    assert FatImage(vol.g, vol.View()) == b';
  }

  method PutFat16(vol: Volume, clst: nat, val: nat)
    requires vol.Valid() && vol.g.fsType == Fat16 && clst < vol.g.nFatent
    modifies vol`disk, vol`wflag, vol`winsect, vol.win
    ensures vol.Valid() && vol.g.InFat1(vol.winsect)
    ensures EntryPut(vol.g, old(vol.View()), vol.View(), clst, val)
  {
    Put16(FatImage(vol.g, vol.View()), vol.g.nFatent, clst, val);
    hide FatImage, Reflected;
    WordPlace(clst, vol.g.fsize);
    vol.MoveWindow(vol.g.fatbase + clst / 256);
    PokeFat(vol, 2 * clst, val % 256);
    PokeFat(vol, 2 * clst + 1, val / 256 % 256);
  }

  /** The bytes of a stored cell, lowest first. If not all of it is stored, the upper half of the
      last byte stays. All other bytes stay. */
  ghost predicate CellWritten(b: seq<byte>, b': seq<byte>, c: nat, val: nat, all: bool) {
    && |b'| == |b| && 4 * c + 3 < |b|
    && b'[4 * c] == val % 256 && b'[4 * c + 1] == val / 256 % 256 && b'[4 * c + 2] == val / 65536 % 256
    && b'[4 * c + 3] == (if all then val / 16777216 else val / 16777216 % 16 + b[4 * c + 3] / 16 * 16)
    && forall k | 0 <= k < |b| && !(4 * c <= k < 4 * c + 4) :: b'[k] == b[k]
  }

  lemma StoredBytes(b: seq<byte>, c: nat, x: nat)
    requires 4 * c + 3 < |b| && x < DWORD
    ensures CellWritten(b, StoreBytes(b, c, x), c, x, true)
  {
    assert x / 256 / 256 == x / 65536 && x / 65536 / 256 == x / 16777216;
  }

  lemma KeptBytes(b: seq<byte>, c: nat, val: nat)
    requires 4 * c + 3 < |b| && val < DWORD
    ensures CellWritten(b, StoreBytes(b, c, Keep4(Cell(b, c), val)), c, val, false)
  {
    var cell := Cell(b, c);
    var x := Keep4(cell, val);
    StoredBytes(b, c, x);
    LowDigits(x, val, cell / 0x10000000);
    TopDigit(b[4 * c], b[4 * c + 1], b[4 * c + 2], b[4 * c + 3]);
  }

  /** Four digits to the base 256, the last one of any size, are determined by the number. */
  lemma FourDigits(v: nat, d0: nat, d1: nat, d2: nat, d3: nat)
    requires v == d0 + 256 * d1 + 65536 * d2 + 16777216 * d3 && d0 < 256 && d1 < 256 && d2 < 256
    ensures v % 256 == d0 && v / 256 % 256 == d1 && v / 65536 % 256 == d2 && v / 16777216 == d3
  {
    Digit(v, 256, d1 + 256 * d2 + 65536 * d3, d0);
    Digit(d1 + 256 * d2 + 65536 * d3, 256, d2 + 256 * d3, d1);
    Digit(d2 + 256 * d3, 256, d3, d2);
    Digit(v, 65536, d2 + 256 * d3, d0 + 256 * d1);
    Digit(v, 16777216, d3, d0 + 256 * d1 + 65536 * d2);
  }

  lemma Digit(v: nat, b: nat, q: nat, r: nat)
    requires b > 0 && v == q * b + r && r < b
    ensures v / b == q && v % b == r
  {
    DivUnique(v, b, q, r);
  }

  lemma LowDigits(x: nat, val: nat, h: nat)
    requires x == val % 0x10000000 + h * 0x10000000 && h < 16
    ensures x % 256 == val % 256 && x / 256 % 256 == val / 256 % 256 && x / 65536 % 256 == val / 65536 % 256
    ensures x / 16777216 == val / 16777216 % 16 + 16 * h
  {
    var v1 := val / 256;
    var v2 := v1 / 256;
    var t := v2 / 256;
    var d0, d1, d2 := val % 256, v1 % 256, v2 % 256;
    FourDigits(val, d0, d1, d2, t);
    Digit(val, 0x10000000, t / 16, d0 + 256 * d1 + 65536 * d2 + 16777216 * (t % 16));
    FourDigits(x, d0, d1, d2, t % 16 + 16 * h);
  }

  lemma TopDigit(b0: byte, b1: byte, b2: byte, b3: byte)
    ensures Dword(b0, b1, b2, b3) / 0x10000000 == b3 / 16
  {
  }

  lemma ImageAt(g: Geometry, v: seq<Sector>, k: nat, q: nat, r: nat)
    requires g.Valid() && |v| == g.nSectors && k < g.fsize * SS && k == SS * q + r && r < SS
    ensures g.fatbase + q < g.nSectors && FatImage(g, v)[k] == v[g.fatbase + q][r]
  {
  }

  /** The value of a FAT16 entry from the bytes of its sector, lowest first. */
  lemma Entry16OnDisk(g: Geometry, v: seq<Sector>, c: nat)
    requires g.Valid() && |v| == g.nSectors && c < g.nFatent && g.fsType == Fat16
    ensures g.fatbase + c / 256 < |v|
    ensures var x, i := v[g.fatbase + c / 256], 2 * (c % 256); Fat(g, v)[c] == x[i] as int + 256 * x[i + 1] as int
  {
    hide FatImage;
    ImageAt(g, v, 2 * c, c / 256, 2 * (c % 256));
    ImageAt(g, v, 2 * c + 1, c / 256, 2 * (c % 256) + 1);
  }

  /** The value of a FAT32 or exFAT entry from the bytes of its sector, lowest first. */
  lemma Entry32OnDisk(g: Geometry, v: seq<Sector>, c: nat)
    requires g.Valid() && |v| == g.nSectors && c < g.nFatent && (g.fsType == Fat32 || g.fsType == ExFat)
    ensures g.fatbase + c / 128 < |v|
    ensures var x, i := v[g.fatbase + c / 128], 4 * (c % 128);
      Fat(g, v)[c] == x[i] as int + 256 * x[i + 1] as int + 65536 * x[i + 2] as int
                      + 16777216 * (x[i + 3] as int % if g.fsType == Fat32 then 16 else 128)
  {
    hide FatImage;
    var i := 4 * (c % 128);
    ImageAt(g, v, 4 * c, c / 128, i);
    ImageAt(g, v, 4 * c + 1, c / 128, i + 1);
    ImageAt(g, v, 4 * c + 2, c / 128, i + 2);
    ImageAt(g, v, 4 * c + 3, c / 128, i + 3);
    var x := v[g.fatbase + c / 128];
    CellTop(x[i], x[i + 1], x[i + 2], x[i + 3]);
  }

  lemma CellTop(b0: byte, b1: byte, b2: byte, b3: byte)
    ensures Dword(b0, b1, b2, b3) % 0x10000000
         == b0 as int + 256 * b1 as int + 65536 * b2 as int + 16777216 * (b3 as int % 16)
    ensures Dword(b0, b1, b2, b3) % 0x80000000
         == b0 as int + 256 * b1 as int + 65536 * b2 as int + 16777216 * (b3 as int % 128)
  {
    var l := b0 as int + 256 * b1 as int + 65536 * b2 as int;
    Digit(Dword(b0, b1, b2, b3), 0x10000000, b3 as int / 16, l + 16777216 * (b3 as int % 16));
    Digit(Dword(b0, b1, b2, b3), 0x80000000, b3 as int / 128, l + 16777216 * (b3 as int % 128));
  }

  /** The value of a FAT12 entry from the byte and a half at p = 3 * c / 2: even entries have the
      lower half of the second byte above the first, odd ones the upper half of the first below
      the second. */
  lemma Entry12OnDisk(g: Geometry, v: seq<Sector>, c: nat)
    requires g.Valid() && |v| == g.nSectors && c < g.nFatent && g.fsType == Fat12
    ensures var p := 3 * c / 2;
      && g.fatbase + (p + 1) / SS < |v|
      && var lo, hi := v[g.fatbase + p / SS][p % SS] as int, v[g.fatbase + (p + 1) / SS][(p + 1) % SS] as int;
      Fat(g, v)[c] == if c % 2 == 0 then lo + 256 * (hi % 16) else lo / 16 + 16 * hi
  {
    hide FatImage;
    var p := 3 * c / 2;
    Within12(c, g.nFatent, g.fsize * SS);
    ImageAt(g, v, p, p / SS, p % SS);
    ImageAt(g, v, p + 1, (p + 1) / SS, (p + 1) % SS);
    Halves(v[g.fatbase + p / SS][p % SS], v[g.fatbase + (p + 1) / SS][(p + 1) % SS]);
  }

  lemma Halves(lo: byte, hi: byte)
    ensures Word(lo, hi) % 0x1000 == lo as int + 256 * (hi as int % 16)
    ensures Word(lo, hi) / 16 == lo as int / 16 + 16 * hi as int
  {
    Digit(Word(lo, hi), 0x1000, hi as int / 16, lo as int + 256 * (hi as int % 16));
    Digit(Word(lo, hi), 16, lo as int / 16 + 16 * hi as int, lo as int % 16);
  }

  method PutFat32(vol: Volume, clst: nat, val: nat)
    requires vol.Valid() && (vol.g.fsType == Fat32 || vol.g.fsType == ExFat) && clst < vol.g.nFatent && val < DWORD
    modifies vol`disk, vol`wflag, vol`winsect, vol.win
    ensures vol.Valid() && vol.g.InFat1(vol.winsect)
    ensures EntryPut(vol.g, old(vol.View()), vol.View(), clst, val)
    ensures CellWritten(FatImage(vol.g, old(vol.View())), FatImage(vol.g, vol.View()), clst, val, vol.g.fsType == ExFat)
  {
    hide FatImage, Reflected, Keep4;
    ghost var b := FatImage(vol.g, vol.View());
    var x := val;
    var cell := PeekCell(vol, clst);
    if vol.g.fsType != ExFat {
      x := Keep4(cell, val);
    }
    PokeCell(vol, clst, x);
    Put32(vol.g.fsType, b, vol.g.nFatent, clst, x);
    StoredBytes(b, clst, x);
    if vol.g.fsType != ExFat {
      KeptBytes(b, clst, val);
    }
  }

  /** Changing an entry. */
  method PutFat(vol: Volume, clst: nat, val: nat) returns (res: FResult)
    requires vol.Valid() && val < DWORD
    modifies vol`disk, vol`wflag, vol`winsect, vol.win
    ensures vol.Valid()
    ensures res == (if 2 <= clst < vol.g.nFatent then FrOk else FrIntErr)
    ensures res == FrOk ==>
      EntryPut(vol.g, old(vol.View()), vol.View(), clst, val) && vol.g.InFat1(vol.winsect)
    ensures res == FrOk ==>
      Fat(vol.g, vol.View())[clst] == val % match vol.g.fsType
                                           case Fat12 => 0x1000
                                           case Fat16 => 0x10000
                                           case Fat32 => 0x10000000
                                           case ExFat => 0x80000000
    ensures res != FrOk ==> vol.View() == old(vol.View()) && vol.winsect == old(vol.winsect)
  {
    if clst < 2 || clst >= vol.g.nFatent {
      return FrIntErr;
    }
    res := FrOk;
    match vol.g.fsType {
      case Fat12 => PutFat12(vol, clst, val);
      case Fat16 => PutFat16(vol, clst, val);
      case Fat32 => PutFat32(vol, clst, val);
      case ExFat => PutFat32(vol, clst, val);
    }
  }
}
