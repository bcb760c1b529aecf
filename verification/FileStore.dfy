/** A file's bytes as they are spread over disk sectors and the one-sector cache of the
    file object, and what flushing, loading, patching and direct transfers do to them. */
module FileStore {
  import opened Bytes
  import opened VolumeWindow
  import opened Layout

  /** The private sector buffer of a file object. */
  datatype Cache = Cache(buf: Sector, sect: nat, dirty: bool)

  /** Disk contents, the file's sectors in order, and the cache. */
  datatype Store = Store(v: seq<Sector>, s: seq<nat>, c: Cache)

  ghost predicate Sane(g: Geometry, st: Store) {
    && |st.v| == g.nSectors
    && Storage(g, st.s)
    && (st.c.dirty ==> st.c.sect in st.s)
    && (!st.c.dirty && st.c.sect in st.s ==> st.c.sect < |st.v| && st.c.buf == st.v[st.c.sect])
  }

  /** Sector q of the file: the cached copy if it is newer. */
  ghost function Held(st: Store, q: nat): Sector
    requires q < |st.s| && st.s[q] < |st.v|
  {
    if st.c.dirty && st.s[q] == st.c.sect then st.c.buf else st.v[st.s[q]]
  }

  ghost predicate Covers(g: Geometry, st: Store, size: nat) {
    Sane(g, st) && size <= SS * |st.s|
  }

  ghost function ByteAt(g: Geometry, st: Store, p: nat): byte
    requires Sane(g, st) && p < SS * |st.s|
  {
    Held(st, p / SS)[p % SS]
  }

  /** The file as a byte string. */
  ghost function Content(g: Geometry, st: Store, size: nat): (b: seq<byte>)
    requires Covers(g, st, size)
    ensures |b| == size
  {
    seq(size, p requires 0 <= p < size => ByteAt(g, st, p))
  }

  /** b holds d from position at on and otherwise the first `size` bytes of a. */
  ghost predicate Overwrites(g: Geometry, a: Store, b: Store, at: nat, d: seq<byte>, size: nat) {
    && Covers(g, a, size) && Sane(g, b) && at <= size
    && |a.s| <= |b.s| && at + |d| <= SS * |b.s|
    && (forall p | at <= p < at + |d| :: ByteAt(g, b, p) == d[p - at])
    && (forall p | 0 <= p < size && !(at <= p < at + |d|) :: ByteAt(g, b, p) == ByteAt(g, a, p))
  }

  lemma OverwritesNothing(g: Geometry, a: Store, at: nat, size: nat)
    requires Covers(g, a, size) && at <= size
    ensures Overwrites(g, a, a, at, [], size)
  {
  }

  lemma OverwritesCovers(g: Geometry, a: Store, b: Store, at: nat, d: seq<byte>, size: nat)
    requires Overwrites(g, a, b, at, d, size)
    ensures Covers(g, b, if at + |d| > size then at + |d| else size)
  {
  }

  /** A run of consecutive sectors of the file lies in the data area. */
  lemma RunInData(g: Geometry, st: Store, q: nat, x: nat, cc: nat)
    requires Sane(g, st) && 0 < cc && q + cc <= |st.s|
    requires forall r | q <= r < q + cc :: st.s[r] == x + (r - q)
    ensures g.database <= x && x + cc <= g.nSectors
  {
    assert st.s[q] == x && st.s[q + cc - 1] == x + (cc - 1);
  }

  lemma InData(g: Geometry, st: Store, q: nat)
    requires Sane(g, st) && q < |st.s|
    ensures g.database <= st.s[q] < g.nSectors == |st.v|
  {
  }

  /** Two writes, one behind the other, are one write. */
  lemma OverwritesThen(g: Geometry, a: Store, b: Store, c: Store, at: nat, d: seq<byte>, e: seq<byte>, size: nat)
    requires Overwrites(g, a, b, at, d, size)
    requires Overwrites(g, b, c, at + |d|, e, if at + |d| > size then at + |d| else size)
    ensures Overwrites(g, a, c, at, d + e, size)
  {
    hide Sane, ByteAt;
  }

  /** A step that keeps the bytes may precede a write. */
  lemma OverwritesAfter(g: Geometry, a: Store, b: Store, c: Store, at: nat, e: seq<byte>, size: nat)
    requires Overwrites(g, a, b, at, [], size) && Overwrites(g, b, c, at, e, size)
    ensures Overwrites(g, a, c, at, e, size)
  {
    OverwritesThen(g, a, b, c, at, [], e, size);
    assert [] + e == e;
  }

  // ---- The abstract file: a byte string and a cursor

  /** The byte string c is b with d written at position at. */
  ghost predicate Spliced(b: seq<byte>, at: nat, d: seq<byte>, c: seq<byte>) {
    && at <= |b| && |c| == (if at + |d| > |b| then at + |d| else |b|)
    && forall p | 0 <= p < |c| :: c[p] == if at <= p < at + |d| then d[p - at] else b[p]
  }

  /** What an overwrite means for the byte string. */
  lemma OverwrittenContent(g: Geometry, a: Store, b: Store, at: nat, d: seq<byte>, size: nat)
    requires Overwrites(g, a, b, at, d, size)
    ensures var n := if at + |d| > size then at + |d| else size;
      && Covers(g, b, n)
      && (at <= size ==> Spliced(Content(g, a, size), at, d, Content(g, b, n)))
  {
    hide Sane, ByteAt;
  }

  /** The two stores hold the same sectors. */
  ghost predicate SameSectors(a: Store, b: Store) {
    && |a.s| <= |b.s|
    && forall q | 0 <= q < |a.s| ::
         a.s[q] < |a.v| && b.s[q] < |b.v| && Held(b, q) == Held(a, q)
  }

  lemma SameSectorsSameBytes(g: Geometry, a: Store, b: Store, at: nat, size: nat)
    requires Covers(g, a, size) && Sane(g, b) && SameSectors(a, b) && at <= size
    ensures Overwrites(g, a, b, at, [], size)
  {
    hide Held;
  }

  /** Writing the dirty buffer back changes nothing in the file. */
  lemma FlushKeeps(g: Geometry, a: Store)
    requires Sane(g, a) && a.c.dirty
    ensures a.c.sect < |a.v|
    ensures var b := Store(a.v[a.c.sect := a.c.buf], a.s, a.c.(dirty := false)); Sane(g, b) && SameSectors(a, b)
  {
  }

  /** So does loading any sector into a clean buffer. */
  lemma LoadKeeps(g: Geometry, a: Store, x: nat)
    requires Sane(g, a) && !a.c.dirty && x < |a.v|
    ensures var b := Store(a.v, a.s, Cache(a.v[x], x, false)); Sane(g, b) && SameSectors(a, b)
  {
  }

  /** The allocator changes no data sector, and the list may grow at its end. */
  lemma GrowKeeps(g: Geometry, a: Store, v: seq<Sector>, s: seq<nat>)
    requires Sane(g, a) && |v| == |a.v| && Storage(g, s) && a.s <= s
    requires forall x | g.database <= x < g.nSectors :: v[x] == a.v[x]
    requires a.c.sect in a.s || a.c.sect == 0
    requires g.database > 0
    ensures var b := Store(v, s, a.c); Sane(g, b) && SameSectors(a, b)
  {
    forall q | 0 <= q < |s| && s[q] == a.c.sect && !a.c.dirty ensures a.c.buf == v[a.c.sect] {
      assert a.c.sect in a.s;
    }
  }

  /** Part of a sector replaced. */
  ghost function Patched(b: Sector, off: nat, d: seq<byte>): Sector
    requires off + |d| <= SS
  {
    b[..off] + d + b[off + |d|..]
  }

  /** A partial sector put into the buffer that holds that sector. The buffer may hold stale
      bytes only where the file has none yet. */
  lemma PatchWrites(g: Geometry, a: Store, q: nat, off: nat, d: seq<byte>, stale: Sector, size: nat)
    requires Covers(g, a, size) && q < |a.s| && 0 < |d| && off + |d| <= SS && SS * q + off <= size
    requires a.c.dirty ==> a.c.sect == a.s[q]
    requires stale == Held(a, q) || (off == 0 && size <= SS * q)
    ensures Overwrites(g, a, Store(a.v, a.s, Cache(Patched(stale, off, d), a.s[q], true)), SS * q + off, d, size)
  {
    var b := Store(a.v, a.s, Cache(Patched(stale, off, d), a.s[q], true));
    assert Sane(g, b);
    forall p | SS * q + off <= p < SS * q + off + |d| ensures ByteAt(g, b, p) == d[p - (SS * q + off)] {
      assert p / SS == q && p % SS == p - SS * q;
    }
    forall p | 0 <= p < size && !(SS * q + off <= p < SS * q + off + |d|) ensures ByteAt(g, b, p) == ByteAt(g, a, p) {
      if p / SS == q {
        assert p % SS == p - SS * q;
      } else {
        assert a.s[p / SS] != a.s[q];
      }
    }
  }

  /** Sector i of a run of data. */
  ghost function Chunk(d: seq<byte>, i: nat): Sector
    requires SS * i + SS <= |d|
  {
    d[SS * i..SS * i + SS]
  }

  /** v' is v after cc sectors of d have been written from sector x on. */
  ghost predicate WroteRun(v: seq<Sector>, v': seq<Sector>, x: nat, d: seq<byte>, cc: nat) {
    && |v'| == |v| && |d| == SS * cc && x + cc <= |v|
    && (forall y | x <= y < x + cc :: v'[y] == Chunk(d, y - x))
    && (forall y | 0 <= y < |v| && !(x <= y < x + cc) :: v'[y] == v[y])
  }

  /** The buffer after a direct write: refilled if its sector was among those written. */
  ghost function Refilled(c: Cache, x: nat, d: seq<byte>, cc: nat): Cache
    requires |d| == SS * cc
  {
    if x <= c.sect < x + cc then Cache(Chunk(d, c.sect - x), c.sect, false) else c
  }

  /** A direct multi-sector write of consecutive sectors of the file. */
  lemma DirectWrites(g: Geometry, a: Store, v: seq<Sector>, q: nat, x: nat, d: seq<byte>, cc: nat, size: nat)
    requires Covers(g, a, size) && !a.c.dirty && SS * q <= size && q + cc <= |a.s|
    requires forall r | q <= r < q + cc :: a.s[r] == x + (r - q)
    requires WroteRun(a.v, v, x, d, cc)
    ensures Overwrites(g, a, Store(v, a.s, Refilled(a.c, x, d, cc)), SS * q, d, size)
  {
    var b := Store(v, a.s, Refilled(a.c, x, d, cc));
    assert Sane(g, b);
    forall p | SS * q <= p < SS * q + |d| ensures ByteAt(g, b, p) == d[p - SS * q] {
      assert a.s[p / SS] == x + (p / SS - q);
    }
    forall p | 0 <= p < size && !(SS * q <= p < SS * q + |d|) ensures ByteAt(g, b, p) == ByteAt(g, a, p) {
      RunForeign(g, a, q, x, cc, p / SS);
    }
  }

  lemma RunForeign(g: Geometry, a: Store, q: nat, x: nat, cc: nat, r: nat)
    requires Sane(g, a) && q + cc <= |a.s| && r < |a.s| && !(q <= r < q + cc)
    requires forall r | q <= r < q + cc :: a.s[r] == x + (r - q)
    ensures !(x <= a.s[r] < x + cc)
  {
    forall i | q <= i < q + cc ensures a.s[i] != a.s[r] && a.s[i] == x + (i - q) {
    }
    OneOf(a.s[r], x, cc, q, a.s);
  }

  /** A number within a run is the value of some place of the run. */
  lemma OneOf(y: nat, x: nat, cc: nat, q: nat, s: seq<nat>)
    requires q + cc <= |s| && forall r | q <= r < q + cc :: s[r] == x + (r - q)
    ensures x <= y < x + cc ==> exists r | q <= r < q + cc :: s[r] == y
  {
    if x <= y < x + cc {
      assert s[q + (y - x)] == y;
    }
  }

  /** d is what the disk holds from sector x on. */
  ghost predicate ReadRunIs(v: seq<Sector>, x: nat, d: seq<byte>, cc: nat) {
    && |d| == SS * cc && x + cc <= |v|
    && (forall y | x <= y < x + cc :: Chunk(d, y - x) == v[y])
  }

  /** A direct read with the sector replaced that the dirty buffer holds in a newer version. */
  function Overlaid(c: Cache, x: nat, d: seq<byte>, cc: nat): (e: seq<byte>)
    requires |d| == SS * cc
    ensures |e| == |d|
  {
    if c.dirty && x <= c.sect < x + cc
    then d[..SS * (c.sect - x)] + c.buf + d[SS * (c.sect - x) + SS..]
    else d
  }

  /** Part of the file. */
  ghost predicate Slice(g: Geometry, st: Store, at: nat, e: seq<byte>) {
    && Sane(g, st) && at + |e| <= SS * |st.s|
    && forall p | at <= p < at + |e| :: e[p - at] == ByteAt(g, st, p)
  }

  lemma DirectReads(g: Geometry, st: Store, q: nat, x: nat, d: seq<byte>, cc: nat)
    requires Sane(g, st) && q + cc <= |st.s| && ReadRunIs(st.v, x, d, cc)
    requires forall r | q <= r < q + cc :: st.s[r] == x + (r - q)
    ensures Slice(g, st, SS * q, Overlaid(st.c, x, d, cc))
  {
    var e := Overlaid(st.c, x, d, cc);
    forall p | SS * q <= p < SS * q + |e| ensures e[p - SS * q] == ByteAt(g, st, p) {
      var i := p / SS - q;
      assert st.s[p / SS] == x + i;
      assert Chunk(d, i) == st.v[x + i];
      assert d[p - SS * q] == Chunk(d, i)[p % SS];
      if st.c.dirty && x <= st.c.sect < x + cc && st.c.sect != x + i {
        assert p - SS * q < SS * (st.c.sect - x) || p - SS * q >= SS * (st.c.sect - x) + SS;
      }
    }
  }

  lemma BufferReads(g: Geometry, st: Store, q: nat, off: nat, n: nat)
    requires Sane(g, st) && q < |st.s| && off + n <= SS && st.c.buf == Held(st, q)
    ensures Slice(g, st, SS * q + off, st.c.buf[off..off + n])
  {
    forall p | SS * q + off <= p < SS * q + off + n
      ensures st.c.buf[off..off + n][p - (SS * q + off)] == ByteAt(g, st, p)
    {
      assert p / SS == q && p % SS == p - SS * q;
    }
  }

  /** Slices of stores with the same bytes, one behind the other, are one slice. */
  lemma SliceThen(g: Geometry, a: Store, b: Store, at: nat, d: seq<byte>, e: seq<byte>, size: nat)
    requires Slice(g, a, at, d) && Slice(g, b, at + |d|, e) && at + |d| + |e| <= size
    requires Overwrites(g, a, b, at, [], size)
    ensures Slice(g, a, at, d + e)
  {
    hide Sane, ByteAt;
  }

  /** The slice is part of the byte string. */
  lemma SliceOfContent(g: Geometry, st: Store, at: nat, e: seq<byte>, size: nat)
    requires Slice(g, st, at, e) && Covers(g, st, size) && at + |e| <= size
    ensures e == Content(g, st, size)[at..at + |e|]
  {
    hide Sane, ByteAt;
  }

  /** The byte string is the same. */
  lemma SameContent(g: Geometry, a: Store, b: Store, at: nat, size: nat)
    requires Overwrites(g, a, b, at, [], size)
    ensures Covers(g, b, size) && Content(g, b, size) == Content(g, a, size)
  {
    hide Sane, ByteAt;
  }

  lemma ReadMore(v: seq<Sector>, x: nat, d: seq<byte>, i: nat, one: Sector)
    requires ReadRunIs(v, x, d, i) && x + i < |v| && one == v[x + i]
    ensures ReadRunIs(v, x, d + one, i + 1)
  {
    forall y | x <= y < x + (i + 1) ensures Chunk(d + one, y - x) == v[y] {
      if y < x + i {
        assert Chunk(d + one, y - x) == Chunk(d, y - x);
      }
    }
  }

  lemma BufferHolds(g: Geometry, st: Store, q: nat)
    requires Sane(g, st) && q < |st.s| && st.c.sect == st.s[q]
    ensures st.s[q] < |st.v| && st.c.buf == Held(st, q)
  {
  }

  /** A slice read from a store with the same bytes. */
  lemma SliceBack(g: Geometry, a: Store, b: Store, at: nat, e: seq<byte>, size: nat)
    requires Overwrites(g, a, b, at, [], size) && Slice(g, b, at, e) && at + |e| <= size
    ensures Slice(g, a, at, e)
  {
    hide Sane, ByteAt;
  }

  lemma SliceNothing(g: Geometry, a: Store, at: nat, size: nat)
    requires Covers(g, a, size) && at <= size
    ensures Slice(g, a, at, [])
  {
  }

  /** Keeping all bytes does not depend on a place. */
  lemma OverwritesElsewhere(g: Geometry, a: Store, b: Store, at: nat, at': nat, size: nat)
    requires Overwrites(g, a, b, at, [], size) && at' <= size
    ensures Overwrites(g, a, b, at', [], size)
  {
  }

  /** The size may be raised over bytes nobody has written. */
  lemma SizeRaised(g: Geometry, a: Store, b: Store, at: nat, size: nat, size': nat)
    requires Overwrites(g, a, b, at, [], size) && size <= size' <= SS * |b.s|
    ensures Covers(g, b, size') && Content(g, a, size) <= Content(g, b, size')
  {
    hide ByteAt;
  }

  lemma OverwritesLess(g: Geometry, a: Store, b: Store, size: nat, size': nat)
    requires Overwrites(g, a, b, 0, [], size) && size' <= size
    ensures Overwrites(g, a, b, 0, [], size')
  {
  }

  /** Sector number r of cluster c. */
  function DiskPlace(g: Geometry, c: nat, r: nat): int { g.database + (c - 2) * g.csize + r }

  lemma ChainSector(g: Geometry, chain: seq<nat>, q: nat)
    requires g.csize > 0 && q < |Sectors(g, chain)| && forall i | 0 <= i < |chain| :: chain[i] >= 2
    ensures q / g.csize < |chain| && Sectors(g, chain)[q] == DiskPlace(g, chain[q / g.csize], q % g.csize)
  {
    hide Sectors, Quo, Rem;
    SectorAt(g, chain, q);
    QuoRemAre(q, g.csize);
    BaseIs(g, chain[q / g.csize]);
  }

  /** Where byte p of a flushed file is on the volume: byte p % 512 of the sector that is number
      p / 512 of the clusters of the chain, one after the other. */
  lemma BytesOnDisk(g: Geometry, st: Store, chain: seq<nat>, size: nat, p: nat)
    requires Covers(g, st, size) && !st.c.dirty && p < size && g.csize > 0 && st.s == Sectors(g, chain)
    requires forall i | 0 <= i < |chain| :: chain[i] >= 2
    ensures p / SS / g.csize < |chain|
    ensures var x := DiskPlace(g, chain[p / SS / g.csize], p / SS % g.csize);
      0 <= x < |st.v| && Content(g, st, size)[p] == st.v[x][p % SS]
  {
    hide Sectors, Sane, DiskPlace;
    ChainSector(g, chain, p / SS);
    InData(g, st, p / SS);
  }
}
