/** A pair of memory BIOs: each writes into its own ring buffer and reads from the buffer of
    its partner. */
module BioPair {
  import opened Bytes

  const BIO_ERROR := -1
  const BIO_UNSET := -2
  const BIO_SIZE := 17000

  /** An int as an unsigned size. */
  function Unsigned(x: int): (r: nat)
    requires -DWORD <= x < DWORD
    ensures r < DWORD && (r - x) % DWORD == 0
  {
    if x < 0 then x + DWORD else x
  }

  // ---- The ring, as values

  /** Write index, read index and size of a buffer. */
  datatype Ring = Ring(w: int, r: int, n: int) {
    /** The index states the code can reach. */
    predicate Valid() {
      (w == r == 0 <= n) || 0 <= r < w <= n || (0 <= w <= r < n && 0 < r)
    }

    /** The state in which the write index has just been sent back to 0 and data remain at the end. */
    predicate Corner() { w == 0 < r }

    /** Number of bytes in the pipe. */
    function Count(): int {
      if w == r == 0 then 0 else if r < w then w - r else n - r + w
    }

    /** The index test of the reader and of the pending count. */
    predicate LooksWrapped() { w > 0 && r >= w }

    /** ctrl_pending. */
    function Pending(): int { if LooksWrapped() then n - r + w else w - r }

    /** nread0: how much can be read in one piece. */
    function Readable(): int { if LooksWrapped() then n - r else w - r }

    /** nread of num > 0 bytes, given that something is readable. */
    function Read(num: int): (Ring, int) {
      var sz := if num < Readable() then num else Readable();
      var r1 := r + sz;
      var w1 := if r1 == n && w == n then 0 else w;
      var r2 := if r1 == n then 0 else r1;
      (if r2 == w1 then Ring(0, 0, n) else Ring(w1, r2, n), sz)
    }

    /** nwrite of num > 0 bytes: new state, offset and size, or no room. */
    function Write(num: int): (Ring, int, int) {
      var full := 0 < r == w;
      var end := !(w < r) && n - w <= 0;
      if full || (end && r == 0) then (this, 0, BIO_ERROR)
      else
        var w0 := if end then 0 else w;
        var room := if w < r then r - w else if end then r else n - w;
        var sz := if num < room then num else room;
        var w1 := w0 + sz;
        (Ring(if w1 == n && r > 0 then 0 else w1, r, n), w0, sz)
    }
  }

  /** The bytes in the pipe, oldest first. */
  function Queued(g: Ring, mem: seq<byte>): (q: seq<byte>)
    requires g.Valid() && |mem| == g.n
    ensures |q| == g.Count()
  {
    if g.w == g.r == 0 then [] else if g.r < g.w then mem[g.r..g.w] else mem[g.r..] + mem[..g.w]
  }

  /** The pending count is the number of bytes in the pipe if and only if the ring is not in
      the corner state, in which it is short by the whole buffer. */
  lemma PendingExact(g: Ring)
    requires g.Valid()
    ensures g.Pending() == g.Count() <==> !g.Corner()
    ensures g.Corner() ==> g.Pending() == g.Count() - g.n < 0
  {
  }

  /** The two ways a read goes: from data in one piece, or from the end of wrapped data. */
  lemma ReadPlace(g: Ring, num: int)
    requires g.Valid() && !g.Corner() && 0 < num && 0 < g.Count()
    ensures var (g', sz) := g.Read(num);
      && g'.Valid() && 0 < sz && g.r + sz <= g.n && sz <= g.Count()
      && (var all := if g.r < g.w then g.w - g.r else g.n - g.r; sz == if num < all then num else all)
      && if g.r < g.w then
           && g.r + sz <= g.w
           && g' == if g.r + sz == g.w then Ring(0, 0, g.n) else Ring(g.w, g.r + sz, g.n)
         else 0 < g.w && g' == if g.r + sz == g.n then Ring(g.w, 0, g.n) else Ring(g.w, g.r + sz, g.n)
  {
  }

  lemma TakeFlat(g: Ring, mem: seq<byte>, sz: int)
    requires g.Valid() && |mem| == g.n && g.r < g.w && 0 < sz && g.r + sz <= g.w
    ensures var g' := if g.r + sz == g.w then Ring(0, 0, g.n) else Ring(g.w, g.r + sz, g.n);
      && g'.Valid() && mem[g.r..g.r + sz] == Queued(g, mem)[..sz] && Queued(g', mem) == Queued(g, mem)[sz..]
  {
  }

  lemma TakeWrapped(g: Ring, mem: seq<byte>, sz: int)
    requires g.Valid() && |mem| == g.n && 0 < g.w <= g.r && 0 < sz && g.r + sz <= g.n
    ensures var g' := if g.r + sz == g.n then Ring(g.w, 0, g.n) else Ring(g.w, g.r + sz, g.n);
      && g'.Valid() && mem[g.r..g.r + sz] == Queued(g, mem)[..sz] && Queued(g', mem) == Queued(g, mem)[sz..]
  {
    SplitAt(mem[g.r..], mem[..g.w], sz);
    SliceOfTail(mem, g.r, sz);
    if g.r + sz == g.n {
      assert mem[g.n..] + mem[..g.w] == mem[0..g.w];
    }
  }

  lemma SplitAt(a: seq<byte>, b: seq<byte>, k: int)
    requires 0 <= k <= |a|
    ensures (a + b)[..k] == a[..k] && (a + b)[k..] == a[k..] + b
  {
  }

  lemma SliceOfTail(m: seq<byte>, r: int, k: int)
    requires 0 <= r && 0 <= k && r + k <= |m|
    ensures m[r..][..k] == m[r..r + k] && m[r..][k..] == m[r + k..]
  {
  }

  /** A read takes the oldest bytes out, in order, unless the ring is in the corner state. */
  lemma ReadTakes(g: Ring, mem: seq<byte>, num: int)
    requires g.Valid() && |mem| == g.n && !g.Corner() && 0 < num && 0 < g.Count()
    ensures var (g', sz) := g.Read(num);
      && g'.Valid() && 0 < sz && g.r + sz <= g.n && sz <= g.Count()
      && (var all := if g.r < g.w then g.w - g.r else g.n - g.r; sz == if num < all then num else all)
      && mem[g.r..g.r + sz] == Queued(g, mem)[..sz]
      && Queued(g', mem) == Queued(g, mem)[sz..]
  {
    hide Ring.Read, Queued;
    ReadPlace(g, num);
    var (g', sz) := g.Read(num);
    if g.r < g.w {
      TakeFlat(g, mem, sz);
    } else {
      TakeWrapped(g, mem, sz);
    }
  }

  /** In the corner state a read reports a negative size and empties the pipe. */
  lemma ReadInCorner(g: Ring, num: int)
    requires g.Valid() && g.Corner() && 0 < num
    ensures g.Count() > 0 && g.Read(num) == (Ring(0, 0, g.n), -g.r)
  {
  }

  /** The buffer after d has been stored at off. */
  function Stored(mem: seq<byte>, off: int, d: seq<byte>): (m: seq<byte>)
    requires 0 <= off && off + |d| <= |mem|
    ensures |m| == |mem|
  {
    mem[..off] + d + mem[off + |d|..]
  }

  /** The three ways a write goes: before the read index, behind the data, or again from the start. */
  lemma WritePlace(g: Ring, num: int)
    requires g.Valid() && 0 < num
    ensures var (g', off, sz) := g.Write(num);
      && (sz <= 0 <==> g.Count() == g.n) && (sz <= 0 ==> sz == BIO_ERROR && g' == g)
      && (sz > 0 ==>
            && (var room := if g.w < g.r then g.r - g.w else if g.w < g.n then g.n - g.w else g.r;
                sz == if num < room then num else room)
            && 0 <= off && off + sz <= g.n && g'.Valid()
            && if g.w < g.r then off == g.w && off + sz <= g.r && g' == Ring(off + sz, g.r, g.n)
               else if g.w < g.n then
                 && off == g.w
                 && g' == Ring(if off + sz == g.n && g.r > 0 then 0 else off + sz, g.r, g.n)
               else off == 0 < g.r && sz <= g.r && g' == Ring(sz, g.r, g.n))
  {
  }

  lemma AppendBefore(g: Ring, mem: seq<byte>, d: seq<byte>)
    requires g.Valid() && |mem| == g.n && g.w < g.r && 0 < |d| && g.w + |d| <= g.r
    ensures Ring(g.w + |d|, g.r, g.n).Valid()
    ensures Queued(Ring(g.w + |d|, g.r, g.n), Stored(mem, g.w, d)) == Queued(g, mem) + d
  {
    var m := Stored(mem, g.w, d);
    assert m[..g.w + |d|] == mem[..g.w] + d && m[g.r..] == mem[g.r..];
  }

  lemma AppendBehind(g: Ring, mem: seq<byte>, d: seq<byte>)
    requires g.Valid() && |mem| == g.n && g.r <= g.w < g.n && 0 < |d| && g.w + |d| <= g.n && !(0 < g.r == g.w)
    ensures var g' := Ring(if g.w + |d| == g.n && g.r > 0 then 0 else g.w + |d|, g.r, g.n);
      g'.Valid() && Queued(g', Stored(mem, g.w, d)) == Queued(g, mem) + d
  {
    var m := Stored(mem, g.w, d);
    assert m[g.r..g.w + |d|] == mem[g.r..g.w] + d;
    assert m[g.r..] + m[..0] == m[g.r..g.n];
  }

  lemma AppendAgain(g: Ring, mem: seq<byte>, d: seq<byte>)
    requires g.Valid() && |mem| == g.n && g.w == g.n && 0 < |d| <= g.r
    ensures Ring(|d|, g.r, g.n).Valid()
    ensures Queued(Ring(|d|, g.r, g.n), Stored(mem, 0, d)) == Queued(g, mem) + d
  {
    var m := Stored(mem, 0, d);
    assert m[..|d|] == d && m[g.r..] == mem[g.r..] == mem[g.r..g.n];
  }

  /** A write appends the bytes stored in the space it hands out, and fails exactly when the
      buffer is full. */
  lemma WriteAppends(g: Ring, mem: seq<byte>, num: int, d: seq<byte>)
    requires g.Valid() && |mem| == g.n && 0 < num && (g.Write(num).2 > 0 ==> |d| == g.Write(num).2)
    ensures var (g', off, sz) := g.Write(num);
      && (sz <= 0 <==> g.Count() == g.n) && (sz <= 0 ==> sz == BIO_ERROR && g' == g)
      && (sz > 0 ==>
            && (var room := if g.w < g.r then g.r - g.w else if g.w < g.n then g.n - g.w else g.r;
                sz == if num < room then num else room)
            && 0 <= off && off + sz <= g.n && g'.Valid()
            && Queued(g', Stored(mem, off, d)) == Queued(g, mem) + d)
  {
    hide Ring.Write, Queued, Stored;
    WritePlace(g, num);
    var (g', off, sz) := g.Write(num);
    if sz > 0 {
      if g.w < g.r {
        AppendBefore(g, mem, d);
      } else if g.w < g.n {
        AppendBehind(g, mem, d);
      } else {
        AppendAgain(g, mem, d);
      }
    }
  }

  datatype Access = ReadOf(num: nat) | WriteOf(num: nat)

  /** The indices after a call; calls for 0 bytes, reads of an empty pipe and writes into a
      full one change nothing. */
  function Access1(g: Ring, a: Access): Ring {
    match a
    case ReadOf(num) => if num == 0 || g.Readable() == 0 then g else g.Read(num).0
    case WriteOf(num) => if num == 0 then g else g.Write(num).0
  }

  function AccessAll(g: Ring, run: seq<Access>): Ring {
    if run == [] then g else Access1(AccessAll(g, run[..|run| - 1]), run[|run| - 1])
  }

  lemma Access1Last(g: Ring, run: seq<Access>, a: Access)
    ensures AccessAll(g, run + [a]) == Access1(AccessAll(g, run), a)
  {
    assert (run + [a])[..|run|] == run;
  }

  /** The run that leads to the corner state: all but one place filled, one byte taken, and one
      byte written at the end. */
  lemma CornerReached(n: int)
    requires n >= 3
    ensures AccessAll(Ring(0, 0, n), [WriteOf(n - 1), ReadOf(1), WriteOf(1)]) == Ring(0, 1, n)
  {
    var g := Ring(0, 0, n);
    Access1Last(g, [], WriteOf(n - 1));
    Access1Last(g, [WriteOf(n - 1)], ReadOf(1));
    Access1Last(g, [WriteOf(n - 1), ReadOf(1)], WriteOf(1));
    assert [] + [WriteOf(n - 1)] == [WriteOf(n - 1)];
    assert [WriteOf(n - 1)] + [ReadOf(1)] == [WriteOf(n - 1), ReadOf(1)];
    assert [WriteOf(n - 1), ReadOf(1)] + [WriteOf(1)] == [WriteOf(n - 1), ReadOf(1), WriteOf(1)];
    assert Access1(g, WriteOf(n - 1)) == Ring(n - 1, 0, n);
    assert Access1(Ring(n - 1, 0, n), ReadOf(1)) == Ring(n - 1, 1, n);
  }

  lemma {:induction false} NoCornerInSmall(n: int, run: seq<Access>)
    requires 0 <= n <= 2
    ensures var g := AccessAll(Ring(0, 0, n), run); g.Valid() && g.n == n && !g.Corner()
    decreases |run|
  {
    if run != [] {
      NoCornerInSmall(n, run[..|run| - 1]);
    }
  }

  /** A pair can get into the corner state exactly if its ring has three places or more. */
  lemma CornerReachable(n: int)
    requires 0 <= n
    ensures (exists run :: AccessAll(Ring(0, 0, n), run).Corner()) <==> n >= 3
  {
    if n >= 3 {
      CornerReached(n);
    } else {
      forall run ensures !AccessAll(Ring(0, 0, n), run).Corner() {
        NoCornerInSmall(n, run);
      }
    }
  }

  /** A negative count takes the write index of an empty ring out of its bounds. */
  lemma NegativeWrite(n: int, num: int)
    requires num < 0 < n
    ensures Ring(0, 0, n).Write(num).0 == Ring(num, 0, n) && !Ring(num, 0, n).Valid()
  {
  }

  /** The index bounds hold on every run, reads in the corner state included. */
  lemma {:induction false} BoundsKept(g: Ring, run: seq<Access>)
    requires g.Valid()
    ensures AccessAll(g, run).Valid() && AccessAll(g, run).n == g.n
    ensures 0 <= AccessAll(g, run).r <= g.n && 0 <= AccessAll(g, run).w <= g.n
    decreases |run|
  {
    if run != [] {
      BoundsKept(g, run[..|run| - 1]);
    }
  }

  // ---- The BIO objects

  class Bio {
    var mem: array?<byte>
    var wrSz: int
    var wrIdx: int
    var rdIdx: int
    var pair: Bio?

    constructor ()
      ensures mem == null && pair == null && wrSz == wrIdx == rdIdx == 0
    {
      mem, pair := null, null;
      wrSz, wrIdx, rdIdx := 0, 0, 0;
    }

    function Indices(): Ring
      reads this
    {
      Ring(wrIdx, rdIdx, wrSz)
    }

    ghost predicate Valid()
      reads this
    {
      mem != null && mem.Length == wrSz && Indices().Valid()
    }

    /** The bytes written to this BIO that its partner has not read yet. */
    ghost function Pipe(): seq<byte>
      requires Valid()
      reads this, mem
    {
      Queued(Indices(), mem[..])
    }

    /** set_write_buf_size on a BIO that is not paired; a paired one or a negative size is refused. */
    method SetWriteBufSize(size: int) returns (ok: bool)
      modifies this`mem, this`wrSz, this`wrIdx, this`rdIdx
      ensures ok <==> pair == null && size >= 0
      ensures ok ==> Valid() && fresh(mem) && wrSz == size && Pipe() == []
      ensures !ok ==> unchanged(this)
    {
      if size < 0 || pair != null {
        return false;
      }
      wrSz := size;
      mem := new byte[size](_ => 0);
      wrIdx, rdIdx := 0, 0;
      return true;
    }

    /** reset: the pipe is empty again. */
    method Reset()
      requires Valid()
      modifies this`wrIdx, this`rdIdx
      ensures Valid() && Pipe() == []
    {
      rdIdx := 0;
      wrIdx := 0;
    }

    /** nwrite: hands out space at an offset; BIO_UNSET without a partner. */
    method NWrite(num: int) returns (off: int, sz: int)
      requires Valid()
      modifies this`wrIdx
      ensures pair == null ==> sz == BIO_UNSET
      ensures pair != null && num == 0 ==> sz == 0
      ensures pair == null || num == 0 ==> wrIdx == old(wrIdx)
      ensures pair != null && num != 0 ==>
        Indices() == old(Indices()).Write(num).0 && sz == old(Indices()).Write(num).2
        && (sz > 0 ==> off == old(Indices()).Write(num).1)
    {
      sz, off := BIO_UNSET, 0;
      if pair != null {
        if num == 0 {
          return wrIdx, 0;
        }
        if wrIdx < rdIdx {
          sz := rdIdx - wrIdx;
        } else if rdIdx > 0 && wrIdx == rdIdx {
          return 0, BIO_ERROR;
        } else {
          sz := wrSz - wrIdx;
          if sz <= 0 {
            if rdIdx == 0 {
              return 0, BIO_ERROR;
            }
            wrIdx := 0;
            sz := rdIdx;
          }
        }
        if num < sz {
          sz := num;
        }
        off := wrIdx;
        wrIdx := wrIdx + sz;
        if wrIdx == wrSz && rdIdx > 0 {
          wrIdx := 0;
        }
      }
    }

    /** nread: how many bytes, at which offset of the partner's buffer. */
    method NRead(num: int) returns (off: int, sz: int)
      requires pair != null ==> pair.Valid()
      modifies if pair != null then {pair} else {}
      ensures pair == old(pair)
      ensures pair == null ==> sz == BIO_UNSET
      ensures pair != null ==> pair.mem == old(pair.mem) && pair.wrSz == old(pair.wrSz) && pair.pair == old(pair.pair)
      ensures pair != null && num == 0 ==> sz == 0 && pair.Indices() == old(pair.Indices())
      ensures pair != null && num != 0 ==>
        if old(pair.Indices()).Readable() == 0 then sz == BIO_ERROR && pair.Indices() == old(pair.Indices())
        else (pair.Indices(), sz) == old(pair.Indices()).Read(num) && off == old(pair.rdIdx)
    {
      sz, off := BIO_UNSET, 0;
      if pair != null {
        var p := pair;
        off := p.rdIdx;
        if num == 0 {
          return off, 0;
        }
        sz := if p.wrIdx > 0 && p.rdIdx >= p.wrIdx then p.wrSz - p.rdIdx else p.wrIdx - p.rdIdx;
        if sz == 0 {
          return off, BIO_ERROR;
        }
        if num < sz {
          sz := num;
        }
        p.rdIdx := p.rdIdx + sz;
        if p.rdIdx == p.wrSz {
          p.rdIdx := 0;
          if p.wrIdx == p.wrSz {
            p.wrIdx := 0;
          }
        }
        if p.rdIdx == p.wrIdx {
          p.rdIdx := 0;
          p.wrIdx := 0;
        }
      }
    }

    /** ctrl_pending, with its conversion to an unsigned size of 32 bits; 0 without a partner. */
    method CtrlPending() returns (n: nat)
      requires pair != null ==> pair.Valid() && pair.wrSz < DWORD
      ensures pair == null ==> n == 0
      ensures pair != null && !pair.Indices().Corner() ==> n == |pair.Pipe()|
      ensures pair != null && pair.Indices().Corner() ==> n == DWORD - pair.rdIdx
    {
      if pair == null {
        return 0;
      }
      PendingExact(pair.Indices());
      if pair.wrIdx > 0 && pair.wrIdx <= pair.rdIdx {
        n := Unsigned(pair.wrSz - pair.rdIdx + pair.wrIdx);
      } else {
        n := Unsigned(pair.wrIdx - pair.rdIdx);
      }
    }
  }

  /** make_bio_pair: joins two BIOs that are not paired yet, giving each a buffer of the
      default size if it has none. */
  method MakePair(b1: Bio, b2: Bio) returns (ok: bool)
    requires (b1.mem != null ==> b1.Valid()) && (b2.mem != null ==> b2.Valid())
    requires b1 != b2 && b1.mem != null ==> b1.mem != b2.mem
    modifies b1, b2
    ensures ok <==> old(b1.pair) == null && old(b2.pair) == null
    ensures ok ==> b1.pair == b2 && b2.pair == b1 && b1.Valid() && b2.Valid() && (b1 != b2 ==> b1.mem != b2.mem)
    ensures ok && old(b1.mem) == null ==> b1.wrSz == 17000 && b1.Pipe() == []
    ensures ok && old(b2.mem) == null ==> b2.wrSz == 17000 && b2.Pipe() == []
    ensures !ok ==> unchanged(b1) && unchanged(b2)
  {
    if b1.pair != null || b2.pair != null {
      return false;
    }
    if b1.mem == null {
      var done := b1.SetWriteBufSize(BIO_SIZE);
    }
    if b2.mem == null {
      var done := b2.SetWriteBufSize(BIO_SIZE);
    }
    b1.pair := b2;
    b2.pair := b1;
    return true;
  }

  // ---- The pipe from one BIO to its partner

  /** Asks for space and stores as much of the data as it got space for. */
  method Put(b: Bio, data: seq<byte>) returns (n: nat)
    requires b.Valid() && b.pair != null
    modifies b`wrIdx, b.mem
    ensures b.Valid() && n <= |data| && b.Pipe() == old(b.Pipe()) + data[..n]
    ensures n == 0 && data != [] ==> |b.Pipe()| == b.wrSz
    ensures old(|b.Pipe()|) < b.wrSz ==>
      var w, r := old(b.wrIdx), b.rdIdx;
      var room := if w < r then r - w else if w < b.wrSz then b.wrSz - w else r;
      n == if |data| < room then |data| else room
  {
    hide Queued, Stored, Ring.Write;
    ghost var g, m := b.Indices(), b.mem[..];
    var off, sz := b.NWrite(|data|);
    n := if sz > 0 then sz else 0;
    assert data[..0] == [];
    if data != [] {
      WritePlace(g, |data|);
      WriteAppends(g, m, |data|, data[..n]);
      if n > 0 {
        CopyTo(b.mem, off, data[..n]);
      }
    }
  }

  method CopyTo(mem: array<byte>, off: int, d: seq<byte>)
    requires 0 <= off && off + |d| <= mem.Length
    modifies mem
    ensures mem[..] == Stored(old(mem[..]), off, d)
  {
    forall i | 0 <= i < |d| {
      mem[off + i] := d[i];
    }
  }

  /** Reads up to num bytes of what the partner has written. */
  method Get(b: Bio, num: nat) returns (data: seq<byte>)
    requires b.pair != null && b.pair.Valid() && !b.pair.Indices().Corner()
    modifies b.pair
    ensures b.pair == old(b.pair) && b.pair.mem == old(b.pair.mem) && b.pair.Valid() && b.pair.pair == old(b.pair.pair)
    ensures b.pair.mem[..] == old(b.pair.mem[..])
    ensures old(b.pair.Pipe()) == data + b.pair.Pipe()
    ensures old(b.pair.Pipe()) != [] ==>
      var w, r := old(b.pair.wrIdx), old(b.pair.rdIdx);
      var all := if r < w then w - r else b.pair.wrSz - r;
      |data| == if num < all then num else all
    ensures data == [] ==> num == 0 || old(b.pair.Pipe()) == []
  {
    hide Queued, Ring.Read;
    ghost var g, m := b.pair.Indices(), b.pair.mem[..];
    if num > 0 && g.Count() > 0 {
      ReadTakes(g, m, num);
    }
    EmptyRead(g);
    var off, sz := b.NRead(num);
    data := if sz > 0 then b.pair.mem[off..off + sz] else [];
    if sz > 0 {
      assert data == m[off..off + sz];
      assert Queued(g, m) == Queued(g, m)[..sz] + Queued(g, m)[sz..];
    } else {
      assert [] + Queued(g, m) == Queued(g, m);
    }
  }

  lemma EmptyRead(g: Ring)
    requires g.Valid() && !g.Corner()
    ensures g.Readable() == 0 <==> g.Count() == 0
  {
  }

  datatype PipeOp = OpPut(data: seq<byte>) | OpGet(num: nat)

  /** Over any run up to the first read in the corner state, the bytes read are the bytes
      written, in order and once each, and what is missing is exactly what is in the pipe. */
  method Exchange(b: Bio, c: Bio, ops: seq<PipeOp>) returns (done: nat, written: seq<byte>, read: seq<byte>)
    requires b != c && b.pair == c && c.pair == b && b.Valid() && b.Pipe() == []
    modifies b, b.mem
    ensures done <= |ops| && b.Valid()
    ensures done < |ops| ==> ops[done].OpGet? && b.Indices().Corner()
    ensures written == read + b.Pipe()
  {
    hide Queued;
    done, written, read := 0, [], [];
    while done < |ops|
      invariant done <= |ops| && b.pair == c && c.pair == b && b.Valid() && b.mem == old(b.mem)
      invariant written == read + b.Pipe()
    {
      match ops[done] {
        case OpPut(d) =>
          var n := Put(b, d);
          written := written + d[..n];
        case OpGet(num) =>
          if b.wrIdx == 0 < b.rdIdx {
            return;
          }
          var d := Get(c, num);
          read := read + d;
      }
      done := done + 1;
    }
  }
}
