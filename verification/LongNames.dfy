/** Long file names on FAT volumes: directory entries of 13 characters each. */
module LongNames {
  import opened Bytes

  const MAX_LFN := 255
  const LAST_FLAG := 0x40
  const ATTR_LFN := 0x0F
  const FILLER: wchar := 0xFFFF

  type Entry = e: seq<byte> | |e| == 32 witness seq(32, _ => 0)

  /** A name as the directory code has it: no terminator and no filler inside. */
  ghost predicate Named(name: seq<wchar>) {
    1 <= |name| <= MAX_LFN && forall i | 0 <= i < |name| :: name[i] != 0 && name[i] != FILLER
  }

  /** Where the characters of an entry are. */
  const OFFSETS: seq<nat> := [1, 3, 5, 7, 9, 14, 16, 18, 20, 22, 24, 28, 30]

  function Ofs(s: nat): (o: nat)
    requires s < 13
    ensures 1 <= o <= 30 && o == OFFSETS[s]
  {
    if s < 5 then 1 + 2 * s else if s < 11 then 4 + 2 * s else 6 + 2 * s
  }

  lemma OfsApart(s: nat, t: nat)
    requires s < t < 13
    ensures Ofs(s) + 1 < Ofs(t)
  {
  }

  lemma OfsFree(s: nat)
    requires s < 13
    ensures var o := Ofs(s); {o, o + 1} !! {0, 11, 12, 13, 26, 27}
  {
  }

  function CharAt(e: seq<byte>, s: nat): wchar
    requires |e| == 32 && s < 13
  {
    Word(e[Ofs(s)], e[Ofs(s) + 1])
  }

  /** Character p of a name, followed by the terminator and by fillers. */
  function Padded(name: seq<wchar>, p: nat): wchar {
    if p < |name| then name[p] else if p == |name| then 0 else FILLER
  }

  /** The number of entries of a name. */
  function Entries(n: nat): nat { (n + 12) / 13 }

  function Base(ord: nat): nat
    requires ord >= 1
  {
    (ord - 1) * 13
  }

  /** Entry number ord of a name. Only the one with the end of the name is flagged. */
  ghost predicate IsEntry(e: seq<byte>, name: seq<wchar>, ord: nat, sum: byte): (r: bool)
    ensures r ==> |e| == 32 && 1 <= ord <= Entries(|name|)
  {
    && Header(e, sum) && 1 <= ord <= Entries(|name|) <= 20
    && e[0] == ord + (if Base(ord) + 13 >= |name| then LAST_FLAG else 0)
    && Chars(e, name, ord, 13)
  }

  ghost predicate Header(e: seq<byte>, sum: byte) {
    |e| == 32 && e[11] == ATTR_LFN && e[12] == 0 && e[13] == sum && e[26] == 0 && e[27] == 0
  }

  /** The first n characters of entry number ord. */
  ghost predicate Chars(e: seq<byte>, name: seq<wchar>, ord: nat, n: nat)
    requires |e| == 32 && ord >= 1 && n <= 13
  {
    forall s | 0 <= s < n :: CharAt(e, s) == Padded(name, Base(ord) + s)
  }

  /** The flag is on the entry of the highest number and on no other. */
  lemma OnlyHighestFlagged(e: seq<byte>, name: seq<wchar>, ord: nat, sum: byte)
    requires Named(name) && IsEntry(e, name, ord, sum)
    ensures e[0] >= LAST_FLAG <==> ord == Entries(|name|)
  {
  }

  // ---- Writing

  method PutHeader(dir: array<byte>, sum: byte)
    requires dir.Length == 32
    modifies dir
    ensures Header(dir[..], sum)
  {
    dir[13] := sum;
    dir[11] := ATTR_LFN;
    dir[12] := 0;
    StoreWord(dir, 26, 0);
  }

  method StoreChar(dir: array<byte>, s: nat, w: wchar, ghost sum: byte, ghost name: seq<wchar>, ghost ord: nat)
    requires dir.Length == 32 && s < 13 && Header(dir[..], sum) && ord >= 1
    requires Chars(dir[..], name, ord, s) && w == Padded(name, Base(ord) + s)
    modifies dir
    ensures Header(dir[..], sum) && Chars(dir[..], name, ord, s + 1)
  {
    hide Ofs, Padded, Base;
    ghost var was := dir[..];
    OfsFree(s);
    StoreWord(dir, Ofs(s), w);
    forall t | 0 <= t < s ensures CharAt(dir[..], t) == CharAt(was, t) {
      OfsApart(t, s);
    }
  }

  method SetOrd(dir: array<byte>, v: byte, ghost sum: byte, ghost name: seq<wchar>, ghost ord: nat)
    requires dir.Length == 32 && Header(dir[..], sum) && ord >= 1 && Chars(dir[..], name, ord, 13)
    modifies dir
    ensures Header(dir[..], sum) && Chars(dir[..], name, ord, 13) && dir[0] == v
  {
    hide Ofs, Padded, Base;
    ghost var was := dir[..];
    dir[0] := v;
    forall t | 0 <= t < 13 ensures CharAt(dir[..], t) == CharAt(was, t) {
      OfsFree(t);
    }
  }

  method PutLfn(name: seq<wchar>, dir: array<byte>, ord: nat, sum: byte)
    requires Named(name) && dir.Length == 32 && 1 <= ord <= Entries(|name|)
    modifies dir
    ensures IsEntry(dir[..], name, ord, sum)
  {
    hide Header, Chars;
    var lfn := name + [0];
    PutHeader(dir, sum);
    NoChars(dir[..], name, ord);
    var i, s, wc: wchar := (ord - 1) * 13, 0, 0;
    while s < 13
      invariant 0 <= s <= 13 && dir.Length == 32
      invariant i == if Base(ord) + s <= |name| then Base(ord) + s else |name| + 1
      invariant wc == FILLER <==> Base(ord) + s > |name|
      invariant Header(dir[..], sum) && Chars(dir[..], name, ord, s)
    {
      if wc != FILLER {
        wc := lfn[i];
        i := i + 1;
      }
      StoreChar(dir, s, wc, sum, name, ord);
      if wc == 0 {
        wc := FILLER;
      }
      s := s + 1;
    }
    SetOrd(dir, if wc == FILLER || lfn[i] == 0 then ord + LAST_FLAG else ord, sum, name, ord);
  }

  lemma NoChars(e: seq<byte>, name: seq<wchar>, ord: nat)
    requires |e| == 32 && ord >= 1
    ensures Chars(e, name, ord, 0)
  {
  }

  // ---- Reading

  datatype Picked = Bad(buf: seq<wchar>) | Good(buf: seq<wchar>, next: nat)

  /** Characters from number s on go to the buffer from i on, up to the terminator; what follows
      it must be fillers. */
  function PickFrom(buf: seq<wchar>, e: Entry, i: nat, s: nat, ended: bool): (r: Picked)
    requires |buf| == MAX_LFN + 1 && s <= 13
    ensures |r.buf| == |buf|
    decreases 13 - s
  {
    if s == 13 then Good(buf, i)
    else if !ended then
      if i >= MAX_LFN then Bad(buf)
      else PickFrom(buf[i := CharAt(e, s)], e, i + 1, s + 1, CharAt(e, s) == 0)
    else if CharAt(e, s) != FILLER then Bad(buf)
    else PickFrom(buf, e, i, s + 1, true)
  }

  /** The order byte without the flag, and the place it stands for, in 32 bits. */
  function Order(b: byte): byte { if (b / LAST_FLAG) % 2 == 1 then b - LAST_FLAG else b }

  function Place(b: byte): nat { if Order(b) == 0 then DWORD - 13 else Base(Order(b)) }

  /** The place as the code computes it, unsigned; order 0 goes far past the buffer. */
  function UnsignedPlace(b: byte): nat { ((Order(b) as int + 0xFFFF_FFFF) * 13) % DWORD }

  lemma PlaceIs(b: byte)
    ensures UnsignedPlace(b) == Place(b)
  {
    var x: int := Order(b);
    if x > 0 {
      assert (x + 0xFFFF_FFFF) * 13 == 13 * DWORD + Base(x);
    } else {
      assert 0xFFFF_FFFF * 13 == 12 * DWORD + (DWORD - 13);
    }
  }

  function Pick(buf: seq<wchar>, e: Entry): (r: Picked)
    requires |buf| == MAX_LFN + 1
    ensures |r.buf| == |buf|
  {
    if Word(e[26], e[27]) != 0 then Bad(buf)
    else
      var r := PickFrom(buf, e, Place(e[0]), 0, false);
      if r.Good? && (e[0] / LAST_FLAG) % 2 == 1 then
        if r.next >= MAX_LFN then Bad(r.buf) else Good(r.buf[r.next := 0], r.next)
      else r
  }

  method PickLfn(lfnbuf: array<wchar>, dir: Entry) returns (ok: bool)
    requires lfnbuf.Length == MAX_LFN + 1
    modifies lfnbuf
    ensures var r := Pick(old(lfnbuf[..]), dir); ok == r.Good? && lfnbuf[..] == r.buf
  {
    hide CharAt, Place, UnsignedPlace;
    if Word(dir[26], dir[27]) != 0 {
      return false;
    }
    var i := UnsignedPlace(dir[0]);
    PlaceIs(dir[0]);
    var s, wc: wchar := 0, 1;
    while s < 13
      invariant s <= 13 && i >= 0 && lfnbuf.Length == MAX_LFN + 1
      invariant PickFrom(old(lfnbuf[..]), dir, Place(dir[0]), 0, false) == PickFrom(lfnbuf[..], dir, i, s, wc == 0)
    {
      var uc := CharAt(dir, s);
      if wc != 0 {
        if i >= MAX_LFN {
          return false;
        }
        ghost var was := lfnbuf[..];
        lfnbuf[i] := uc;
        assert lfnbuf[..] == was[i := uc];
        wc := uc;
        i := i + 1;
      } else if uc != FILLER {
        return false;
      }
      s := s + 1;
    }
    if (dir[0] / LAST_FLAG) % 2 == 1 {
      if i >= MAX_LFN {
        return false;
      }
      lfnbuf[i] := 0;
    }
    ok := true;
  }

  // ---- The round trip

  /** Characters from number s on of a written entry: the buffer gets exactly them, provided the
      last one that is stored has a place. */
  lemma {:induction false} PickFromEntry(buf: seq<wchar>, e: Entry, name: seq<wchar>, ord: nat, s: nat)
    requires |buf| == MAX_LFN + 1 && Named(name) && 1 <= ord && s <= 13 && Chars(e, name, ord, 13)
    ensures
      var b, n := Base(ord), |name|;
      var r := PickFrom(buf, e, if b + s <= n then b + s else n + 1, s, b + s > n);
      && (r.Good? <==> b + s > n || s == 13 || (b + 12 < MAX_LFN || n < MAX_LFN))
      && (r.Good? ==>
            && r.next == (if b + 13 <= n then b + 13 else n + 1)
            && forall q | 0 <= q <= MAX_LFN ::
                 r.buf[q] == if b + s <= q < b + 13 && q <= n then Padded(name, q) else buf[q])
    decreases 13 - s
  {
    hide CharAt, Base;
    var b, n := Base(ord), |name|;
    if s < 13 {
      var c := CharAt(e, s);
      assert c == Padded(name, b + s);
      if b + s > n {
        PickFromEntry(buf, e, name, ord, s + 1);
      } else if b + s < MAX_LFN {
        var next := buf[b + s := c];
        assert forall q | 0 <= q <= MAX_LFN :: next[q] == if q == b + s then Padded(name, q) else buf[q];
        PickFromEntry(next, e, name, ord, s + 1);
      }
    }
  }

  lemma OrderOf(e: seq<byte>, name: seq<wchar>, ord: nat, sum: byte)
    requires Named(name) && IsEntry(e, name, ord, sum)
    ensures Place(e[0]) == Base(ord) < |name|
    ensures (e[0] / LAST_FLAG) % 2 == 1 <==> Base(ord) + 13 >= |name|
  {
    hide Chars;
  }

  lemma HeaderZero(e: seq<byte>, name: seq<wchar>, ord: nat, sum: byte)
    requires IsEntry(e, name, ord, sum)
    ensures e[26] == e[27] == 0
  {
    hide Chars, Entries, Base;
  }

  lemma EntryChars(e: seq<byte>, name: seq<wchar>, ord: nat, sum: byte)
    requires IsEntry(e, name, ord, sum)
    ensures Chars(e, name, ord, 13)
  {
    hide Chars, Entries, Base;
  }

  /** No multiple of 13 is next to the end of the buffer. */
  lemma BaseNot(ord: nat)
    requires ord >= 1
    ensures Base(ord) + 13 != 254 && Base(ord) + 13 != 255
  {
  }

  /** Reading back one entry: everything the entry has of the name, and the terminator if it is
      the last one; nothing else up to the terminator changes. */
  lemma PickEntry(buf: seq<wchar>, e: Entry, name: seq<wchar>, ord: nat, sum: byte)
    requires |buf| == MAX_LFN + 1 && Named(name) && IsEntry(e, name, ord, sum)
    ensures var r := Pick(buf, e);
      && (r.Good? <==> |name| <= 253 || Base(ord) + 13 < |name|)
      && (r.Good? ==> forall q | 0 <= q <= |name| && q <= MAX_LFN ::
            r.buf[q] == if Base(ord) <= q < Base(ord) + 13 || (q == |name| && Base(ord) + 13 >= |name|)
                        then Padded(name, q) else buf[q])
  {
    hide Chars, CharAt, Place, PickFrom, Base, Entries, IsEntry;
    BaseNot(ord);
    HeaderZero(e, name, ord, sum);
    EntryChars(e, name, ord, sum);
    OrderOf(e, name, ord, sum);
    PickFromEntry(buf, e, name, ord, 0);
  }

  /** Entries read one after the other. */
  function PickAll(buf: seq<wchar>, es: seq<Entry>): (r: Picked)
    requires |buf| == MAX_LFN + 1
    ensures |r.buf| == |buf|
  {
    if es == [] then Good(buf, 0)
    else
      var r := PickAll(buf, es[..|es| - 1]);
      if r.Bad? then r else Pick(r.buf, es[|es| - 1])
  }

  /** Entries es are written entries of a name, in the order of the numbers in ords. */
  ghost predicate Written(es: seq<Entry>, ords: seq<nat>, name: seq<wchar>, sum: byte) {
    |es| == |ords| && forall k | 0 <= k < |es| :: IsEntry(es[k], name, ords[k], sum)
  }

  /** The buffer has what the entries read so far are about. */
  ghost predicate Rebuilt(buf: seq<wchar>, ords: seq<nat>, name: seq<wchar>)
    requires |buf| == MAX_LFN + 1 && |name| <= MAX_LFN
  {
    forall k, q: nat | 0 <= k < |ords| && InEntry(ords[k], name, q) :: buf[q] == Padded(name, q)
  }

  predicate InEntry(ord: nat, name: seq<wchar>, q: nat) {
    ord >= 1 && q <= |name| && Base(ord) <= q && (q < Base(ord) + 13 || q == |name| <= Base(ord) + 13)
  }

  lemma {:induction false} PickAllRebuilds(buf: seq<wchar>, es: seq<Entry>, ords: seq<nat>, name: seq<wchar>, sum: byte)
    requires |buf| == MAX_LFN + 1 && Named(name) && |name| <= 253 && Written(es, ords, name, sum)
    ensures var r := PickAll(buf, es); r.Good? && Rebuilt(r.buf, ords, name)
    decreases |es|
  {
    hide Pick, IsEntry, Base;
    if es != [] {
      var es1, ords1 := es[..|es| - 1], ords[..|es| - 1];
      PickAllRebuilds(buf, es1, ords1, name, sum);
      var b := PickAll(buf, es1).buf;
      var e, ord := es[|es| - 1], ords[|es| - 1];
      assert IsEntry(e, name, ord, sum);
      PickEntry(b, e, name, ord, sum);
      var c := Pick(b, e).buf;
      forall k, q: nat | 0 <= k < |ords| && InEntry(ords[k], name, q) ensures c[q] == Padded(name, q) {
        if k < |es| - 1 {
          assert ords1[k] == ords[k] && b[q] == Padded(name, q);
        }
      }
    }
  }

  lemma EntryOf(name: seq<wchar>, q: nat) returns (ord: nat)
    requires Named(name) && q <= |name|
    ensures 1 <= ord <= Entries(|name|) && InEntry(ord, name, q)
  {
    ord := if q < |name| then q / 13 + 1 else Entries(|name|);
  }

  /** Whatever the order in which all entries of a name are read, and into whatever buffer, the
      name comes back. This is so exactly for names of up to 253 characters: with a longer one
      the last entry is refused. */
  lemma RoundTrip(buf: seq<wchar>, es: seq<Entry>, ords: seq<nat>, name: seq<wchar>, sum: byte)
    requires |buf| == MAX_LFN + 1 && Named(name) && Written(es, ords, name, sum)
    requires forall ord | 1 <= ord <= Entries(|name|) :: ord in ords
    ensures PickAll(buf, es).Good? <==> |name| <= 253
    ensures |name| <= 253 ==> var b := PickAll(buf, es).buf; b[..|name|] == name && b[|name|] == 0
  {
    hide PickAll, Base, IsEntry, Entries, Padded;
    if |name| <= 253 {
      PickAllRebuilds(buf, es, ords, name, sum);
      NameFrom(PickAll(buf, es).buf, ords, name);
    } else {
      EntriesMany(name);
      assert Entries(|name|) in ords;
      var k :| 0 <= k < |ords| && ords[k] == Entries(|name|);
      assert IsEntry(es[k], name, ords[k], sum);
      PickAllRefused(buf, es, name, sum, k);
    }
  }

  lemma EntriesMany(name: seq<wchar>)
    requires Named(name)
    ensures Entries(|name|) >= 1
  {
  }

  lemma NameFrom(b: seq<wchar>, ords: seq<nat>, name: seq<wchar>)
    requires |b| == MAX_LFN + 1 && Named(name) && Rebuilt(b, ords, name)
    requires forall ord | 1 <= ord <= Entries(|name|) :: ord in ords
    ensures b[..|name|] == name && b[|name|] == 0
  {
    hide Base, Entries, InEntry;
    forall q | 0 <= q <= |name| ensures b[q] == Padded(name, q) {
      var ord := EntryOf(name, q);
      assert ord in ords;
    }
  }

  lemma {:induction false} PickAllRefused(buf: seq<wchar>, es: seq<Entry>, name: seq<wchar>, sum: byte, k: nat)
    requires |buf| == MAX_LFN + 1 && Named(name) && |name| > 253
    requires k < |es| && IsEntry(es[k], name, Entries(|name|), sum)
    ensures PickAll(buf, es).Bad?
    decreases |es|
  {
    hide Pick, IsEntry;
    if k == |es| - 1 {
      PickEntry(PickAll(buf, es[..k]).buf, es[k], name, Entries(|name|), sum);
    } else {
      PickAllRefused(buf, es[..|es| - 1], name, sum, k);
    }
  }

  /** The entries of a new name, as the directory gets them: the highest number first. */
  method StoreEntries(name: seq<wchar>, sum: byte) returns (es: seq<Entry>, ghost ords: seq<nat>)
    requires Named(name)
    ensures Written(es, ords, name, sum) && 13 * (|es| - 1) < |name| <= 13 * |es|
    ensures forall k | 0 <= k < |es| :: ords[k] == |es| - k
    ensures forall k | 0 <= k < |es| :: es[k][0] >= LAST_FLAG <==> k == 0
  {
    hide IsEntry;
    es, ords := [], [];
    var nent := Entries(|name|);
    while nent > 0
      invariant |es| + nent == Entries(|name|) && Written(es, ords, name, sum)
      invariant forall k | 0 <= k < |es| :: ords[k] == Entries(|name|) - k
      invariant forall k | 0 <= k < |es| :: es[k][0] >= LAST_FLAG <==> k == 0
    {
      var dir := new byte[32];
      PutLfn(name, dir, nent, sum);
      OnlyHighestFlagged(dir[..], name, nent, sum);
      es, ords := es + [dir[..]], ords + [nent];
      nent := nent - 1;
    }
  }

  // ---- The bytes of an entry

  /** Byte by byte: order and flag, attribute, type, checksum and the zero cluster at their places,
      and the 13 characters, low byte first, at theirs. */
  lemma EntryLayout(e: Entry, name: seq<wchar>, ord: nat, sum: byte)
    requires Named(name) && IsEntry(e, name, ord, sum)
    ensures e[0] == ord + (if 13 * ord >= |name| then 0x40 else 0)
    ensures e[11] == 0x0F && e[12] == 0 && e[13] == sum && e[26] == 0 && e[27] == 0
    ensures forall s | 0 <= s < 13 ::
      var o, p := [1, 3, 5, 7, 9, 14, 16, 18, 20, 22, 24, 28, 30][s], 13 * (ord - 1) + s;
      e[o] as int + 256 * e[o + 1] as int == if p < |name| then name[p] else if p == |name| then 0 else 0xFFFF
  {
    forall s | 0 <= s < 13
      ensures var o, p := [1, 3, 5, 7, 9, 14, 16, 18, 20, 22, 24, 28, 30][s], 13 * (ord - 1) + s;
        e[o] as int + 256 * e[o + 1] as int == if p < |name| then name[p] else if p == |name| then 0 else 0xFFFF
    {
      assert CharAt(e, s) == Padded(name, Base(ord) + s);
      OfsIs(s);
    }
  }

  lemma OfsIs(s: nat)
    requires s < 13
    ensures Ofs(s) == [1, 3, 5, 7, 9, 14, 16, 18, 20, 22, 24, 28, 30][s]
  {
  }

  // ---- What reading accepts

  /** The place of the terminator among the characters from number s on, or 13. */
  function Ends(e: Entry, s: nat): (t: nat)
    requires s <= 13
    ensures s <= t <= 13 && (t < 13 ==> CharAt(e, t) == 0) && forall i | s <= i < t :: CharAt(e, i) != 0
    decreases 13 - s
  {
    if s == 13 || CharAt(e, s) == 0 then s else Ends(e, s + 1)
  }

  /** Only fillers from character s on. */
  ghost predicate Filled(e: Entry, s: nat) { forall k | s <= k < 13 :: CharAt(e, k) == 0xFFFF }

  /** The number of characters up to the terminator, with it if there is one. */
  function Used(e: Entry, s: nat): nat
    requires s <= 13
  {
    var t := Ends(e, s);
    if t < 13 then t + 1 - s else 13 - s
  }

  lemma {:induction false} FillersOnly(buf: seq<wchar>, e: Entry, i: nat, s: nat)
    requires |buf| == MAX_LFN + 1 && s <= 13
    ensures PickFrom(buf, e, i, s, true).Good? <==> Filled(e, s)
    ensures PickFrom(buf, e, i, s, true).Good? ==> PickFrom(buf, e, i, s, true) == Good(buf, i)
    decreases 13 - s
  {
    hide CharAt;
    if s < 13 {
      FillersOnly(buf, e, i, s + 1);
    }
  }

  /** From character s on: all up to the terminator must have a place below 255, and only fillers
      may follow it. */
  lemma {:induction false} PickFromIs(buf: seq<wchar>, e: Entry, i: nat, s: nat)
    requires |buf| == MAX_LFN + 1 && s <= 13
    ensures var n, r := Used(e, s), PickFrom(buf, e, i, s, false);
      && (r.Good? <==> (n == 0 || i + n <= 255) && Filled(e, Ends(e, s) + 1))
      && (r.Good? ==> r.next == i + n)
    decreases 13 - s
  {
    hide CharAt, Filled;
    if s == 13 {
      assert Filled(e, 14) by { FilledEnd(e); }
    } else if i < MAX_LFN {
      if CharAt(e, s) == 0 {
        FillersOnly(buf[i := CharAt(e, s)], e, i + 1, s + 1);
      } else {
        PickFromIs(buf[i := CharAt(e, s)], e, i + 1, s + 1);
      }
    }
  }

  lemma FilledEnd(e: Entry)
    ensures Filled(e, 14)
  {
  }

  lemma WordZero(a: byte, b: byte)
    ensures Word(a, b) == 0 <==> a == 0 && b == 0
  {
  }

  /** An arbitrary entry is accepted exactly if its cluster field is zero, its characters up to the
      terminator fit below 255 from its place on, only fillers follow the terminator, and, if it is
      flagged as the last, there is a place for one more terminator. */
  lemma PickAccepts(buf: seq<wchar>, e: Entry)
    requires |buf| == MAX_LFN + 1
    ensures Pick(buf, e).Good? <==>
      && e[26] == 0 && e[27] == 0
      && Place(e[0]) + Used(e, 0) <= (if e[0] / 64 % 2 == 1 then 254 else 255)
      && Filled(e, Ends(e, 0) + 1)
  {
    hide CharAt, Place, PickFrom, Filled, Word;
    WordZero(e[26], e[27]);
    PickFromIs(buf, e, Place(e[0]), 0);
  }
}
