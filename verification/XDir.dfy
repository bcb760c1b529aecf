/** Directory entry sets of exFAT: a file entry (85), a stream entry (C0) and name entries (C1)
    of 15 characters each, with a checksum over the set. */
module XDir {
  import opened Bytes

  const ENTRY := 32
  const MAX_NAME := 255
  const BUFFER := 608             // 19 entries

  type Entry = e: seq<byte> | |e| == ENTRY witness seq(ENTRY, _ => 0)

  ghost predicate Named(name: seq<wchar>) {
    1 <= |name| <= MAX_NAME && forall i | 0 <= i < |name| :: name[i] != 0
  }

  // ---- The layout

  /** The number of name entries. */
  function NameEntries(n: nat): nat { (n + 14) / 15 }

  /** The space for a name of n characters, as the source computes it. */
  function SetSize(n: nat): nat { (n + 44) / 15 * ENTRY }

  /** Where character k is: after the two leading bytes of its entry. */
  function CharPos(k: nat): (p: nat)
    ensures p >= 66 && p % 2 == 0
  {
    66 + 32 * (k / 15) + 2 * (k % 15)
  }

  function CharOf(b: seq<byte>, k: nat): wchar
    requires CharPos(k) + 1 < |b|
  {
    Word(b[CharPos(k)], b[CharPos(k) + 1])
  }

  /** The type of name entry e. */
  function TypeOf(b: seq<byte>, e: nat): byte
    requires 64 + 32 * e < |b|
  {
    b[64 + 32 * e]
  }

  /** Character k of a name followed by zeros. */
  function ZeroPadded(name: seq<wchar>, k: nat): wchar {
    if k < |name| then name[k] else 0
  }

  lemma CharPosIs(e: nat, r: nat)
    requires r < 15
    ensures CharPos(15 * e + r) == 66 + 32 * e + 2 * r
  {
  }

  lemma CharInside(k: nat, n: nat)
    requires k < 15 * n
    ensures CharPos(k) + 1 < 64 + 32 * n
  {
  }

  lemma CharsApart(j: nat, k: nat)
    requires j < k
    ensures CharPos(j) + 1 < CharPos(k)
  {
  }

  /** The first n name entries have the name. */
  ghost predicate NamePart(b: seq<byte>, name: seq<wchar>, n: nat) {
    && 64 + 32 * n <= |b|
    && (forall e | 0 <= e < n :: TypeOf(b, e) == 0xC1)
    && (forall k | 0 <= k < 15 * n :: CharPos(k) + 1 < |b| && CharOf(b, k) == ZeroPadded(name, k))
  }

  /** An entry set for a name; the other fields are the caller's. */
  ghost predicate Block(b: seq<byte>, name: seq<wchar>) {
    && |b| == BUFFER && Named(name)
    && b[0] == 0x85 && b[32] == 0xC0
    && b[1] == 1 + NameEntries(|name|) && b[35] == |name|
    && NamePart(b, name, NameEntries(|name|))
  }

  /** The size the source checks on loading is exactly that of a new set. */
  lemma SizeIs(n: nat)
    requires 1 <= n <= MAX_NAME
    ensures SetSize(n) == (2 + NameEntries(n)) * ENTRY <= BUFFER
    ensures 1 <= NameEntries(n) <= 17 && 15 * (NameEntries(n) - 1) < n <= 15 * NameEntries(n)
  {
  }

  // ---- Creating

  /** The same bytes from place lo to before place hi. */
  ghost predicate Same(a: seq<byte>, b: seq<byte>, lo: nat, hi: nat) {
    hi <= |a| && hi <= |b| && forall i | lo <= i < hi :: b[i] == a[i]
  }

  lemma NamePartKept(a: seq<byte>, b: seq<byte>, name: seq<wchar>, n: nat)
    requires NamePart(a, name, n) && Same(a, b, 64, 64 + 32 * n)
    ensures NamePart(b, name, n)
  {
    hide CharPos;
    forall k | 0 <= k < 15 * n ensures CharPos(k) + 1 < |b| && CharOf(b, k) == CharOf(a, k) {
      CharInside(k, n);
    }
    forall e | 0 <= e < n ensures TypeOf(b, e) == TypeOf(a, e) {}
  }

  lemma NamePartMore(b: seq<byte>, name: seq<wchar>, n: nat)
    requires NamePart(b, name, n) && EntryPart(b, name, n, 15)
    ensures NamePart(b, name, n + 1)
  {
    hide CharPos, CharOf;
  }

  /** The first r characters of name entry e, and its type. */
  ghost predicate EntryPart(b: seq<byte>, name: seq<wchar>, e: nat, r: nat) {
    && 64 + 32 * e + 32 <= |b| && TypeOf(b, e) == 0xC1
    && forall k | 15 * e <= k < 15 * e + r :: CharPos(k) + 1 < |b| && CharOf(b, k) == ZeroPadded(name, k)
  }

  method StartEntry(dirb: array<byte>, e: nat, ghost name: seq<wchar>)
    requires 64 + 32 * e + 32 <= dirb.Length
    modifies dirb
    ensures Same(old(dirb[..]), dirb[..], 0, 64 + 32 * e) && EntryPart(dirb[..], name, e, 0)
  {
    dirb[64 + 32 * e] := 0xC1;
    dirb[65 + 32 * e] := 0;
  }

  method StoreChar(dirb: array<byte>, e: nat, r: nat, w: wchar, ghost name: seq<wchar>)
    requires EntryPart(dirb[..], name, e, r) && r < 15 && w == ZeroPadded(name, 15 * e + r)
    modifies dirb
    ensures Same(old(dirb[..]), dirb[..], 0, 64 + 32 * e) && EntryPart(dirb[..], name, e, r + 1)
  {
    hide CharPos, ZeroPadded;
    CharPosIs(e, r);
    ghost var was := dirb[..];
    StoreWord(dirb, 66 + 32 * e + 2 * r, w);
    forall k | 15 * e <= k < 15 * e + r ensures CharOf(dirb[..], k) == CharOf(was, k) {
      CharsApart(k, 15 * e + r);
    }
  }

  lemma SameThen(a: seq<byte>, b: seq<byte>, c: seq<byte>, hi: nat)
    requires Same(a, b, 0, hi) && Same(b, c, 0, hi)
    ensures Same(a, c, 0, hi)
  {
  }

  /** One name entry. */
  method FillEntry(dirb: array<byte>, e: nat, name: seq<wchar>, start: nat) returns (nlen: nat)
    requires dirb.Length == BUFFER && Named(name) && 64 + 32 * e + 32 <= BUFFER
    requires start == 15 * e <= |name|
    modifies dirb
    ensures Same(old(dirb[..]), dirb[..], 0, 64 + 32 * e) && EntryPart(dirb[..], name, e, 15)
    ensures nlen == if 15 * e + 15 <= |name| then 15 * e + 15 else |name|
  {
    hide EntryPart, Same;
    var lfn := name + [0];
    nlen := start;
    StartEntry(dirb, e, name);
    var chr: wchar := 1;
    var r := 0;
    while r < 15
      invariant r <= 15 && Same(old(dirb[..]), dirb[..], 0, 64 + 32 * e) && EntryPart(dirb[..], name, e, r)
      invariant nlen == (if 15 * e + r <= |name| then 15 * e + r else |name|)
      invariant chr == 0 <==> 15 * e + r > |name|
    {
      if chr != 0 {
        chr := lfn[nlen];
        if chr != 0 {
          nlen := nlen + 1;
        }
      }
      ghost var was := dirb[..];
      StoreChar(dirb, e, r, chr, name);
      SameThen(old(dirb[..]), was, dirb[..], 64 + 32 * e);
      r := r + 1;
    }
  }

  method AddEntry(dirb: array<byte>, e: nat, name: seq<wchar>, start: nat) returns (nlen: nat)
    requires dirb.Length == BUFFER && Named(name) && 64 + 32 * e + 32 <= BUFFER
    requires start == 15 * e <= |name| && NamePart(dirb[..], name, e)
    modifies dirb
    ensures Same(old(dirb[..]), dirb[..], 0, 64) && NamePart(dirb[..], name, e + 1)
    ensures nlen == if 15 * e + 15 <= |name| then 15 * e + 15 else |name|
  {
    hide NamePart, CharOf, CharPos, ZeroPadded;
    nlen := FillEntry(dirb, e, name, start);
    NamePartKept(old(dirb[..]), dirb[..], name, e);
    NamePartMore(dirb[..], name, e);
  }

  /** Builds the set of a new file. */
  method CreateXdir(dirb: array<byte>, name: seq<wchar>, upper: wchar -> wchar)
    requires dirb.Length == BUFFER && Named(name)
    modifies dirb
    ensures Block(dirb[..], name) && Word(dirb[36], dirb[37]) == NameHash(name, upper)
    ensures forall i | 2 <= i < 64 && i != 32 && !(35 <= i < 38) :: dirb[i] == 0
  {
    hide NamePart, NameHash;
    var lfn := name + [0];
    forall i | 0 <= i < 64 {
      dirb[i] := 0;
    }
    dirb[0] := 0x85;
    dirb[32] := 0xC0;
    NoName(dirb[..], name);
    var nc1, nlen, more := 0, 0, true;
    while more
      invariant dirb.Length == BUFFER && NamePart(dirb[..], name, nc1) && nc1 <= NameEntries(|name|)
      invariant dirb[0] == 0x85 && dirb[32] == 0xC0
      invariant forall i | 1 <= i < 64 && i != 32 :: dirb[i] == 0
      invariant nlen == if 15 * nc1 <= |name| then 15 * nc1 else |name|
      invariant if more then 15 * nc1 < |name| else nc1 == NameEntries(|name|)
      decreases |name| - 15 * nc1
    {
      ghost var was := dirb[..];
      nlen := AddEntry(dirb, nc1, name, nlen);
      assert Same(was, dirb[..], 0, 64);
      nc1 := nc1 + 1;
      more := lfn[nlen] != 0;
    }
    ghost var was := dirb[..];
    dirb[35] := nlen;
    dirb[1] := 1 + nc1;
    var hash := XnameSum(name, upper);
    StoreWord(dirb, 36, hash);
    NamePartKept(was, dirb[..], name, nc1);
  }

  lemma NoName(b: seq<byte>, name: seq<wchar>)
    requires |b| >= 64
    ensures NamePart(b, name, 0)
  {
  }

  // ---- The checksum

  /** One byte into the sum: rotate right and add, in 16 bits. */
  function AddByte(sum: wchar, x: byte): wchar {
    ((if sum % 2 == 1 then 0x8000 else 0) + sum / 2 + x) % 0x10000
  }

  /** The sum over bytes i to n - 1 of a set, without the two bytes of the sum itself. */
  function SumFrom(b: seq<byte>, i: nat, n: nat, sum: wchar): wchar
    requires n <= |b|
    decreases n - i
  {
    if i >= n then sum
    else if i == 2 || i == 3 then SumFrom(b, i + 1, n, sum)
    else SumFrom(b, i + 1, n, AddByte(sum, b[i]))
  }

  /** The size of a set, from its number of secondary entries. */
  function SetBytes(b: seq<byte>): nat
    requires |b| >= 2
  {
    ENTRY * Count(b[1])
  }

  /** The entries of a set with that many secondary ones. */
  function Count(secondary: byte): nat { 1 + secondary as int }

  method XdirSum(dirb: seq<byte>) returns (sum: wchar)
    requires |dirb| == BUFFER && SetBytes(dirb) <= BUFFER
    ensures sum == SumFrom(dirb, 0, SetBytes(dirb), 0)
  {
    hide AddByte;
    var size: int := SetBytes(dirb);
    var i := 0;
    sum := 0;
    while i < size
      invariant 0 <= i && SumFrom(dirb, i, size, sum) == SumFrom(dirb, 0, size, 0)
      invariant i != 3
    {
      if i == 2 {
        i := i + 1;
      } else {
        sum := AddByte(sum, dirb[i]);
      }
      i := i + 1;
    }
  }

  /** The sum does not depend on its own field. */
  lemma {:induction false} SumSkipsItself(a: seq<byte>, b: seq<byte>, i: nat, n: nat, sum: wchar)
    requires n <= |a| && n <= |b| && forall k | 0 <= k < n && k != 2 && k != 3 :: b[k] == a[k]
    ensures SumFrom(b, i, n, sum) == SumFrom(a, i, n, sum)
    decreases n - i
  {
    hide AddByte;
    if i < n {
      SumSkipsItself(a, b, i + 1, n, if i == 2 || i == 3 then sum else AddByte(sum, a[i]));
    }
  }

  lemma RotateInjective(s: wchar, t: wchar)
    requires (if s % 2 == 1 then 0x8000 else 0) + s / 2 == (if t % 2 == 1 then 0x8000 else 0) + t / 2
    ensures s == t
  {
  }

  lemma AddInjective(u: nat, v: nat, x: byte, y: byte)
    requires u < 0x10000 && v < 0x10000 && (u + x) % 0x10000 == (v + y) % 0x10000
    ensures x == y ==> u == v
    ensures u == v ==> x == y
  {
  }

  /** Different sums stay different, and different bytes make them different. */
  lemma AddByteInjective(s: wchar, t: wchar, x: byte, y: byte)
    requires AddByte(s, x) == AddByte(t, y)
    ensures x == y ==> s == t
    ensures s == t ==> x == y
  {
    var u: nat := (if s % 2 == 1 then 0x8000 else 0) + s / 2;
    var v: nat := (if t % 2 == 1 then 0x8000 else 0) + t / 2;
    AddInjective(u, v, x, y);
    if u == v {
      RotateInjective(s, t);
    }
  }

  lemma {:induction false} SumKeepsApart(a: seq<byte>, i: nat, n: nat, s: wchar, t: wchar)
    requires n <= |a| && s != t
    ensures SumFrom(a, i, n, s) != SumFrom(a, i, n, t)
    decreases n - i
  {
    hide AddByte;
    if i < n {
      if i == 2 || i == 3 {
        SumKeepsApart(a, i + 1, n, s, t);
      } else {
        if AddByte(s, a[i]) == AddByte(t, a[i]) {
          AddByteInjective(s, t, a[i], a[i]);
        }
        SumKeepsApart(a, i + 1, n, AddByte(s, a[i]), AddByte(t, a[i]));
      }
    }
  }

  /** A change of one byte always changes the sum. */
  lemma {:induction false} SumDetects(a: seq<byte>, p: nat, x: byte, i: nat, n: nat, sum: wchar)
    requires n <= |a| && i <= p < n && p != 2 && p != 3 && x != a[p]
    ensures SumFrom(a[p := x], i, n, sum) != SumFrom(a, i, n, sum)
    decreases n - i
  {
    hide AddByte;
    var b := a[p := x];
    if i < p {
      SumDetects(a, p, x, i + 1, n, if i == 2 || i == 3 then sum else AddByte(sum, a[i]));
    } else {
      if AddByte(sum, x) == AddByte(sum, a[p]) {
        AddByteInjective(sum, sum, x, a[p]);
      }
      SumKeepsApart(a, p + 1, n, AddByte(sum, x), AddByte(sum, a[p]));
      SumTail(a, b, p + 1, n, AddByte(sum, x));
    }
  }

  lemma {:induction false} SumTail(a: seq<byte>, b: seq<byte>, i: nat, n: nat, sum: wchar)
    requires n <= |a| && n <= |b| && forall k | i <= k < n :: b[k] == a[k]
    ensures SumFrom(b, i, n, sum) == SumFrom(a, i, n, sum)
    decreases n - i
  {
    hide AddByte;
    if i < n {
      SumTail(a, b, i + 1, n, if i == 2 || i == 3 then sum else AddByte(sum, a[i]));
    }
  }

  // ---- Storing and loading

  /** The bytes of n entries of a directory. */
  function Flat(dir: seq<Entry>, at: nat, n: nat): (b: seq<byte>)
    requires at + n <= |dir|
    ensures |b| == ENTRY * n
  {
    if n == 0 then [] else Flat(dir, at, n - 1) + dir[at + n - 1]
  }

  lemma {:induction false} FlatAt(dir: seq<Entry>, at: nat, n: nat, k: nat, i: nat)
    requires at + n <= |dir| && k < n && i < ENTRY
    ensures Flat(dir, at, n)[ENTRY * k + i] == dir[at + k][i]
    decreases n
  {
    if k < n - 1 {
      FlatAt(dir, at, n - 1, k, i);
    }
  }

  lemma {:induction false} FlatSame(dir: seq<Entry>, newDir: seq<Entry>, at: nat, n: nat)
    requires at + n <= |dir| && at + n <= |newDir| && forall k | at <= k < at + n :: newDir[k] == dir[k]
    ensures Flat(newDir, at, n) == Flat(dir, at, n)
    decreases n
  {
    if n > 0 {
      FlatSame(dir, newDir, at, n - 1);
    }
  }

  /** A set with its sum. */
  function Summed(b: seq<byte>): (r: seq<byte>)
    requires |b| == BUFFER && SetBytes(b) <= BUFFER
    ensures |r| == BUFFER && r[1] == b[1]
  {
    var sum := SumFrom(b, 0, SetBytes(b), 0);
    b[2 := sum % 256][3 := sum / 256]
  }

  lemma SummedSum(b: seq<byte>)
    requires |b| == BUFFER && SetBytes(b) <= BUFFER
    ensures var r := Summed(b); SumFrom(r, 0, SetBytes(r), 0) == Word(r[2], r[3])
  {
    hide SumFrom;
    SumSkipsItself(b, Summed(b), 0, SetBytes(b), 0);
  }

  /** Writes the set at a place of the directory; it fails if the directory ends before. */
  method StoreXdir(dir: seq<Entry>, at: nat, dirb: array<byte>) returns (ok: bool, newDir: seq<Entry>)
    requires dirb.Length == BUFFER && SetBytes(dirb[..]) <= BUFFER
    modifies dirb
    ensures dirb[..] == Summed(old(dirb[..]))
    ensures ok <==> at + Count(dirb[1]) <= |dir|
    ensures |newDir| == |dir| && forall k | 0 <= k < |dir| && !(at <= k < at + Count(dirb[1])) :: newDir[k] == dir[k]
    ensures ok ==> Flat(newDir, at, Count(dirb[1])) == dirb[..SetBytes(dirb[..])]
  {
    hide SumFrom, Flat;
    newDir := dir;
    var sum := XdirSum(dirb[..]);
    ghost var was := dirb[..];
    dirb[2], dirb[3] := sum % 256, sum / 256;
    assert dirb[..] == Summed(was);
    var nent := Count(dirb[1]);
    FlatNone(newDir, at);
    var k := 0;
    while k < nent && at + k < |dir|
      invariant dirb[..] == Summed(was)
      invariant k <= nent && |newDir| == |dir| && (k > 0 ==> at + k <= |dir|)
      invariant forall j | 0 <= j < |dir| && !(at <= j < at + k) :: newDir[j] == dir[j]
      invariant at + k <= |dir| ==> Flat(newDir, at, k) == dirb[..ENTRY * k]
    {
      var e := dirb[ENTRY * k..ENTRY * k + ENTRY];
      FlatMore(newDir, at, k, e);
      assert dirb[..ENTRY * k] + e == dirb[..ENTRY * (k + 1)];
      newDir := newDir[at + k := e];
      k := k + 1;
    }
    ok := k == nent;
  }

  lemma FlatNone(dir: seq<Entry>, at: nat)
    ensures at <= |dir| ==> Flat(dir, at, 0) == []
  {
  }

  lemma FlatMore(dir: seq<Entry>, at: nat, k: nat, e: Entry)
    requires at + k < |dir|
    ensures Flat(dir[at + k := e], at, k + 1) == Flat(dir, at, k) + e
  {
    FlatSame(dir, dir[at + k := e], at, k);
  }

  /** What a set in a directory must be like. */
  ghost predicate Acceptable(dir: seq<Entry>, at: nat) {
    && at < |dir| && dir[at][0] == 0x85
    && var n := Count(dir[at][1]);
    && 3 <= n <= 19 && at + n <= |dir|
    && dir[at + 1][0] == 0xC0 && SetSize(dir[at + 1][3]) <= ENTRY * n
    && (forall k | at + 2 <= k < at + n :: dir[k][0] == 0xC1)
    && SumFrom(Flat(dir, at, n), 0, ENTRY * n, 0) == Word(dir[at][2], dir[at][3])
  }

  method CopyEntry(dirb: array<byte>, at: nat, e: Entry)
    requires at + ENTRY <= dirb.Length
    modifies dirb
    ensures dirb[..at + ENTRY] == old(dirb[..at]) + e
    ensures dirb[at + ENTRY..] == old(dirb[at + ENTRY..])
  {
    forall i | 0 <= i < ENTRY {
      dirb[at + i] := e[i];
    }
  }

  /** Reads the set at a place of the directory and checks it. */
  method LoadXdir(dir: seq<Entry>, at: nat, dirb: array<byte>) returns (ok: bool)
    requires dirb.Length == BUFFER
    modifies dirb
    ensures ok <==> Acceptable(dir, at)
    ensures ok ==> dirb[..ENTRY * Count(dir[at][1])] == Flat(dir, at, Count(dir[at][1]))
  {
    hide SumFrom, Flat, SetSize;
    if at >= |dir| || dir[at][0] != 0x85 {
      return false;
    }
    CopyEntry(dirb, 0, dir[at]);
    FlatStart(dir, at);
    var n := Count(dirb[1]);
    if n < 3 || n > 19 {
      return false;
    }
    if at + 1 >= |dir| || dir[at + 1][0] != 0xC0 {
      return false;
    }
    CopyEntry(dirb, ENTRY, dir[at + 1]);
    if SetSize(dirb[35]) > ENTRY * n {
      return false;
    }
    var k := 2;
    while k < n
      invariant 2 <= k <= n && at + k <= |dir| && dirb[..ENTRY * k] == Flat(dir, at, k)
      invariant forall j | at + 2 <= j < at + k :: dir[j][0] == 0xC1
    {
      if at + k >= |dir| || dir[at + k][0] != 0xC1 {
        return false;
      }
      CopyEntry(dirb, ENTRY * k, dir[at + k]);
      FlatNext(dir, at, k);
      k := k + 1;
    }
    FlatAt(dir, at, n, 0, 1);
    FlatAt(dir, at, n, 0, 2);
    FlatAt(dir, at, n, 0, 3);
    assert dirb[..ENTRY * n] == Flat(dir, at, n);
    var sum := XdirSum(dirb[..]);
    SumTail(dirb[..], Flat(dir, at, n), 0, ENTRY * n, 0);
    ok := sum == Word(dirb[2], dirb[3]);
  }

  lemma FlatNext(dir: seq<Entry>, at: nat, k: nat)
    requires at + k < |dir|
    ensures Flat(dir, at, k + 1) == Flat(dir, at, k) + dir[at + k]
  {
  }

  lemma FlatStart(dir: seq<Entry>, at: nat)
    requires at < |dir|
    ensures Flat(dir, at, 1) == dir[at]
    ensures at + 1 < |dir| ==> Flat(dir, at, 2) == Flat(dir, at, 1) + dir[at + 1]
  {
    assert Flat(dir, at, 0) == [];
  }

  // ---- The round trip

  /** A set that was built for a name and stored is accepted. */
  lemma StoredIsAccepted(b: seq<byte>, name: seq<wchar>, dir: seq<Entry>, at: nat)
    requires Block(b, name) && at + Count(b[1]) <= |dir| && SetBytes(b) <= BUFFER
    requires Flat(dir, at, Count(b[1])) == Summed(b)[..SetBytes(b)]
    ensures Acceptable(dir, at)
  {
    hide SumFrom, Flat, CharOf, CharPos, NameEntries, SetSize;
    SizeIs(|name|);
    var n, r := Count(b[1]), Summed(b);
    FlatAt(dir, at, n, 0, 0);
    FlatAt(dir, at, n, 0, 1);
    FlatAt(dir, at, n, 0, 2);
    FlatAt(dir, at, n, 0, 3);
    FlatAt(dir, at, n, 1, 0);
    FlatAt(dir, at, n, 1, 3);
    forall k | at + 2 <= k < at + n ensures dir[k][0] == 0xC1 {
      FlatAt(dir, at, n, k - at, 0);
      assert TypeOf(b, k - at - 2) == 0xC1;
    }
    SummedSum(b);
    SumTail(r, Flat(dir, at, n), 0, SetBytes(b), 0);
  }

  /** What is loaded from it is a set for the same name. */
  lemma LoadedIsBlock(b: seq<byte>, name: seq<wchar>, d: seq<byte>)
    requires Block(b, name) && SetBytes(b) <= BUFFER && |d| == BUFFER
    requires d[..SetBytes(b)] == Summed(b)[..SetBytes(b)]
    ensures Block(d, name) && forall i | 4 <= i < SetBytes(b) :: d[i] == b[i]
  {
    hide SumFrom, NamePart, NameEntries;
    SizeIs(|name|);
    forall i | 0 <= i < SetBytes(b) && i != 2 && i != 3 ensures d[i] == b[i] {
      assert d[i] == d[..SetBytes(b)][i] == Summed(b)[..SetBytes(b)][i];
    }
    NamePartKept(b, d, name, NameEntries(|name|));
  }

  /** Storing and loading again, with any buffer, gives the stored bytes and the name. */
  method StoreAndLoad(dir: seq<Entry>, at: nat, dirb: array<byte>, other: array<byte>, ghost name: seq<wchar>)
    returns (ok: bool, newDir: seq<Entry>)
    requires dirb.Length == BUFFER && other.Length == BUFFER && dirb != other
    requires Block(dirb[..], name) && at + Count(dirb[1]) <= |dir|
    modifies dirb, other
    ensures ok && Block(other[..], name)
    ensures SetBytes(dirb[..]) <= BUFFER && other[..SetBytes(dirb[..])] == dirb[..SetBytes(dirb[..])]
    ensures forall i | 4 <= i < SetBytes(dirb[..]) :: other[i] == old(dirb[i])
  {
    hide Flat, NamePart, SumFrom, Acceptable, NameEntries;
    SizeIs(|name|);
    ghost var b := dirb[..];
    ok, newDir := StoreXdir(dir, at, dirb);
    StoredIsAccepted(b, name, newDir, at);
    FlatAt(newDir, at, Count(b[1]), 0, 1);
    ok := LoadXdir(newDir, at, other);
    LoadedIsBlock(b, name, other[..]);
  }

  lemma {:induction false} FlatDamaged(dir: seq<Entry>, at: nat, n: nat, k: nat, i: nat, x: byte)
    requires at + n <= |dir| && k < n && i < ENTRY
    ensures Flat(dir[at + k := dir[at + k][i := x]], at, n) == Flat(dir, at, n)[ENTRY * k + i := x]
    decreases n
  {
    var newDir := dir[at + k := dir[at + k][i := x]];
    if k == n - 1 {
      FlatSame(dir, newDir, at, n - 1);
    } else {
      FlatDamaged(dir, at, n - 1, k, i, x);
    }
  }

  /** A change of any one byte of an accepted set, its count of entries aside, is refused. */
  lemma DamageIsRefused(dir: seq<Entry>, at: nat, k: nat, i: nat, x: byte)
    requires Acceptable(dir, at) && k < Count(dir[at][1]) && i < ENTRY
    requires x != dir[at + k][i] && !(k == 0 && i == 1)
    ensures !Acceptable(dir[at + k := dir[at + k][i := x]], at)
  {
    hide SumFrom, Flat, SetSize;
    var n := Count(dir[at][1]);
    var newDir := dir[at + k := dir[at + k][i := x]];
    var p := ENTRY * k + i;
    FlatDamaged(dir, at, n, k, i, x);
    FlatAt(dir, at, n, k, i);
    if p == 2 || p == 3 {
      SumSkipsItself(Flat(dir, at, n), Flat(newDir, at, n), 0, ENTRY * n, 0);
    } else {
      SumDetects(Flat(dir, at, n), p, x, 0, ENTRY * n, 0);
    }
  }

  // ---- Looking up a name

  /** The hash of a name in upper case. */
  function NameHash(name: seq<wchar>, upper: wchar -> wchar): wchar {
    if name == [] then 0
    else
      var c := upper(name[|name| - 1]);
      AddByte(AddByte(NameHash(name[..|name| - 1], upper), c % 256), c / 256)
  }

  method XnameSum(name: seq<wchar>, upper: wchar -> wchar) returns (sum: wchar)
    ensures sum == NameHash(name, upper)
  {
    hide AddByte;
    sum := 0;
    var i := 0;
    while i < |name|
      invariant i <= |name| && sum == NameHash(name[..i], upper)
    {
      var c := upper(name[i]);
      assert name[..i + 1][..i] == name[..i];
      sum := AddByte(sum, c % 256);
      sum := AddByte(sum, c / 256);
      i := i + 1;
    }
    assert name[..i] == name;
  }

  ghost predicate SameUpper(a: seq<wchar>, b: seq<wchar>, upper: wchar -> wchar) {
    |a| == |b| && forall k | 0 <= k < |a| :: upper(a[k]) == upper(b[k])
  }

  lemma {:induction false} SameHash(a: seq<wchar>, b: seq<wchar>, upper: wchar -> wchar)
    requires SameUpper(a, b, upper)
    ensures NameHash(a, upper) == NameHash(b, upper)
    decreases |a|
  {
    hide AddByte;
    if a != [] {
      SameHash(a[..|a| - 1], b[..|b| - 1], upper);
    }
  }

  /** Compares a loaded set with the name that is looked for. Case conversion maps nothing but
      the terminator to zero. */
  method Matches(dirb: seq<byte>, key: seq<wchar>, upper: wchar -> wchar, hash: wchar, ghost name: seq<wchar>)
    returns (found: bool)
    requires Block(dirb, name) && Named(key) && (forall c :: upper(c) == 0 <==> c == 0)
    ensures found <==> Word(dirb[36], dirb[37]) == hash && SameUpper(name, key, upper)
  {
    hide NameEntries, CharOf, CharPos, ZeroPadded;
    if Word(dirb[36], dirb[37]) != hash {
      return false;
    }
    var lfn := key + [0];
    var nc, di, ni := dirb[35] as int, 64, 0;
    while nc > 0
      invariant 0 <= nc && ni + nc == |name| && ni <= |key|
      invariant di == (if ni % 15 == 0 then 64 + 32 * (ni / 15) else 66 + 32 * (ni / 15) + 2 * (ni % 15))
      invariant forall k | 0 <= k < ni :: upper(name[k]) == upper(key[k])
    {
      if di % 32 == 0 {
        di := di + 2;
      }
      NextChar(dirb, name, ni);
      if upper(Word(dirb[di], dirb[di + 1])) != upper(lfn[ni]) {
        return false;
      }
      nc, di, ni := nc - 1, di + 2, ni + 1;
    }
    found := lfn[ni] == 0;
  }

  lemma NextChar(b: seq<byte>, name: seq<wchar>, k: nat)
    requires Block(b, name) && k < |name|
    ensures var p := 66 + 32 * (k / 15) + 2 * (k % 15); p + 1 < |b| && Word(b[p], b[p + 1]) == name[k]
  {
    CharInside(k, NameEntries(|name|));
    SizeIs(|name|);
    assert CharOf(b, k) == ZeroPadded(name, k);
  }

  /** A stored file is found under its name in any case, and under no other name. */
  method Lookup(dirb: seq<byte>, key: seq<wchar>, upper: wchar -> wchar, ghost name: seq<wchar>) returns (found: bool)
    requires Block(dirb, name) && Named(key) && (forall c :: upper(c) == 0 <==> c == 0)
    requires Word(dirb[36], dirb[37]) == NameHash(name, upper)
    ensures found <==> SameUpper(name, key, upper)
  {
    hide NameHash, Block;
    var hash := XnameSum(key, upper);
    found := Matches(dirb, key, upper, hash, name);
    if SameUpper(name, key, upper) {
      SameHash(name, key, upper);
    }
  }

  // ---- The two sums, step by step

  /** A step rotates the sum right by one bit, so that the lowest bit b becomes the highest, and adds
      the byte, in 16 bits. */
  lemma AddByteIs(q: nat, b: nat, x: byte)
    requires q < 0x8000 && b < 2
    ensures AddByte(2 * q + b, x) == (0x8000 * b + q + x as int) % 0x10000
  {
  }

  /** The sum takes the bytes in order and leaves out bytes 2 and 3. */
  lemma SumInOrder(b: seq<byte>, n: nat, sum: wchar)
    requires 5 <= n <= |b|
    ensures SumFrom(b, 0, n, sum) == SumFrom(b, 5, n, AddByte(AddByte(AddByte(sum, b[0]), b[1]), b[4]))
    ensures forall i, s | 4 <= i < n :: SumFrom(b, i, n, s) == SumFrom(b, i + 1, n, AddByte(s, b[i]))
    ensures forall s :: SumFrom(b, n, n, s) == s
  {
    hide AddByte;
    assert SumFrom(b, 2, n, AddByte(AddByte(sum, b[0]), b[1])) == SumFrom(b, 4, n, AddByte(AddByte(sum, b[0]), b[1]));
  }

  /** The hash takes the upper-case characters in order, the low byte of each first. */
  lemma HashInOrder(name: seq<wchar>, c: wchar, upper: wchar -> wchar)
    ensures NameHash([], upper) == 0
    ensures NameHash(name + [c], upper)
         == AddByte(AddByte(NameHash(name, upper), upper(c) % 256), upper(c) / 256)
  {
    hide AddByte;
    assert (name + [c])[..|name|] == name;
  }

  /** What is accepted: a file entry, a stream entry and only name entries, 3 to 19 in all, enough
      for the length of the name, with the right sum. */
  lemma AcceptedShape(dir: seq<Entry>, at: nat)
    ensures Acceptable(dir, at) <==>
      && at < |dir| && dir[at][0] == 0x85
      && var n := 1 + dir[at][1] as int;
      && 3 <= n <= 19 && at + n <= |dir| && dir[at + 1][0] == 0xC0
      && (forall k | at + 2 <= k < at + n :: dir[k][0] == 0xC1)
      && dir[at + 1][3] as int <= 15 * (n - 2)
      && SumFrom(Flat(dir, at, n), 0, 32 * n, 0) == dir[at][2] as int + 256 * dir[at][3] as int
  {
    hide SumFrom, Flat;
  }
}
