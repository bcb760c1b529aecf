/** Numbered short names: the stem of a name, a tilde and a number, or for many collisions a
    16-bit hash of the long name started at the number. */
module ShortNames {

  const SPACE: bv8 := 0x20
  const TILDE: bv8 := 0x7E

  // ---- The hash

  /** The xor that follows a shift, when a bit has fallen out. */
  function Fold(x: bv32): (r: bv32)
    requires x < 0x20000
    ensures r < 0x10000
  {
    if x & 0x10000 != 0 then x ^ 0x11021 else x
  }

  /** The constant is odd, so the last bit tells whether there was an xor. */
  function Unfold(r: bv32, bit: bv32): (x: bv32)
    requires r < 0x10000
    ensures x < 0x20000
  {
    if r & 1 == bit then r else r ^ 0x11021
  }

  lemma UnfoldFold(x: bv32)
    requires x < 0x20000
    ensures Unfold(Fold(x), x & 1) == x
  {
  }

  lemma FoldUnfold(r: bv32, bit: bv32)
    requires r < 0x10000 && bit < 2
    ensures Fold(Unfold(r, bit)) == r && Unfold(r, bit) & 1 == bit
  {
  }

  lemma Disjoint(sr: bv32, bit: bv32)
    requires sr < 0x10000 && bit < 2
    ensures (sr << 1) + bit == (sr << 1) | bit
  {
  }

  lemma Below(sr: bv32, bit: bv32)
    requires sr < 0x10000 && bit < 2
    ensures (sr << 1) | bit < 0x20000
  {
  }

  lemma Parts(sr: bv32, bit: bv32)
    requires sr < 0x10000 && bit < 2
    ensures ((sr << 1) | bit) & 1 == bit && ((sr << 1) | bit) >> 1 == sr
  {
  }

  function Double(sr: bv32, bit: bv32): (x: bv32)
    requires sr < 0x10000 && bit < 2
    ensures x < 0x20000 && x & 1 == bit && Half(x) == sr
  {
    Disjoint(sr, bit);
    Below(sr, bit);
    Parts(sr, bit);
    (sr << 1) + bit
  }

  function Half(x: bv32): bv32 { x >> 1 }

  lemma Halved(x: bv32)
    requires x < 0x20000
    ensures Half(x) < 0x10000 && Double(Half(x), x & 1) == x
  {
  }

  /** One bit of the name. */
  function Shift(sr: bv32, bit: bv32): (r: bv32)
    requires sr < 0x10000 && bit < 2
    ensures r < 0x10000
  {
    Fold(Double(sr, bit))
  }

  function Unshift(r: bv32, bit: bv32): (sr: bv32)
    requires r < 0x10000 && bit < 2
    ensures sr < 0x10000
  {
    Halved(Unfold(r, bit));
    Half(Unfold(r, bit))
  }

  lemma ShiftBack(sr: bv32, bit: bv32)
    requires sr < 0x10000 && bit < 2
    ensures Unshift(Shift(sr, bit), bit) == sr
  {
    hide Fold, Unfold, Double, Half;
    UnfoldFold(Double(sr, bit));
  }

  lemma UnshiftBack(r: bv32, bit: bv32)
    requires r < 0x10000 && bit < 2
    ensures Shift(Unshift(r, bit), bit) == r
  {
    hide Fold, Unfold, Double, Half;
    FoldUnfold(r, bit);
    Halved(Unfold(r, bit));
  }

  function LowBit(wc: bv16): (b: bv32)
    ensures b < 2
  {
    (wc & 1) as bv32
  }

  /** The lowest n bits of a character, the lowest first. */
  function HashBits(sr: bv32, wc: bv16, n: nat): (r: bv32)
    requires sr < 0x10000
    ensures r < 0x10000
    decreases n
  {
    if n == 0 then sr else HashBits(Shift(sr, LowBit(wc)), wc >> 1, n - 1)
  }

  function UnhashBits(r: bv32, wc: bv16, n: nat): (sr: bv32)
    requires r < 0x10000
    ensures sr < 0x10000
    decreases n
  {
    if n == 0 then r else Unshift(UnhashBits(r, wc >> 1, n - 1), LowBit(wc))
  }

  lemma {:induction false} BitsBack(sr: bv32, wc: bv16, n: nat)
    requires sr < 0x10000
    ensures UnhashBits(HashBits(sr, wc, n), wc, n) == sr
    ensures HashBits(UnhashBits(sr, wc, n), wc, n) == sr
    decreases n
  {
    hide Shift, Unshift, LowBit;
    if n > 0 {
      BitsBack(Shift(sr, LowBit(wc)), wc >> 1, n - 1);
      ShiftBack(sr, LowBit(wc));
      BitsBack(sr, wc >> 1, n - 1);
      UnshiftBack(UnhashBits(sr, wc >> 1, n - 1), LowBit(wc));
    }
  }

  function Hash(lfn: seq<bv16>, sr: bv32): (r: bv32)
    requires sr < 0x10000
    ensures r < 0x10000
  {
    if lfn == [] then sr else Hash(lfn[1..], HashBits(sr, lfn[0], 16))
  }

  function Unhash(lfn: seq<bv16>, r: bv32): (sr: bv32)
    requires r < 0x10000
    ensures sr < 0x10000
  {
    if lfn == [] then r else UnhashBits(Unhash(lfn[1..], r), lfn[0], 16)
  }

  /** For every long name, the hash is a bijection of its 16-bit start value. */
  lemma {:induction false} HashBijective(lfn: seq<bv16>, sr: bv32)
    requires sr < 0x10000
    ensures Unhash(lfn, Hash(lfn, sr)) == sr
    ensures Hash(lfn, Unhash(lfn, sr)) == sr
    decreases |lfn|
  {
    hide HashBits, UnhashBits;
    if lfn != [] {
      HashBijective(lfn[1..], HashBits(sr, lfn[0], 16));
      BitsBack(sr, lfn[0], 16);
      HashBijective(lfn[1..], sr);
      BitsBack(Unhash(lfn[1..], sr), lfn[0], 16);
    }
  }

  // ---- The digits

  function Digit(h: bv32): (c: bv8)
    ensures c != SPACE && c != TILDE
  {
    var c := (h % 16) as bv8 + 0x30;
    if c > 0x39 then c + 7 else c
  }

  function DigitValue(c: bv8): bv32 {
    if c > 0x39 then (c - 0x37) as bv32 else (c - 0x30) as bv32
  }

  lemma DigitBack(h: bv32)
    ensures DigitValue(Digit(h)) == h % 16
  {
  }

  function Digits(h: bv32): (d: seq<bv8>)
    ensures |d| >= 1 && forall k | 0 <= k < |d| :: d[k] != SPACE && d[k] != TILDE
    decreases h
  {
    if h / 16 == 0 then [Digit(h)] else Digits(h / 16) + [Digit(h)]
  }

  function WithDigit(v: bv32, d: bv32): bv32 { v * 16 + d }

  lemma WithDigitBack(h: bv32)
    ensures WithDigit(h / 16, h % 16) == h
  {
  }

  lemma Smaller(h: bv32)
    ensures h / 16 < h || h / 16 == 0
  {
  }

  function Parse(d: seq<bv8>): bv32 {
    if d == [] then 0 else WithDigit(Parse(d[..|d| - 1]), DigitValue(d[|d| - 1]))
  }

  lemma ParseMore(d: seq<bv8>, c: bv8)
    ensures Parse(d + [c]) == WithDigit(Parse(d), DigitValue(c))
  {
    assert (d + [c])[..|d|] == d;
  }

  lemma {:induction false} ParseDigits(h: bv32)
    ensures Parse(Digits(h)) == h
    decreases h
  {
    hide Digit, DigitValue, WithDigit, Parse;
    Smaller(h);
    DigitBack(h);
    WithDigitBack(h);
    if h / 16 != 0 {
      ParseDigits(h / 16);
      ParseMore(Digits(h / 16), Digit(h));
    } else {
      ParseMore([], Digit(h));
      ParseNone();
      assert [] + [Digit(h)] == [Digit(h)];
    }
  }

  lemma ParseNone()
    ensures Parse([]) == 0
  {
  }

  lemma Shrinks(h: bv32)
    ensures h < 0x10000 ==> h / 16 < 0x1000
    ensures h < 0x1000 ==> h / 16 < 0x100
    ensures h < 0x100 ==> h / 16 < 0x10
    ensures h < 0x10 ==> h / 16 == 0
  {
  }

  lemma FewDigits(h: bv32)
    requires h < 0x10000
    ensures |Digits(h)| <= 4
  {
    hide Digit;
    Shrinks(h);
    Shrinks(h / 16);
    Shrinks(h / 16 / 16);
    Shrinks(h / 16 / 16 / 16);
    assert h / 16 / 16 / 16 != 0 ==> |Digits(h / 16 / 16 / 16)| == 1;
    assert h / 16 / 16 != 0 ==> |Digits(h / 16 / 16)| <= 2;
  }

  // ---- The name

  /** How much of a name stays, with room up to i: up to the first space. */
  function Stem(src: seq<bv8>, i: nat, j: nat): (k: nat)
    requires j <= i <= |src|
    ensures j <= k <= i
    decreases i - j
  {
    if j == i || src[j] == SPACE then j else Stem(src, i, j + 1)
  }

  function Spaces(n: nat): seq<bv8> { seq(n, i => SPACE) }

  /** The stem, a tilde and the digits, filled up to eight, and the extension. */
  function Numbered(src: seq<bv8>, d: seq<bv8>): (r: seq<bv8>)
    requires |src| == 11 && |d| <= 7
    ensures |r| == 11
  {
    var k := Stem(src, 7 - |d|, 0);
    src[..k] + [TILDE] + d + Spaces(7 - |d| - k) + src[8..]
  }

  /** The number that goes into the name. */
  function Number(lfn: seq<bv16>, number: bv32): (h: bv32)
    requires number < 0x10000
    ensures h < 0x10000
  {
    hide Hash;
    if number > 5 then Hash(lfn, number) else number
  }

  function NumName(src: seq<bv8>, lfn: seq<bv16>, number: bv32): seq<bv8>
    requires |src| == 11 && number < 0x10000
  {
    FewDigits(Number(lfn, number));
    Numbered(src, Digits(Number(lfn, number)))
  }

  /** The place after the last tilde before place n. */
  function AfterTilde(name: seq<bv8>, n: nat): (k: nat)
    requires n <= |name|
    ensures k <= n
  {
    if n == 0 || name[n - 1] == TILDE then n else AfterTilde(name, n - 1)
  }

  function UpToSpace(name: seq<bv8>, k: nat, n: nat): seq<bv8>
    requires k <= n <= |name|
    decreases n - k
  {
    if k == n || name[k] == SPACE then [] else [name[k]] + UpToSpace(name, k + 1, n)
  }

  /** The number in a numbered name. */
  function NumberIn(name: seq<bv8>): bv32
    requires |name| == 11
  {
    Parse(UpToSpace(name, AfterTilde(name, 8), 8))
  }

  lemma {:induction false} AfterTildeIs(name: seq<bv8>, k: nat, n: nat)
    requires 1 <= k <= n <= |name| && name[k - 1] == TILDE && forall i | k <= i < n :: name[i] != TILDE
    ensures AfterTilde(name, n) == k
    decreases n
  {
    if k < n {
      AfterTildeIs(name, k, n - 1);
    }
  }

  lemma {:induction false} UpToSpaceIs(name: seq<bv8>, k: nat, n: nat, m: nat)
    requires k <= m <= n <= |name| && (forall i | k <= i < m :: name[i] != SPACE) && (m < n ==> name[m] == SPACE)
    ensures UpToSpace(name, k, n) == name[k..m]
    decreases m - k
  {
    if k < m {
      UpToSpaceIs(name, k + 1, n, m);
      assert name[k..m] == [name[k]] + name[k + 1..m];
    }
  }

  lemma NumberBack(src: seq<bv8>, h: bv32)
    requires |src| == 11 && |Digits(h)| <= 7
    ensures NumberIn(Numbered(src, Digits(h))) == h
  {
    hide Digits, Parse, AfterTilde, UpToSpace, Stem;
    var d := Digits(h);
    var name := Numbered(src, d);
    var k := Stem(src, 7 - |d|, 0);
    assert name[k] == TILDE && name[k + 1..k + 1 + |d|] == d;
    forall i | 0 <= i < |d| ensures name[k + 1..k + 1 + |d|][i] == name[k + 1 + i] == d[i] {}
    forall i | k + 1 <= i < 8 ensures name[i] != TILDE && (i < k + 1 + |d| ==> name[i] != SPACE) {
      if i < k + 1 + |d| {
        assert name[i] == d[i - k - 1];
      } else {
        assert name[i] == SPACE;
      }
    }
    AfterTildeIs(name, k + 1, 8);
    UpToSpaceIs(name, k + 1, 8, k + 1 + |d|);
    ParseDigits(h);
  }

  /** The sequence number can be read back from the numbered name and the long name. */
  lemma NumberRecovered(src: seq<bv8>, lfn: seq<bv16>, number: bv32)
    requires |src| == 11 && number < 0x10000
    ensures NumberIn(NumName(src, lfn, number)) == Number(lfn, number)
    ensures number > 5 ==> Unhash(lfn, NumberIn(NumName(src, lfn, number))) == number
  {
    hide Numbered, Digits, NumberIn, Hash, Unhash;
    FewDigits(Number(lfn, number));
    NumberBack(src, Number(lfn, number));
    HashBijective(lfn, number);
  }

  /** Two sequence numbers give the same name exactly if they are the same, or one is up to 5 and
      is the hash of the other; so different ones above 5 never do, for a long name of any length. */
  lemma NamesEqual(src: seq<bv8>, lfn: seq<bv16>, a: bv32, b: bv32)
    requires |src| == 11 && a < 0x10000 && b < 0x10000
    ensures NumName(src, lfn, a) == NumName(src, lfn, b) <==>
              a == b || (a <= 5 < b && Hash(lfn, b) == a) || (b <= 5 < a && Hash(lfn, a) == b)
  {
    hide NumName, NumberIn, Hash, Unhash;
    NumberRecovered(src, lfn, a);
    NumberRecovered(src, lfn, b);
    HashBijective(lfn, a);
    HashBijective(lfn, b);
    if Number(lfn, a) == Number(lfn, b) {
      SameNumber(src, lfn, a, b);
    }
  }

  lemma SameNumber(src: seq<bv8>, lfn: seq<bv16>, a: bv32, b: bv32)
    requires |src| == 11 && a < 0x10000 && b < 0x10000 && Number(lfn, a) == Number(lfn, b)
    ensures NumName(src, lfn, a) == NumName(src, lfn, b)
  {
  }

  /** Every number is the hash of one start value, so a name with a number up to 5 is met by the
      name of that start value if it is above 5, and by no other. */
  lemma HashMeets(src: seq<bv8>, lfn: seq<bv16>, a: bv32)
    requires |src| == 11 && a <= 5
    ensures var b := Unhash(lfn, a);
      Hash(lfn, b) == a && (NumName(src, lfn, b) == NumName(src, lfn, a) <==> b == a || b > 5)
  {
    hide NumName, Hash, Unhash;
    HashBijective(lfn, a);
    NamesEqual(src, lfn, a, Unhash(lfn, a));
  }

  lemma NextBit(sr: bv32, wc: bv16, n: nat, r: bv32)
    requires sr < 0x10000 && n > 0 && Shift(sr, LowBit(wc)) == r
    ensures HashBits(sr, wc, n) == HashBits(r, wc >> 1, n - 1)
  {
    hide Shift, LowBit;
  }

  lemma SixHashesToTwo()
    ensures HashBits(6, 0x2306, 16) == 2
  {
    hide HashBits;
    NextBit(0x6, 0x2306, 16, 0xC);
    NextBit(0xC, 0x1183, 15, 0x19);
    NextBit(0x19, 0x8C1, 14, 0x33);
    NextBit(0x33, 0x460, 13, 0x66);
    NextBit(0x66, 0x230, 12, 0xCC);
    NextBit(0xCC, 0x118, 11, 0x198);
    NextBit(0x198, 0x8C, 10, 0x330);
    NextBit(0x330, 0x46, 9, 0x660);
    NextBit(0x660, 0x23, 8, 0xCC1);
    NextBit(0xCC1, 0x11, 7, 0x1983);
    NextBit(0x1983, 0x8, 6, 0x3306);
    NextBit(0x3306, 0x4, 5, 0x660C);
    NextBit(0x660C, 0x2, 4, 0xCC18);
    NextBit(0xCC18, 0x1, 3, 0x8810);
    NextBit(0x8810, 0x0, 2, 0x1);
    NextBit(0x1, 0x0, 1, 0x2);
    HashNothing(2, 0);
  }

  lemma HashNothing(sr: bv32, wc: bv16)
    requires sr < 0x10000
    ensures HashBits(sr, wc, 0) == sr
  {
  }

  /** A long name of one character for which the numbers 2 and 6, both of which are tried for a
      new file, give the same short name. */
  lemma NamesMeet(src: seq<bv8>)
    requires |src| == 11
    ensures NumName(src, [0x2306], 6) == NumName(src, [0x2306], 2)
  {
    hide NumName, HashBits;
    SixHashesToTwo();
    assert [0x2306 as bv16][1..] == [];
    NamesEqual(src, [0x2306], 6, 2);
  }

  // ---- The source's loops

  method HashName(lfn: seq<bv16>, number: bv32) returns (sr: bv32)
    requires number < 0x10000
    ensures sr == Hash(lfn, number)
  {
    hide Shift, LowBit;
    sr := number;
    var n := 0;
    while n < |lfn|
      invariant n <= |lfn| && sr < 0x10000 && Hash(lfn[n..], sr) == Hash(lfn, number)
    {
      var wc := lfn[n];
      ghost var was := sr;
      var i := 0;
      while i < 16
        invariant i <= 16 && sr < 0x10000 && HashBits(sr, wc, 16 - i) == HashBits(was, lfn[n], 16)
      {
        sr := Shift(sr, LowBit(wc));
        wc := wc >> 1;
        i := i + 1;
      }
      assert lfn[n..][1..] == lfn[n + 1..];
      n := n + 1;
    }
  }

  /** The digits at the end of eight places, with the tilde before them. */
  method Itoa(h: bv32) returns (ns: array<bv8>, i: nat)
    requires h < 0x10000
    ensures fresh(ns) && ns.Length == 8 && i == 7 - |Digits(h)| && ns[i] == TILDE && ns[i + 1..] == Digits(h)
  {
    hide Digit;
    ns := new bv8[8];
    FewDigits(h);
    i := 7;
    var q, more := h, true;
    while more
      invariant i <= 7 && ns.Length == 8 && (i < 7 <==> q != h || !more)
      invariant Digits(h) == (if more then Digits(q) else []) + ns[i + 1..]
      decreases more, q
    {
      Smaller(q);
      ghost var was := ns[i + 1..];
      ns[i] := Digit(q);
      assert ns[i..] == [Digit(q)] + was;
      i := i - 1;
      more := q / 16 != 0;
      q := q / 16;
    }
    ns[i] := TILDE;
  }

  /** The single-byte code page has no two-byte characters, so every character counts alone. */
  method GenNumName(dst: array<bv8>, src: seq<bv8>, lfn: seq<bv16>, number: bv32)
    requires dst.Length == 11 && |src| == 11 && number < 0x10000
    modifies dst
    ensures dst[..] == NumName(src, lfn, number)
  {
    hide Digits, Hash;
    forall x | 0 <= x < 11 {
      dst[x] := src[x];
    }
    var h := number;
    if number > 5 {
      h := HashName(lfn, number);
    }
    FewDigits(h);
    var ns, i := Itoa(h);
    Append(dst, ns, i, src, Digits(h));
  }

  method Append(dst: array<bv8>, ns: array<bv8>, start: nat, ghost src: seq<bv8>, ghost d: seq<bv8>)
    requires dst.Length == 11 && ns.Length == 8 && dst != ns && dst[..] == src && 1 <= |d| <= 7 && |src| == 11
    requires start == 7 - |d| && ns[start] == TILDE && ns[start + 1..] == d
    modifies dst
    ensures dst[..] == Numbered(src, d)
  {
    var i, j := start, 0;
    while j < i && dst[j] != SPACE
      invariant j <= i && Stem(src, i, j) == Stem(src, i, 0)
    {
      j := j + 1;
    }
    AppendFrom(dst, ns, i, j, src, [TILDE] + d + Spaces(i - j));
    assert src[..j] + ([TILDE] + d + Spaces(i - j)) + src[8..] == Numbered(src, d);
  }

  method AppendFrom(dst: array<bv8>, ns: array<bv8>, start: nat, k: nat, ghost src: seq<bv8>, ghost tail: seq<bv8>)
    requires dst.Length == 11 && ns.Length == 8 && dst != ns && dst[..] == src && |src| == 11
    requires k <= start < 8 && |tail| == 8 - k
    requires forall x | 0 <= x < 8 - k :: tail[x] == if start + x < 8 then ns[start + x] else SPACE
    modifies dst
    ensures dst[..] == src[..k] + tail + src[8..]
  {
    var i, j := start, k;
    while j < 8
      invariant k <= j <= 8 && i == (if start + j - k <= 8 then start + j - k else 8)
      invariant forall x | 0 <= x < 11 :: dst[x] == if k <= x < j then tail[x - k] else src[x]
    {
      assert tail[j - k] == if i < 8 then ns[i] else SPACE;
      if i < 8 {
        dst[j] := ns[i];
        i := i + 1;
      } else {
        dst[j] := SPACE;
      }
      j := j + 1;
    }
  }

  // ---- What the name looks like

  /** The digits of a number: the last one stands for its lowest four bits, in capitals. */
  lemma DigitIs(h: bv32)
    ensures Digits(h)[|Digits(h)| - 1] == Digit(h) && (h >= 16 ==> Digits(h)[..|Digits(h)| - 1] == Digits(h / 16))
    ensures h % 16 < 10 ==> Digit(h) == 0x30 + (h % 16) as bv8
    ensures h % 16 >= 10 ==> Digit(h) == 0x41 + (h % 16 - 10) as bv8
  {
    Sixteen(h);
  }

  lemma Sixteen(h: bv32)
    ensures h >= 16 <==> h / 16 != 0
  {
  }

  /** The stem is the longest part of the name before a space that leaves room for a tilde and the
      digits in eight places; then come the tilde, the digits, spaces, and the extension. */
  lemma NameLayout(src: seq<bv8>, lfn: seq<bv16>, number: bv32) returns (k: nat)
    requires |src| == 11 && number < 0x10000
    ensures var d, name := Digits(Number(lfn, number)), NumName(src, lfn, number);
      && |name| == 11 && k + 1 + |d| <= 8
      && (forall i | 0 <= i < k :: src[i] != 0x20) && (k + 1 + |d| == 8 || src[k] == 0x20)
      && name[..k] == src[..k] && name[k] == 0x7E && name[k + 1..k + 1 + |d|] == d
      && (forall i | k + 1 + |d| <= i < 8 :: name[i] == 0x20) && name[8..] == src[8..]
  {
    hide Digits, Number;
    var d := Digits(Number(lfn, number));
    FewDigits(Number(lfn, number));
    k := Stem(src, 7 - |d|, 0);
    StemIs(src, 7 - |d|, 0);
  }

  lemma {:induction false} StemIs(src: seq<bv8>, i: nat, j: nat)
    requires j <= i <= |src|
    ensures var k := Stem(src, i, j); (forall m | j <= m < k :: src[m] != 0x20) && (k < i ==> src[k] == 0x20)
    decreases i - j
  {
    if j < i && src[j] != SPACE {
      StemIs(src, i, j + 1);
    }
  }
}
