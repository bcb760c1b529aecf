/** Bytes, sectors and the little-endian accessors of the filesystem code. */
module Bytes {

  type byte = x: int | 0 <= x < 256

  /** Sector size of the configuration (minimum and maximum are both 512). */
  const SS := 512

  type Sector = s: seq<byte> | |s| == SS witness seq(SS, _ => 0)

  /** One more than the largest 32-bit value. */
  const DWORD := 0x1_0000_0000
  const ALL_ONES := 0xFFFFFFFF

  /** 32-bit subtraction with wrap-around. */
  function Sub32(a: nat, b: nat): (r: nat)
    requires a < DWORD && b < DWORD
    ensures r < DWORD && (r + b == a || r + b == a + DWORD)
  {
    if a >= b then a - b else a - b + DWORD
  }

  function Word(lo: byte, hi: byte): (w: nat)
    ensures w < 0x10000
  {
    lo + 256 * hi
  }

  function Dword(b0: byte, b1: byte, b2: byte, b3: byte): (w: nat)
    ensures w < DWORD
  {
    b0 + 256 * b1 + 65536 * b2 + 16777216 * b3
  }

  /** The four bytes of a 32-bit value, lowest first. */
  function DwordBytes(v: nat): (b: seq<byte>)
    requires v < DWORD
    ensures |b| == 4 && Dword(b[0], b[1], b[2], b[3]) == v
  {
    var v1 := v / 256;
    var v2 := v1 / 256;
    var v3 := v2 / 256;
    [v % 256, v1 % 256, v2 % 256, v3]
  }

  type wchar = x: int | 0 <= x < 0x10000

  method StoreWord(buf: array<byte>, at: nat, w: wchar)
    requires at + 1 < buf.Length
    modifies buf
    ensures Word(buf[at], buf[at + 1]) == w
    ensures forall i | 0 <= i < buf.Length && i != at && i != at + 1 :: buf[i] == old(buf[i])
  {
    buf[at] := w % 256;
    buf[at + 1] := w / 256;
  }
}
