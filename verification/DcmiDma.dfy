/** Camera capture: the DMA controller fills one of two memory targets while the interrupt
    handler moves the other one to the next block of the buffer. */
module DcmiDma {
  import opened Arithmetic
  import opened Bytes

  // ---- Blocks

  /** The first byte of block k. */
  function Offset(block: nat, k: nat): (o: nat)
    ensures k > 0 ==> o >= block
  {
    if k == 0 then 0 else Offset(block, k - 1) + block
  }

  lemma {:induction false} OffsetIs(block: nat, k: nat)
    ensures Offset(block, k) == block * k
  {
    if k > 0 {
      OffsetIs(block, k - 1);
    }
  }

  lemma {:induction false} OffsetGrows(block: nat, j: nat, k: nat)
    requires j <= k
    ensures Offset(block, j) <= Offset(block, k)
    decreases k
  {
    if j < k {
      OffsetGrows(block, j, k - 1);
    }
  }

  /** What the driver was given and has chosen. The buffer reaches at least one block past the
      ones to be captured. */
  datatype Setup = Setup(buffer: nat, size: nat, block: nat, blocks: nat) {
    ghost predicate Valid() {
      && 0 < buffer && buffer + size <= DWORD
      && block > 0 && block % 4 == 0 && blocks >= 1
      && Offset(block, blocks + 1) <= size
    }
  }

  // ---- The controller and the handler

  /** Stream registers, driver counters and memory. A write outside the buffer goes to strays. */
  datatype Capture = Capture(
    mem: seq<byte>,
    strays: seq<nat>,
    m0: nat, m1: nat,        // the two memory targets
    target1: bool,           // which of them is being filled
    pos: nat,                // bytes of the current block already written
    enabled: bool,
    pending: bool,           // a block is complete and the handler has not run yet
    done: nat,               // blocks the handler has counted
    signals: nat,            // calls of the callback for a full buffer
    stream: seq<byte>,       // everything the camera has delivered
    complete: nat)           // blocks the controller has completed
  {
    function Current(): nat { if target1 then m1 else m0 }
    function Other(): nat { if target1 then m0 else m1 }
  }

  function Armed(u: Setup): Capture {
    Capture(seq(u.size, i => 0), [], u.buffer, u.buffer + u.block, false, 0, true, false, 0, 0, [], 0)
  }

  function Put(mem: seq<byte>, at: nat, w: seq<byte>): (r: seq<byte>)
    requires at + |w| <= |mem|
    ensures |r| == |mem|
  {
    mem[..at] + w + mem[at + |w|..]
  }

  /** The controller moves one word. With a single block it does not use the second target and
      stops at the end of the block. */
  function Transfer(u: Setup, c: Capture, w: seq<byte>): Capture
    requires |w| == 4 && |c.mem| == u.size
  {
    if !c.enabled then c else
    var at := c.Current() + c.pos;
    var c1 :=
      if u.buffer <= at && at + 4 <= u.buffer + u.size then c.(mem := Put(c.mem, at - u.buffer, w))
      else c.(strays := c.strays + [at]);
    var c2 := c1.(stream := c.stream + w);
    if c.pos + 4 < u.block then c2.(pos := c.pos + 4)
    else if u.blocks > 1 then c2.(pos := 0, target1 := !c.target1, pending := true, complete := c.complete + 1)
    else c2.(pos := 0, enabled := false, pending := true, complete := c.complete + 1)
  }

  /** The address the handler computes, in 32 bits. */
  function BlockAddress(u: Setup, k: nat): nat {
    (u.buffer + u.block * k) % DWORD
  }

  lemma BlockAddressIs(u: Setup, k: nat)
    requires u.Valid() && k <= u.blocks
    ensures BlockAddress(u, k) == u.buffer + Offset(u.block, k) <= u.buffer + Offset(u.block, u.blocks)
  {
    OffsetIs(u.block, k);
    OffsetGrows(u.block, k, u.blocks);
    OffsetGrows(u.block, u.blocks, u.blocks + 1);
    SmallMod(u.buffer + u.block * k, DWORD);
  }

  /** The interrupt handler, for a completed transfer without errors. */
  function Isr(u: Setup, c: Capture): Capture {
    if !c.pending then c else
    var n := c.done + 1;
    var c1 := c.(pending := false, done := n);
    if n == u.blocks then c1.(signals := c.signals + 1, enabled := false)
    else
      var address := BlockAddress(u, n + 1);
      if !c.target1 then c1.(m1 := address) else c1.(m0 := address)
  }

  datatype Event = Word(data: seq<byte>) | Interrupt

  /** An event that can come in a run where the handler is always done before the next block is. */
  predicate Timely(u: Setup, c: Capture, e: Event) {
    e.Word? ==> |e.data| == 4 && (c.enabled && c.pos + 4 >= u.block ==> !c.pending)
  }

  function Step(u: Setup, c: Capture, e: Event): Capture
    requires |c.mem| == u.size && Timely(u, c, e)
  {
    if e.Word? then Transfer(u, c, e.data) else Isr(u, c)
  }

  // ---- What every step keeps

  /** The stream is at the front of the memory, and zeros follow. */
  ghost predicate Filled(mem: seq<byte>, stream: seq<byte>) {
    && |stream| <= |mem|
    && (forall i | 0 <= i < |stream| :: mem[i] == stream[i])
    && (forall i | |stream| <= i < |mem| :: mem[i] == 0)
  }

  ghost predicate Counting(u: Setup, c: Capture) {
    && |c.mem| == u.size && c.strays == []
    && c.done + (if c.pending then 1 else 0) == c.complete <= u.blocks
    && c.pos < u.block && c.pos % 4 == 0
    && c.signals == (if c.done == u.blocks then 1 else 0)
    && (c.enabled <==> c.done < u.blocks && (u.blocks == 1 ==> !c.pending))
    && |c.stream| == Offset(u.block, c.complete) + c.pos
  }

  /** The target being filled is block number complete; the other one is the next block, or,
      until the handler has run, the one before. */
  ghost predicate Aimed(u: Setup, c: Capture) {
    && c.m0 <= u.buffer + Offset(u.block, u.blocks) && c.m1 <= u.buffer + Offset(u.block, u.blocks)
    && (c.enabled ==>
          && c.Current() == u.buffer + Offset(u.block, c.complete)
          && (if c.pending then c.complete > 0 && c.Other() == u.buffer + Offset(u.block, c.complete - 1)
              else c.Other() == u.buffer + Offset(u.block, c.complete + 1)))
  }

  ghost predicate Good(u: Setup, c: Capture) {
    Counting(u, c) && Aimed(u, c) && Filled(c.mem, c.stream)
  }

  lemma PutFills(mem: seq<byte>, stream: seq<byte>, w: seq<byte>)
    requires Filled(mem, stream) && |stream| + |w| <= |mem|
    ensures Filled(Put(mem, |stream|, w), stream + w)
  {
  }

  /** Where the controller writes: right behind the stream, inside the buffer. */
  lemma WritesInBuffer(u: Setup, c: Capture)
    requires u.Valid() && Good(u, c) && c.enabled
    ensures c.Current() + c.pos == u.buffer + |c.stream| && |c.stream| + 4 <= u.size
  {
    hide Filled;
    OffsetGrows(u.block, c.complete + 1, u.blocks + 1);
  }

  lemma TransferKeeps(u: Setup, c: Capture, w: seq<byte>)
    requires u.Valid() && Good(u, c) && Timely(u, c, Word(w))
    ensures Good(u, Transfer(u, c, w))
  {
    hide Filled, Put;
    if c.enabled {
      WritesInBuffer(u, c);
      PutFills(c.mem, c.stream, w);
    }
  }

  lemma IsrKeeps(u: Setup, c: Capture)
    requires u.Valid() && Good(u, c)
    ensures Good(u, Isr(u, c))
  {
    hide Filled, BlockAddress, Offset;
    if c.pending && c.done + 1 < u.blocks {
      BlockAddressIs(u, c.done + 2);
    }
  }

  lemma ArmedGood(u: Setup)
    requires u.Valid()
    ensures Good(u, Armed(u))
  {
    OffsetGrows(u.block, 1, u.blocks);
  }

  // ---- Every run

  /** Runs of the controller and the handler in which the handler is never late. */
  ghost predicate Run(u: Setup, cs: seq<Capture>, es: seq<Event>) {
    && |cs| == |es| + 1 && cs[0] == Armed(u)
    && forall i | 0 <= i < |es| :: Follows(u, cs[i], es[i], cs[i + 1])
  }

  ghost predicate Follows(u: Setup, c: Capture, e: Event, d: Capture) {
    |c.mem| == u.size && Timely(u, c, e) && d == Step(u, c, e)
  }

  lemma {:induction false} RunGood(u: Setup, cs: seq<Capture>, es: seq<Event>, i: nat)
    requires u.Valid() && Run(u, cs, es) && i < |cs|
    ensures Good(u, cs[i])
  {
    hide Good, Armed, Transfer, Isr, Setup.Valid;
    if i == 0 {
      ArmedGood(u);
    } else {
      RunGood(u, cs, es, i - 1);
      assert Follows(u, cs[i - 1], es[i - 1], cs[i]);
      if es[i - 1].Word? {
        TransferKeeps(u, cs[i - 1], es[i - 1].data);
      } else {
        IsrKeeps(u, cs[i - 1]);
      }
    }
  }

  /** Fixed size: the callback is called once, when the handler has counted the last block; the
      blocks then hold the image, in order. No write leaves the buffer and no address past the
      end of the image is ever programmed. */
  lemma FixedSizeCapture(u: Setup, cs: seq<Capture>, es: seq<Event>, i: nat)
    requires u.Valid() && Run(u, cs, es) && i < |cs|
    ensures var c, image := cs[i], Offset(u.block, u.blocks);
      && (c.signals == 1 <==> c.complete == u.blocks && !c.pending)
      && (c.signals == 0 <==> c.done < u.blocks)
      && (c.signals == 1 ==>
            !c.enabled && |c.stream| >= image && image <= |c.mem| && c.mem[..image] == c.stream[..image])
      && c.strays == []
      && c.m0 <= u.buffer + image && c.m1 <= u.buffer + image
  {
    RunGood(u, cs, es, i);
  }

  /** Block k is at buffer + k * block. */
  lemma BlockPlace(u: Setup, cs: seq<Capture>, es: seq<Event>, i: nat, k: nat)
    requires u.Valid() && Run(u, cs, es) && i < |cs| && k < cs[i].complete
    ensures var c, o := cs[i], u.block * k;
      o + u.block <= |c.stream| <= |c.mem| && c.mem[o..o + u.block] == c.stream[o..o + u.block]
  {
    RunGood(u, cs, es, i);
    OffsetIs(u.block, k);
    OffsetGrows(u.block, k + 1, cs[i].complete);
  }

  // ---- Stopping an open-ended capture

  /** Bytes received: the higher of the two memory targets, less the buffer. */
  function Received(u: Setup, c: Capture): int {
    (if c.m1 > c.m0 then c.m1 else c.m0) - u.buffer
  }

  /** A sequence without the zeros at its end. */
  function Trimmed(s: seq<byte>): (t: seq<byte>)
    ensures t <= s
  {
    if s == [] || s[|s| - 1] != 0 then s else Trimmed(s[..|s| - 1])
  }

  lemma {:induction false} TrimmedZeros(s: seq<byte>, t: seq<byte>)
    requires t <= s && forall i | |t| <= i < |s| :: s[i] == 0
    ensures Trimmed(s) == Trimmed(t)
    decreases |s|
  {
    if |s| == |t| {
      assert s == t;
    } else {
      TrimmedZeros(s[..|s| - 1], t);
    }
  }

  lemma {:induction false} TrimmedOnly(s: seq<byte>, t: seq<byte>)
    requires t <= s && Trimmed(s) == Trimmed(t)
    ensures forall i | |t| <= i < |s| :: s[i] == 0
    decreases |s|
  {
    if |t| < |s| {
      assert s[|s| - 1] == 0;
      TrimmedOnly(s[..|s| - 1], t);
    }
  }

  lemma StopKeeps(u: Setup, c: Capture)
    requires u.Valid() && Good(u, c) && c.complete < u.blocks
    ensures var n := Received(u, c);
      && 0 <= n <= |c.mem| && c.pos <= |c.stream|
      && (Trimmed(c.mem[..n]) == Trimmed(c.stream)
          <==> (c.pending ==> forall i | |c.stream| - c.pos <= i < |c.stream| :: c.stream[i] == 0))
  {
    OffsetGrows(u.block, c.complete + 1, u.blocks + 1);
    var n := Received(u, c);
    if c.pending {
      assert n == |c.stream| - c.pos;
      assert c.mem[..n] == c.stream[..n];
      if Trimmed(c.stream[..n]) == Trimmed(c.stream) {
        TrimmedOnly(c.stream, c.stream[..n]);
      } else if forall i | n <= i < |c.stream| :: c.stream[i] == 0 {
        TrimmedZeros(c.stream, c.stream[..n]);
      }
    } else {
      assert n == |c.stream| - c.pos + u.block;
      assert c.stream <= c.mem[..n];
      TrimmedZeros(c.mem[..n], c.stream);
    }
  }

  /** What is kept of an open-ended capture that is stopped while there is room. It is the
      delivered stream without the zeros at its end, unless the handler still has to run for a
      completed block and something other than zeros has come after that block. */
  lemma StoppedCapture(u: Setup, cs: seq<Capture>, es: seq<Event>)
    requires u.Valid() && Run(u, cs, es) && cs[|es|].complete < u.blocks
    ensures var c := cs[|es|];
      var n := Received(u, c);
      && 0 <= n <= |c.mem| && c.strays == [] && c.pos <= |c.stream|
      && (Trimmed(c.mem[..n]) == Trimmed(c.stream)
          <==> (c.pending ==> forall i | |c.stream| - c.pos <= i < |c.stream| :: c.stream[i] == 0))
  {
    RunGood(u, cs, es, |es|);
    StopKeeps(u, cs[|es|]);
  }

  /** The first k words of ones. */
  function Ones(u: Setup, k: nat): (c: Capture)
    ensures |c.mem| == u.size
  {
    if k == 0 then Armed(u) else Transfer(u, Ones(u, k - 1), [1, 1, 1, 1])
  }

  lemma {:induction false} OnesAre(u: Setup, k: nat)
    requires u.Valid() && u.blocks > 1 && u.block >= 8 && 4 * k <= u.block + 4
    ensures var c := Ones(u, k);
      && c.enabled && (c.pending <==> 4 * k >= u.block) && c.complete == (if 4 * k >= u.block then 1 else 0)
      && c.pos == (if 4 * k >= u.block then 4 * k - u.block else 4 * k)
      && |c.stream| == 4 * k && forall i | 0 <= i < |c.stream| :: c.stream[i] == 1
  {
    hide Put;
    if k > 0 {
      OnesAre(u, k - 1);
    }
  }

  /** With any block size and count, stopping before a late handler can lose delivered bytes. */
  lemma LateHandlerLoses(u: Setup) returns (cs: seq<Capture>, es: seq<Event>)
    requires u.Valid() && u.blocks > 1 && u.block >= 8
    ensures Run(u, cs, es) && cs[|es|].complete < u.blocks
    ensures var c := cs[|es|];
      var n := Received(u, c);
      0 <= n <= |c.mem| && Trimmed(c.mem[..n]) != Trimmed(c.stream)
  {
    hide Transfer, Setup.Valid, Trimmed;
    var k := u.block / 4 + 1;
    cs := seq(k + 1, i requires 0 <= i <= k => Ones(u, i));
    es := seq(k, i => Word([1, 1, 1, 1]));
    forall i | 0 <= i < k ensures Follows(u, cs[i], es[i], cs[i + 1]) {
      ValidBlock(u);
      OnesAre(u, i);
    }
    ValidBlock(u);
    OnesAre(u, k);
    var c := cs[|es|];
    assert c.pending && c.pos == 4 && c.stream[|c.stream| - 1] == 1;
    StoppedCapture(u, cs, es);
  }

  lemma ValidBlock(u: Setup)
    requires u.Valid()
    ensures u.block % 4 == 0 && u.block > 0
  {
  }

  // ---- Choosing the blocks

  /** An image of n blocks of w words each, of a size the controller can count. */
  predicate Splits(image: nat, n: nat, w: nat) {
    n >= 1 && 256 <= w <= 65535 && image == 4 * w * n
  }

  lemma SplitWidth(image: nat, n: nat, w: nat)
    requires n >= 1 && image == 4 * w * n
    ensures image / n / 4 == w
  {
    var q := image / n;
    assert image == (4 * w) * n;
    DivUnique(image, n, 4 * w, 0);
  }

  /** Blocks only get smaller as there are more of them. */
  lemma NoMoreSplits(image: nat, m: nat, n: nat, w: nat)
    requires 1 <= m <= n && image / m / 4 < 256
    ensures !Splits(image, n, w)
  {
    if Splits(image, n, w) {
      assert 4 * w >= 1024;
      MulGrows(m, n, 4 * w);
      MulGrows(1024, 4 * w, m);
      assert image >= 1024 * m;
      DivLeast(image, m, 1024);
    }
  }

  lemma Most(x: nat, m: nat)
    requires m >= 1 && x / m / 4 >= 256
    ensures x >= m
  {
    var r := x / m;
    assert x == r * m + x % m;
    MulGrows(1, r, m);
  }

  /** dcmi_dma_init: the smallest number of equal blocks, if there is any. */
  method Init(buffer: nat, image: nat) returns (ok: bool, numBlocks: nat, blockSize: nat)
    requires image < DWORD
    ensures ok <==> buffer != 0 && exists n: nat, w: nat :: Splits(image, n, w)
    ensures ok ==> blockSize % 4 == 0 && Splits(image, numBlocks, blockSize / 4)
    ensures ok ==> forall n: nat, w: nat | Splits(image, n, w) :: numBlocks <= n
    ensures ok ==> forall size: nat | buffer + size <= DWORD && image + 0x40000 <= size ::
                     Setup(buffer, size, blockSize, numBlocks).Valid()
  {
    ok, numBlocks, blockSize := false, 0, 0;
    if buffer == 0 || image == 0 {
      return;
    }
    var n := 1;
    while true
      invariant n >= 1 && !ok
      invariant forall m: nat, w: nat | m < n :: !Splits(image, m, w)
      decreases image - n
    {
      var words := image / n / 4;
      if words < 256 {
        forall m: nat, w: nat ensures !Splits(image, m, w) {
          if m >= n {
            NoMoreSplits(image, n, m, w);
          }
        }
        return;
      }
      Most(image, n);
      if 4 * words * n == image && words <= 65535 {
        ok, numBlocks, blockSize := true, n, 4 * words;
        OffsetIs(blockSize, n);
        assert Splits(image, n, words);
        return;
      }
      forall w: nat ensures !Splits(image, n, w) {
        if Splits(image, n, w) {
          SplitWidth(image, n, w);
        }
      }
      n := n + 1;
    }
  }

  const OPEN_ENDED_WORDS := 65534

  /** dcmi_dma_init_open_ended: as many of the largest blocks as fit with one to spare. */
  method InitOpenEnded(buffer: nat, size: nat) returns (ok: bool, numBlocks: int, blockSize: nat)
    requires buffer + size <= DWORD
    ensures ok <==> buffer != 0 && size != 0
    ensures ok ==> blockSize == 262136
    ensures ok && size >= 2 * blockSize ==>
              && numBlocks >= 1 && Setup(buffer, size, blockSize, numBlocks).Valid()
              && size < Offset(blockSize, numBlocks + 2)
    ensures ok && size < 2 * blockSize ==> numBlocks == if size < blockSize then -1 else 0
  {
    ok, numBlocks, blockSize := false, 0, 0;
    if buffer == 0 || size == 0 {
      return;
    }
    blockSize := 4 * OPEN_ENDED_WORDS;
    numBlocks := size / blockSize - 1;
    ok := true;
    if numBlocks >= 1 {
      OffsetIs(blockSize, numBlocks + 1);
      OffsetIs(blockSize, numBlocks + 2);
    }
  }

  /** Drops the zeros at the end of what was received. */
  method TrimLength(ram: seq<byte>, received: nat) returns (length: nat)
    requires received <= |ram|
    ensures length <= received && ram[..length] == Trimmed(ram[..received])
  {
    length := received;
    while length > 0 && ram[length - 1] == 0
      invariant length <= received && Trimmed(ram[..length]) == Trimmed(ram[..received])
    {
      assert ram[..length][..length - 1] == ram[..length - 1];
      length := length - 1;
    }
  }

  /** The driver's variables, the stream's registers and the memory. */
  class Driver {
    const buffer: nat
    var numBlocks: nat
    var blockSize: nat
    var blocksDone: nat
    var m0: nat
    var m1: nat
    var target1: bool
    var enabled: bool
    var pos: nat                  // bytes of the block the stream has counted off
    var pending: bool             // its transfer-complete flag
    var ram: seq<byte>
    ghost var rest: Capture       // what only the proofs look at

    ghost function Chosen(): Setup
      reads this
    {
      Setup(buffer, |ram|, blockSize, numBlocks)
    }

    ghost function State(): Capture
      reads this
    {
      rest.(mem := ram, m0 := m0, m1 := m1, target1 := target1, pos := pos, enabled := enabled, pending := pending,
            done := blocksDone)
    }

    ghost predicate Valid()
      reads this
    {
      Chosen().Valid() && Good(Chosen(), State())
    }

    constructor (buffer: nat, ram: seq<byte>, numBlocks: nat, blockSize: nat)
      requires Setup(buffer, |ram|, blockSize, numBlocks).Valid()
      ensures Chosen() == Setup(buffer, |ram|, blockSize, numBlocks)
    {
      this.buffer, this.ram, this.numBlocks, this.blockSize := buffer, ram, numBlocks, blockSize;
    }

    /** Clears the buffer and arms the stream. */
    method Start()
      requires Chosen().Valid()
      modifies this
      ensures Chosen() == old(Chosen()) && State() == Armed(Chosen()) && Valid()
    {
      hide Good, Setup.Valid;
      ghost var u := Chosen();
      ram := seq(|ram|, i => 0);
      blocksDone := 0;
      target1 := false;
      m0 := buffer;
      m1 := buffer + blockSize;
      enabled := true;
      pos := 0;
      pending := false;
      rest := Armed(u);
      ArmedGood(u);
    }

    /** The controller moves a word of the stream, in a run where the handler is not late. */
    method MoveWord(w: seq<byte>)
      requires Valid() && enabled && Timely(Chosen(), State(), Word(w))
      modifies this
      ensures Chosen() == old(Chosen()) && State() == Transfer(Chosen(), old(State()), w) && Valid()
    {
      hide Good, Setup.Valid, Put;
      WritesInBuffer(Chosen(), State());
      TransferKeeps(Chosen(), State(), w);
      var at := (if target1 then m1 else m0) + pos - buffer;
      ram := Put(ram, at, w);
      rest := rest.(stream := rest.stream + w);
      if pos + 4 < blockSize {
        pos := pos + 4;
      } else {
        pos := 0;
        pending := true;
        rest := rest.(complete := rest.complete + 1);
        if numBlocks > 1 {
          target1 := !target1;
        } else {
          enabled := false;
        }
      }
    }

    /** The interrupt handler; a further word of the stream may come before it runs. */
    method ShuffleIsr()
      requires Valid() && pending
      modifies this
      ensures Chosen() == old(Chosen()) && State() == Isr(Chosen(), old(State())) && Valid()
    {
      hide Good, BlockAddress, Setup.Valid;
      IsrKeeps(Chosen(), State());
      rest := rest.(signals := rest.signals + if blocksDone + 1 == numBlocks then 1 else 0);
      pending := false;
      blocksDone := blocksDone + 1;
      if blocksDone == numBlocks {
        enabled := false;
      } else {
        var address := BlockAddress(Setup(buffer, |ram|, blockSize, numBlocks), blocksDone + 1);
        if !target1 {
          m1 := address;
        } else {
          m0 := address;
        }
      }
    }

    /** Stops the stream and trims what was received. */
    method StopAndTrim() returns (length: nat)
      requires Valid() && State().complete < numBlocks
      modifies `enabled
      ensures ram == old(ram) && !enabled && length <= |ram|
      ensures ram[..length] == Trimmed(State().stream)
           <==> (pending ==> forall i | |State().stream| - pos <= i < |State().stream| :: State().stream[i] == 0)
    {
      hide Good, Setup.Valid, Trimmed;
      StopKeeps(Chosen(), State());
      enabled := false;
      var top := m0;
      if m1 > top {
        top := m1;
      }
      length := TrimLength(ram, top - buffer);
    }
  }
}
