/** Any interleaving of writes, reads and seeks on one open file is a run of the abstract
    file, in which every byte read is the byte last written there. */
module FileSession {
  import opened Bytes
  import opened VolumeWindow
  import opened FatTable
  import opened Chains
  import opened Allocator
  import opened FileStore
  import opened FileApi

  datatype FileOp = OpWrite(data: seq<byte>) | OpRead(n: nat) | OpSeek(ofs: nat)

  /** A byte string with a cursor, and the access mode. */
  datatype AbsFile = AbsFile(bytes: seq<byte>, pos: nat, rd: bool, wr: bool)

  /** The bytes an operation stores or delivers, and where, and whether it stopped because the
      volume had no free cluster. */
  datatype Event = Wrote(at: nat, data: seq<byte>, full: bool) | Got(at: nat, data: seq<byte>) | Moved(full: bool)

  /** A write stores all it was given, unless the file reaches its largest size or the volume is
      full. A seek of a file open for writing goes where it should, unless the volume is full. */
  ghost predicate AbsStep(s: AbsFile, op: FileOp, e: Event, s': AbsFile) {
    match op
    case OpWrite(d) =>
      && e.Wrote? && e.at == s.pos && e.data <= d && (!s.wr ==> e.data == [] && !e.full)
      && (if e.full then |e.data| < |d| else s.wr ==> e.data == d || s.pos + |e.data| == ALL_ONES)
      && s' == s.(bytes := s'.bytes, pos := s.pos + |e.data|) && s.pos <= |s.bytes|
      && |s'.bytes| == (if s'.pos > |s.bytes| then s'.pos else |s.bytes|)
      && (forall p | 0 <= p < |s'.bytes| ::
            s'.bytes[p] == if s.pos <= p < s'.pos then e.data[p - s.pos] else s.bytes[p])
    case OpRead(n) =>
      && e.Got? && e.at == s.pos && s.pos <= |s.bytes|
      && |e.data| == (if !s.rd then 0 else if n < |s.bytes| - s.pos then n else |s.bytes| - s.pos)
      && (forall i | 0 <= i < |e.data| :: e.data[i] == s.bytes[s.pos + i])
      && s' == s.(pos := s.pos + |e.data|)
    case OpSeek(ofs) =>
      var t := if ofs >= DWORD then ALL_ONES else ofs;
      var t' := if t > |s.bytes| && !s.wr then |s.bytes| else t;
      && e.Moved? && (if e.full then s.wr && |s.bytes| <= s'.pos < t' else s'.pos == t')
      && s.bytes <= s'.bytes && s'.rd == s.rd && s'.wr == s.wr && (!s.wr ==> s'.bytes == s.bytes)
      && |s'.bytes| == if s'.pos > |s.bytes| then s'.pos else |s.bytes|
  }

  predicate Full(e: Event) { (e.Wrote? || e.Moved?) && e.full }

  ghost predicate Run(ss: seq<AbsFile>, ops: seq<FileOp>, es: seq<Event>) {
    && |ss| == |ops| + 1 && |es| == |ops| && ss[0].pos <= |ss[0].bytes|
    && forall i | 0 <= i < |ops| :: AbsStep(ss[i], ops[i], es[i], ss[i + 1])
  }

  ghost predicate Touches(e: Event, p: nat) { e.Wrote? && e.at <= p < e.at + |e.data| }

  /** The cursor never leaves the file, and the file never shrinks. */
  lemma {:induction false} RunInside(ss: seq<AbsFile>, ops: seq<FileOp>, es: seq<Event>, i: nat, j: nat)
    requires Run(ss, ops, es) && i <= j < |ss|
    ensures ss[j].pos <= |ss[j].bytes| && |ss[i].bytes| <= |ss[j].bytes|
    decreases j
  {
    if j > 0 {
      RunInside(ss, ops, es, if i < j then i else j - 1, j - 1);
      assert AbsStep(ss[j - 1], ops[j - 1], es[j - 1], ss[j - 1 + 1]);
    }
  }

  /** A byte keeps its value until some write covers it. */
  lemma {:induction false} KeptUntilWritten(ss: seq<AbsFile>, ops: seq<FileOp>, es: seq<Event>, i: nat, j: nat, p: nat)
    requires Run(ss, ops, es) && i <= j < |ss| && p < |ss[i].bytes|
    requires forall k | i <= k < j :: !Touches(es[k], p)
    ensures p < |ss[j].bytes| && ss[j].bytes[p] == ss[i].bytes[p]
    decreases j
  {
    if i < j {
      KeptUntilWritten(ss, ops, es, i, j - 1, p);
      RunInside(ss, ops, es, i, j - 1);
      assert AbsStep(ss[j - 1], ops[j - 1], es[j - 1], ss[j - 1 + 1]);
      assert !Touches(es[j - 1], p);
    }
  }

  /** Reads return the bytes last written: what a read delivers at p is what the latest
      write over p stored there. */
  lemma ReadsLastWritten(ss: seq<AbsFile>, ops: seq<FileOp>, es: seq<Event>, w: nat, r: nat, p: nat)
    requires Run(ss, ops, es) && w < r < |ops| && es[r].Got? && es[r].at <= p < es[r].at + |es[r].data|
    requires Touches(es[w], p) && forall k | w < k < r :: !Touches(es[k], p)
    ensures es[r].data[p - es[r].at] == es[w].data[p - es[w].at]
  {
    RunInside(ss, ops, es, 0, w);
    assert AbsStep(ss[w], ops[w], es[w], ss[w + 1]);
    assert ss[w + 1].bytes[p] == es[w].data[p - es[w].at];
    KeptUntilWritten(ss, ops, es, w + 1, r, p);
    RunInside(ss, ops, es, 0, r);
    assert AbsStep(ss[r], ops[r], es[r], ss[r + 1]);
  }

  /** A read of a readable file delivers all that was asked for, or all there is. */
  lemma ReadDelivers(ss: seq<AbsFile>, ops: seq<FileOp>, es: seq<Event>, r: nat)
    requires Run(ss, ops, es) && r < |ops| && ops[r].OpRead? && ss[r].rd
    ensures es[r].Got? && ss[r].pos <= |ss[r].bytes|
    ensures |es[r].data| == if ops[r].n < |ss[r].bytes| - ss[r].pos then ops[r].n else |ss[r].bytes| - ss[r].pos
    ensures ops[r].n > 0 && ss[r].pos < |ss[r].bytes| ==> es[r].data != []
  {
    assert AbsStep(ss[r], ops[r], es[r], ss[r + 1]);
  }

  /** What was written comes back: writing, seeking back to where it began, and reading as many
      bytes delivers exactly the bytes that were stored. */
  lemma WriteSeekRead(ss: seq<AbsFile>, ops: seq<FileOp>, es: seq<Event>, w: nat)
    requires Run(ss, ops, es) && w + 2 < |ops| && ops[w].OpWrite? && ss[w].rd
    requires ops[w + 1] == OpSeek(ss[w].pos) && ops[w + 2].OpRead? && es[w].Wrote? && ops[w + 2].n == |es[w].data|
    requires ss[w].pos < DWORD
    ensures es[w + 2].Got? && es[w + 2].data == es[w].data
  {
    RunInside(ss, ops, es, 0, w);
    RunInside(ss, ops, es, 0, w + 1);
    assert AbsStep(ss[w], ops[w], es[w], ss[w + 1]);
    assert AbsStep(ss[w + 1], ops[w + 1], es[w + 1], ss[w + 1 + 1]);
    assert AbsStep(ss[w + 2], ops[w + 2], es[w + 2], ss[w + 2 + 1]);
    forall i | 0 <= i < |es[w].data| ensures ss[w + 1].bytes[ss[w].pos + i] == es[w].data[i] {}
  }

  ghost function Abs(f: File): AbsFile
    requires f.Valid()
    reads f, f.buf, f.vol, f.vol.win
  {
    AbsFile(f.Bytes(), f.fptr, f.canRead, f.canWrite)
  }

  /** One operation on the real file is a step of the abstract one, and where it stops short the
      volume has no free cluster. */
  method Perform(f: File, op: FileOp) returns (e: Event)
    requires f.Valid() && (op.OpWrite? ==> |op.data| < DWORD)
    modifies f, f.buf, f.vol`disk, f.vol`wflag, f.vol`winsect, f.vol`freeClst, f.vol`lastClst, f.vol.win
    ensures f.Valid() && AbsStep(old(Abs(f)), op, e, Abs(f))
    ensures Full(e) || old(NoneFree(StateOf(f.vol).f)) ==> NoneFree(StateOf(f.vol).f)
  {
    hide File.Valid, File.Core, File.Bytes, File.Shape, File.St, Covers, Sane, Confined, NoneFree, Fat;
    hide Volume.Valid, Volume.View;
    FileVolume(f);
    ghost var v := f.vol.View();
    var at := f.fptr;
    match op
    case OpWrite(d) =>
      var res, bw := f.Write(d);
      assert bw == |d| ==> d[..bw] == d;
      FileVolume(f);
      e := Wrote(at, d[..bw], f.canWrite && bw < |d| && f.fptr < ALL_ONES);
      StaysFull(f, v);
    case OpRead(n) =>
      var res, data := f.Read(n);
      e := Got(at, data);
      StaysFull(f, v);
    case OpSeek(ofs) =>
      var t := if ofs >= DWORD then ALL_ONES else ofs;
      var target := if t > f.objsize && !f.canWrite then f.objsize else t;
      f.Seek(ofs);
      e := Moved(f.fptr != target);
      StaysFull(f, v);
  }

  /** No operation on the file makes a cluster free. */
  lemma StaysFull(f: File, v: seq<Sector>)
    requires f.Valid() && Confined(f.vol.g, v, f.vol.View(), f.chain)
    ensures NoneFree(Fat(f.vol.g, v)) ==> NoneFree(StateOf(f.vol).f)
  {
    hide Fat, Volume.View, File.St, Covers, IsChain;
    var t := StateOf(f.vol).f;
    forall c | 2 <= c < |t| && t[c] == 0 ensures c !in f.chain {
      if f.chain != [] {
        FreeNotInChain(t, f.chain, c);
      }
    }
  }

  /** Every session of an open file, whatever its operations, is a run of the abstract file; if
      any operation stopped short, the volume is full. */
  method Session(f: File, ops: seq<FileOp>) returns (es: seq<Event>, ghost ss: seq<AbsFile>)
    requires f.Valid() && forall i | 0 <= i < |ops| :: ops[i].OpWrite? ==> |ops[i].data| < DWORD
    modifies f, f.buf, f.vol`disk, f.vol`wflag, f.vol`winsect, f.vol`freeClst, f.vol`lastClst, f.vol.win
    ensures f.Valid() && Run(ss, ops, es) && ss[0] == old(Abs(f)) && ss[|ops|] == Abs(f)
    ensures (exists i | 0 <= i < |ops| :: Full(es[i])) ==> NoneFree(StateOf(f.vol).f)
  {
    hide *;
    es, ss := [], [Abs(f)];
    Within(f);
    RunStart(Abs(f));
    FileVolume(f);
    assert ops[..0] == [];
    var i := 0;
    while i < |ops|
      invariant 0 <= i <= |ops| && f.Valid() && f.vol.Valid() && |es| == i
      invariant |ss| == i + 1 && Run(ss, ops[..i], es) && ss[0] == old(Abs(f)) && ss[i] == Abs(f)
      invariant (exists k | 0 <= k < i :: Full(es[k])) ==> NoneFree(StateOf(f.vol).f)
    {
      var e := Perform(f, ops[i]);
      FileVolume(f);
      RunExtend(ss, ops[..i], es, ops[i], e, Abs(f));
      assert ops[..i + 1] == ops[..i] + [ops[i]];
      es, ss := es + [e], ss + [Abs(f)];
      i := i + 1;
    }
    assert ops[..|ops|] == ops;
    RunLength(ss, ops, es);
  }

  lemma FileVolume(f: File)
    requires f.Valid()
    ensures f.vol.Valid() && f.fptr <= f.objsize <= ALL_ONES
  {
  }

  lemma RunLength(ss: seq<AbsFile>, ops: seq<FileOp>, es: seq<Event>)
    requires Run(ss, ops, es)
    ensures |es| == |ops| && |ss| == |ops| + 1
  {
  }

  lemma RunStart(s: AbsFile)
    requires s.pos <= |s.bytes|
    ensures Run([s], [], [])
  {
  }

  lemma RunExtend(ss: seq<AbsFile>, ops: seq<FileOp>, es: seq<Event>, op: FileOp, e: Event, s: AbsFile)
    requires Run(ss, ops, es) && AbsStep(ss[|ops|], op, e, s)
    ensures Run(ss + [s], ops + [op], es + [e])
  {
    hide AbsStep;
  }

  lemma Within(f: File)
    requires f.Valid()
    ensures Abs(f).pos <= |Abs(f).bytes|
  {
  }

  /** A new file on a volume that has just been mounted. */
  method OpenNew(g: Geometry, sectors: seq<Sector>) returns (f: File)
    requires g.Valid() && g.fsType != ExFat && |sectors| == g.nSectors && Mirrored(g, sectors)
    requires var t := Fat(g, sectors); t[0] != 0 && t[1] != 0 && NoOnes(t)
    ensures f.Valid() && Abs(f) == AbsFile([], 0, true, true)
  {
    hide Fat, Mirrored, Sound, IsChain, Volume.Valid, Volume.View, File.Core, File.St;
    var vol := Mount(g, sectors);
    f := new File(vol, 0, 0, true, true, []);
  }
}
