/** An open ramdisk file, as the C code keeps it and as a plain sequence of bytes with a cursor. */
module Files {
  import opened Machine
  import opened Image

  /** The file part of fs_node_t; the length of `buffer` is allocated_size. */
  datatype OpenFile = OpenFile(buffer: seq<Byte>, offset: Word, canonicalSize: Word)

  /** `ramdisk_read`: the bounds check adds in 32 bits. */
  function Read(f: OpenFile, offset: Word, size: Word): Result<(OpenFile, seq<Byte>), FsHalt> {
    if Wrap(offset + size) > f.canonicalSize then Stop(ReadPastEnd)
    else if offset + size > |f.buffer| then Stop(Overrun)
    else Ok((f.(offset := Wrap(offset + size)), f.buffer[offset..offset + size]))
  }

  /** `ramdisk_write` of the bytes `data`. */
  function Write(f: OpenFile, offset: Word, data: seq<Byte>): Result<OpenFile, FsHalt>
    requires |data| < WORD_LIMIT
  {
    var end := Wrap(offset + |data|);
    if offset > f.canonicalSize then Stop(WriteBeyondEnd)
    else if end > |f.buffer| then Stop(NoSpace)
    else if offset + |data| > |f.buffer| then Stop(Overrun)
    else
      Ok(OpenFile(f.buffer[..offset] + data + f.buffer[offset + |data|..], end,
                  if f.canonicalSize > end then f.canonicalSize else end))
  }

  /** `ramdisk_seek` */
  function Seek(f: OpenFile, position: Word): Result<OpenFile, FsHalt> {
    if position > |f.buffer| then Stop(BadSeek) else Ok(f.(offset := position))
  }

  predicate FileInv(f: OpenFile) {
    f.canonicalSize <= |f.buffer| < WORD_LIMIT && f.offset <= |f.buffer|
  }

  // ----- The plain file -----

  datatype Plain = Plain(bytes: seq<Byte>, cursor: nat, capacity: nat)

  function View(f: OpenFile): Plain
    requires FileInv(f)
  {
    Plain(f.buffer[..f.canonicalSize], f.offset, |f.buffer|)
  }

  datatype FileOp = SeekTo(position: Word) | ReadBytes(size: Word) | WriteBytes(data: seq<Byte>)

  predicate Sized(op: FileOp) {
    op.WriteBytes? ==> |op.data| < WORD_LIMIT
  }

  /** `bytes` with `data` put at `at`, growing at the end if it has to. */
  function Overwrite(bytes: seq<Byte>, at: nat, data: seq<Byte>): seq<Byte>
    requires at <= |bytes|
  {
    bytes[..at] + data + if at + |data| <= |bytes| then bytes[at + |data|..] else []
  }

  /** The new file and the bytes read, or None where a caller has to expect a panic. */
  function PlainStep(p: Plain, op: FileOp): Option<(Plain, seq<Byte>)> {
    match op
    case SeekTo(position) => if position <= p.capacity then Some((p.(cursor := position), [])) else None
    case ReadBytes(size) =>
      if p.cursor + size <= |p.bytes|
      then Some((p.(cursor := p.cursor + size), p.bytes[p.cursor..p.cursor + size]))
      else None
    case WriteBytes(data) =>
      if p.cursor <= |p.bytes| && p.cursor + |data| <= p.capacity
      then Some((p.(bytes := Overwrite(p.bytes, p.cursor, data), cursor := p.cursor + |data|), []))
      else None
  }

  function Step(f: OpenFile, op: FileOp): Result<(OpenFile, seq<Byte>), FsHalt>
    requires Sized(op)
  {
    match op
    case SeekTo(position) => var g :- Seek(f, position); Ok((g, []))
    case ReadBytes(size) => Read(f, f.offset, size)
    case WriteBytes(data) => var g :- Write(f, f.offset, data); Ok((g, []))
  }

  /** One call does what the plain file does, and stops exactly when that has no answer. */
  lemma StepRefinesPlain(f: OpenFile, op: FileOp)
    requires FileInv(f) && Sized(op)
    ensures match Step(f, op)
      case Ok((g, out)) => FileInv(g) && PlainStep(View(f), op) == Some((View(g), out))
                           && |g.buffer| == |f.buffer| && g.canonicalSize >= f.canonicalSize
      case Stop(_) => PlainStep(View(f), op) == None
  {
    match op
    case SeekTo(_) =>
    case ReadBytes(size) =>
      ReadView(f, size);
      hide View;
    case WriteBytes(data) =>
      if Step(f, op).Ok? {
        WriteView(f, data);
      }
  }

  /** Beyond the plain file: which bytes of the buffer a call leaves alone, and for what reasons it stops. */
  lemma StepLeavesRest(f: OpenFile, op: FileOp)
    requires FileInv(f) && Sized(op)
    ensures match Step(f, op)
      case Ok((g, _)) =>
        && |g.buffer| == |f.buffer|
        && forall i | 0 <= i < |f.buffer| && !(op.WriteBytes? && f.offset <= i < f.offset + |op.data|) ::
             g.buffer[i] == f.buffer[i]
      case Stop(why) =>
        match op
        case SeekTo(_) => why == BadSeek
        case ReadBytes(size) => why == Overrun || (why == ReadPastEnd && f.offset + size > f.canonicalSize)
        case WriteBytes(data) =>
          || why == Overrun
          || (if f.offset > f.canonicalSize then why == WriteBeyondEnd
              else why == NoSpace && f.offset + |data| > |f.buffer|)
  {
  }

  /** The stop is a panic, unless the 32-bit sum of the bounds check wraps to something it lets pass. */
  lemma OverrunExactly(f: OpenFile, op: FileOp)
    requires FileInv(f) && Sized(op)
    ensures Step(f, op) == Stop(Overrun) <==>
      match op
      case SeekTo(_) => false
      case ReadBytes(size) => f.offset + size >= WORD_LIMIT && Wrap(f.offset + size) <= f.canonicalSize
      case WriteBytes(data) =>
        f.offset + |data| >= WORD_LIMIT && f.offset <= f.canonicalSize && Wrap(f.offset + |data|) <= |f.buffer|
  {
  }

  lemma ReadView(f: OpenFile, size: Word)
    requires FileInv(f)
    ensures f.offset + size <= f.canonicalSize ==>
      f.buffer[f.offset..f.offset + size] == View(f).bytes[f.offset..f.offset + size]
    ensures |View(f).bytes| == f.canonicalSize && View(f).cursor == f.offset
    ensures f.offset + size <= f.canonicalSize ==>
      View(f.(offset := f.offset + size)) == View(f).(cursor := f.offset + size)
  {
    if f.offset + size <= f.canonicalSize {
      assert f.buffer[f.offset..f.offset + size] == f.buffer[..f.canonicalSize][f.offset..f.offset + size];
    }
  }

  lemma WriteView(f: OpenFile, data: seq<Byte>)
    requires FileInv(f) && f.offset <= f.canonicalSize && f.offset + |data| <= |f.buffer|
    ensures Write(f, f.offset, data).Ok? && FileInv(Write(f, f.offset, data).value)
    ensures View(Write(f, f.offset, data).value).bytes == Overwrite(View(f).bytes, f.offset, data)
  {
  }

  // ----- Runs -----

  predicate AllSized(ops: seq<FileOp>) {
    forall i :: 0 <= i < |ops| ==> Sized(ops[i])
  }

  /** The final file and everything that was read, in order. */
  function Run(f: OpenFile, ops: seq<FileOp>): Result<(OpenFile, seq<seq<Byte>>), FsHalt>
    requires AllSized(ops)
    decreases |ops|
  {
    if ops == [] then Ok((f, []))
    else
      var (g, out) :- Step(f, ops[0]);
      var (h, outs) :- Run(g, ops[1..]);
      Ok((h, [out] + outs))
  }

  function PlainRun(p: Plain, ops: seq<FileOp>): Option<(Plain, seq<seq<Byte>>)>
    decreases |ops|
  {
    if ops == [] then Some((p, []))
    else
      match PlainStep(p, ops[0])
      case None => None
      case Some((q, out)) =>
        match PlainRun(q, ops[1..])
        case None => None
        case Some((r, outs)) => Some((r, [out] + outs))
  }

  /** Over any run of seeks, reads and writes a ramdisk file is a sequence of bytes with a cursor. */
  lemma {:induction false} RunRefinesPlain(f: OpenFile, ops: seq<FileOp>)
    requires FileInv(f) && AllSized(ops)
    ensures match Run(f, ops)
      case Ok((g, outs)) => FileInv(g) && PlainRun(View(f), ops) == Some((View(g), outs))
                            && |g.buffer| == |f.buffer| && g.canonicalSize >= f.canonicalSize
      case Stop(_) => PlainRun(View(f), ops) == None
    decreases |ops|
  {
    hide View, PlainStep, Step;
    if ops != [] {
      StepRefinesPlain(f, ops[0]);
      var step := Step(f, ops[0]);
      if step.Ok? {
        RunRefinesPlain(step.value.0, ops[1..]);
      }
    }
  }

  /** What was written is what a read of the same place returns, and the rest of the file is untouched. */
  lemma WriteThenReadBack(f: OpenFile, data: seq<Byte>)
    requires FileInv(f) && |data| < WORD_LIMIT && Write(f, f.offset, data).Ok?
    ensures var g := Write(f, f.offset, data).value;
      && Run(f, [WriteBytes(data), SeekTo(f.offset), ReadBytes(|data|)]) == Ok((g, [[], [], data]))
      && |g.buffer| == |f.buffer|
      && forall i :: 0 <= i < |f.buffer| && !(f.offset <= i < f.offset + |data|) ==> g.buffer[i] == f.buffer[i]
  {
    var g := Write(f, f.offset, data).value;
    var h := g.(offset := f.offset);
    assert g.buffer[f.offset..f.offset + |data|] == data;
    var ops := [WriteBytes(data), SeekTo(f.offset), ReadBytes(|data|)];
    assert Step(f, ops[0]) == Ok((g, [])) && Step(g, ops[1]) == Ok((h, [])) && Step(h, ops[2]) == Ok((g, data));
    hide Step, Run;
    RunFirst(f, ops, g, []);
    RunFirst(g, ops[1..], h, []);
    RunFirst(h, ops[1..][1..], g, data);
    assert [[]] + ([[]] + ([data] + [])) == [[], [], data];
  }

  lemma RunFirst(f: OpenFile, ops: seq<FileOp>, g: OpenFile, out: seq<Byte>)
    requires AllSized(ops) && ops != [] && Step(f, ops[0]) == Ok((g, out))
    ensures ops[1..] == [] ==> Run(f, ops) == Ok((g, [out] + []))
    ensures Run(g, ops[1..]).Ok? ==> Run(f, ops) == Ok((Run(g, ops[1..]).value.0, [out] + Run(g, ops[1..]).value.1))
  {
    hide Step;
  }
  /** A run that gets there: one byte into an empty file, and then the largest read there is. */
  lemma OverrunHappens(b: Byte)
    ensures var f := OpenFile(Zeros(FILE_CAPACITY), 0, 0);
      FileInv(f) && Run(f, [WriteBytes([b]), ReadBytes(0xFFFF_FFFF)]) == Stop(Overrun)
  {
    var f := OpenFile(Zeros(FILE_CAPACITY), 0, 0);
    var ops := [WriteBytes([b]), ReadBytes(0xFFFF_FFFF)];
    var g := Write(f, 0, [b]).value;
    assert g.offset == 1 && g.canonicalSize == 1;
    assert Step(g, ops[1]) == Stop(Overrun);
    assert Run(g, ops[1..]) == Stop(Overrun);
  }
}
