/** kernel/filesystem.c with lib/string: nodes, buffers and the directory list, changed in place. */
module Filesystem {
  import opened Machine
  import opened Image
  import opened Files

  // ----- lib/string -----

  /** `memcpy(dest + d, src + s, n)` */
  method Memcpy(dest: array<Byte>, d: nat, src: array<Byte>, s: nat, n: nat)
    requires dest != src && d + n <= dest.Length && s + n <= src.Length
    modifies dest
    ensures dest[..] == old(dest[..d]) + src[s..s + n] + old(dest[d + n..])
  {
    var i := 0;
    while i < n
      invariant 0 <= i <= n
      invariant dest[..d] == old(dest[..d]) && dest[d..d + i] == src[s..s + i] && dest[d + i..] == old(dest[d + i..])
    {
      dest[d + i] := src[s + i];
      i := i + 1;
    }
    assert dest[..] == dest[..d] + dest[d..d + n] + dest[d + n..];
  }

  /** `strcpy(dest, src + at)`: false where the C code would leave one of the two arrays. */
  method Strcpy(dest: array<Byte>, src: array<Byte>, at: nat) returns (ok: bool)
    requires dest != src
    modifies dest
    ensures ok <==> CString(src[..], at).Some? && |CString(src[..], at).value| < dest.Length
    ensures ok ==> var s := CString(src[..], at).value; dest[..] == s + [0] + old(dest[|s| + 1..])
  {
    hide CString;
    ghost var m := src[..];
    var i := 0;
    while true
      invariant 0 <= i <= dest.Length && (i > 0 ==> at + i <= src.Length)
      invariant dest[i..] == old(dest[i..])
      invariant i > 0 ==> dest[..i] == m[at..at + i]
      invariant forall j :: at <= j < at + i ==> m[j] != 0
      decreases dest.Length - i
    {
      if at + i >= src.Length || i >= dest.Length {
        return false;
      }
      dest[i] := src[at + i];
      if src[at + i] == 0 {
        assert m[at..at + i] == dest[..i];
        CStringFound(m, at, dest[..i]);
        assert dest[..] == dest[..i] + [0] + old(dest[i + 1..]);
        return true;
      }
      i := i + 1;
    }
  }

  // ----- Nodes -----

  datatype NodeType = FsFile | FsDirectory

  /** The 128 bytes of a name field: the name, which has no NUL, and then zeros. */
  ghost predicate NameBytes(field: seq<Byte>, name: seq<Byte>) {
    |name| <= 127 && 0 !in name && field == name + Zeros(128 - |name|)
  }

  /** A file of 256 bytes into which `contents` have been written: zeros behind them, the cursor at their end. */
  ghost function FreshFile(contents: seq<Byte>): OpenFile
    requires |contents| <= 256
  {
    OpenFile(contents + Zeros(256 - |contents|), |contents|, |contents|)
  }

  lemma NameCopied(field: seq<Byte>, zeros: seq<Byte>, name: seq<Byte>)
    requires zeros == Zeros(128) && |name| < 128 && 0 !in name && field == name + [0] + zeros[|name| + 1..]
    ensures NameBytes(field, name)
  {
  }

  class FsNode {
    const name: array<Byte>
    var kind: NodeType
    var offset: Word
    var buffer: array<Byte>
    var canonicalSize: Word
    var allocatedSize: Word
    var head: Dirent?
    var size: nat

    /** A node as the heap hands it out, with no buffer yet. */
    constructor (kind: NodeType)
      ensures fresh(name) && fresh(buffer) && name != buffer
      ensures name.Length == NAME_LENGTH && forall i :: 0 <= i < NAME_LENGTH ==> name[i] == 0
      ensures this.kind == kind && head == null && size == 0
      ensures offset == 0 && canonicalSize == 0 && allocatedSize == 0 && buffer.Length == 0
    {
      name := new Byte[NAME_LENGTH](_ => 0);
      buffer := new Byte[0];
      this.kind := kind;
      offset, canonicalSize, allocatedSize := 0, 0, 0;
      head, size := null, 0;
    }

    ghost predicate ValidFile()
      reads this, buffer
    {
      kind == FsFile && name != buffer && buffer.Length == allocatedSize && FileInv(Open())
    }

    /** The file as module `Files` sees it. */
    ghost function Open(): OpenFile
      reads this, buffer
    {
      OpenFile(buffer[..], offset, canonicalSize)
    }

    /** The node as `read_ramdisk` leaves it: a file just written, with its cursor at the end. */
    ghost predicate Holds(f: File)
      reads this, name, buffer
    {
      && ValidFile() && NameBytes(name[..], f.name)
      && |f.contents| <= 256 && Open() == FreshFile(f.contents) && allocatedSize == 256
    }

    /** `ramdisk_read` */
    method RamdiskRead(offset: Word, size: Word, dest: array<Byte>) returns (halt: Option<FsHalt>)
      requires kind == FsFile ==> ValidFile()
      requires dest != buffer && size <= dest.Length
      modifies this`offset, dest
      ensures kind != FsFile ==> halt == Some(NotAFile)
      ensures kind == FsFile ==> match halt
        case None =>
          Files.Read(old(Open()), offset, size) == Ok((Open(), dest[..size])) && dest[size..] == old(dest[size..])
        case Some(why) => Files.Read(old(Open()), offset, size) == Stop(why)
    {
      if kind != FsFile {
        return Some(NotAFile);
      }
      if Wrap(offset + size) > canonicalSize {
        return Some(ReadPastEnd);
      }
      if offset + size > allocatedSize {
        return Some(Overrun);
      }
      Memcpy(dest, 0, buffer, offset, size);
      assert dest[..size] == buffer[offset..offset + size];
      this.offset := Wrap(offset + size);
      return None;
    }

    /** `ramdisk_write` of `size` bytes of `src` from `at`. */
    method RamdiskWrite(offset: Word, size: Word, src: array<Byte>, at: nat) returns (halt: Option<FsHalt>)
      requires kind == FsFile ==> ValidFile()
      requires src != buffer && at + size <= src.Length
      modifies this`offset, this`canonicalSize, buffer
      ensures kind != FsFile ==> halt == Some(NotAFile)
      ensures kind == FsFile ==> match halt
        case None => Files.Write(old(Open()), offset, src[at..at + size]) == Ok(Open())
        case Some(why) => Files.Write(old(Open()), offset, src[at..at + size]) == Stop(why)
    {
      if kind != FsFile {
        return Some(NotAFile);
      }
      if offset > canonicalSize {
        return Some(WriteBeyondEnd);
      }
      if Wrap(offset + size) > allocatedSize {
        return Some(NoSpace);
      }
      if offset + size > allocatedSize {
        return Some(Overrun);
      }
      Memcpy(buffer, offset, src, at, size);
      canonicalSize := if canonicalSize > Wrap(offset + size) then canonicalSize else Wrap(offset + size);
      this.offset := Wrap(offset + size);
      return None;
    }

    /** `ramdisk_seek` */
    method RamdiskSeek(position: Word) returns (halt: Option<FsHalt>)
      requires kind == FsFile ==> ValidFile()
      modifies this`offset
      ensures kind != FsFile ==> halt == Some(NotAFile)
      ensures kind == FsFile ==> match halt
        case None => Files.Seek(old(Open()), position) == Ok(Open())
        case Some(why) => Files.Seek(old(Open()), position) == Stop(why)
    {
      if kind != FsFile {
        return Some(NotAFile);
      }
      if position > allocatedSize {
        return Some(BadSeek);
      }
      offset := position;
      return None;
    }
  }

  class Dirent {
    const node: FsNode
    var next: Dirent?

    constructor (node: FsNode)
      ensures this.node == node && next == null
    {
      this.node := node;
      next := null;
    }
  }

  /** `fs_read`, `fs_write` and `fs_seek`: the call goes to the node's own offset. */
  method FsRead(node: FsNode, size: Word, dest: array<Byte>) returns (halt: Option<FsHalt>)
    requires node.kind == FsFile ==> node.ValidFile()
    requires dest != node.buffer && size <= dest.Length
    modifies node`offset, dest
    ensures node.kind != FsFile ==> halt == Some(NotAFile)
    ensures node.kind == FsFile ==> match halt
      case None =>
        && Files.Step(old(node.Open()), ReadBytes(size)) == Ok((node.Open(), dest[..size]))
        && dest[size..] == old(dest[size..])
      case Some(why) => Files.Step(old(node.Open()), ReadBytes(size)) == Stop(why)
  {
    halt := node.RamdiskRead(node.offset, size, dest);
  }

  method FsWrite(node: FsNode, size: Word, src: array<Byte>, at: nat) returns (halt: Option<FsHalt>)
    requires node.kind == FsFile ==> node.ValidFile()
    requires src != node.buffer && at + size <= src.Length
    modifies node`offset, node`canonicalSize, node.buffer
    ensures node.kind != FsFile ==> halt == Some(NotAFile)
    ensures node.kind == FsFile ==> match halt
      case None => Files.Step(old(node.Open()), WriteBytes(src[at..at + size])) == Ok((node.Open(), []))
      case Some(why) => Files.Step(old(node.Open()), WriteBytes(src[at..at + size])) == Stop(why)
  {
    halt := node.RamdiskWrite(node.offset, size, src, at);
  }

  method FsSeek(node: FsNode, position: Word) returns (halt: Option<FsHalt>)
    requires node.kind == FsFile ==> node.ValidFile()
    modifies node`offset
    ensures node.kind != FsFile ==> halt == Some(NotAFile)
    ensures node.kind == FsFile ==> match halt
      case None => Files.Step(old(node.Open()), SeekTo(position)) == Ok((node.Open(), []))
      case Some(why) => Files.Step(old(node.Open()), SeekTo(position)) == Stop(why)
  {
    halt := node.RamdiskSeek(position);
  }

  // ----- The root directory -----

  /** Dirents from `head` on, in order, up to the one that links to nothing. */
  ghost predicate Chain(head: Dirent?, es: seq<Dirent>)
    reads es`next
  {
    && (forall i, j :: 0 <= i < j < |es| ==> es[i] != es[j])
    && head == (if es == [] then null else es[0])
    && (forall i :: 0 <= i < |es| - 1 ==> es[i].next == es[i + 1])
    && (es != [] ==> es[|es| - 1].next == null)
  }

  /** `fs_add_dirent` */
  method FsAddDirent(directory: FsNode, file: FsNode, ghost es: seq<Dirent>)
    returns (halt: Option<FsHalt>, ghost added: seq<Dirent>)
    requires Chain(directory.head, es) && directory.size == |es|
    modifies directory`head, directory`size, es`next
    ensures halt == if directory.kind != FsDirectory then Some(NotADirectory)
                    else if file.kind != FsFile then Some(NotAFile) else None
    ensures halt.None? ==> Chain(directory.head, added) && directory.size == |added|
    ensures halt.None? ==> |added| == |es| + 1 && added[..|es|] == es && fresh(added[|es|]) && added[|es|].node == file
  {
    added := es;
    if directory.kind != FsDirectory {
      return Some(NotADirectory), es;
    }
    if file.kind != FsFile {
      return Some(NotAFile), es;
    }
    var entry := new Dirent(file);
    var current := directory.head;
    if current == null {
      directory.head := entry;
    } else {
      ghost var i := 0;
      while current.next != null
        invariant 0 <= i < |es| && current == es[i] && Chain(directory.head, es)
        invariant i < |es| - 1 ==> es[i].next == es[i + 1]
        decreases |es| - i
      {
        current := current.next;
        i := i + 1;
      }
      assert i == |es| - 1;
      current.next := entry;
    }
    directory.size := directory.size + 1;
    added := es + [entry];
    assert forall k :: 0 <= k < |es| ==> added[k] == es[k];
    return None, added;
  }

  /** `fs_construct_node(src + at, kind)`; it stops where the name leaves its array. */
  method FsConstructNode(src: array<Byte>, at: nat, kind: NodeType) returns (node: FsNode, halt: Option<FsHalt>)
    ensures fresh(node) && fresh(node.name) && fresh(node.buffer)
    ensures halt ==
      if CString(src[..], at).Some? && |CString(src[..], at).value| < NAME_LENGTH then None else Some(Overrun)
    ensures halt.None? ==>
      node.kind == kind && NameBytes(node.name[..], CString(src[..], at).value)
    ensures halt.None? && kind == FsFile ==>
      node.ValidFile() && node.Open() == FreshFile([]) && node.allocatedSize == 256
    ensures halt.None? && kind == FsDirectory ==> Chain(node.head, []) && node.size == 0
  {
    hide CString, NameBytes;
    node := new FsNode(kind);
    ghost var zeros := node.name[..];
    assert zeros == Zeros(128);
    var ok := Strcpy(node.name, src, at);
    if !ok {
      return node, Some(Overrun);
    }
    NameCopied(node.name[..], zeros, CString(src[..], at).value);
    if kind == FsFile {
      node.offset := 0;
      node.buffer := new Byte[FILE_CAPACITY](_ => 0);
      node.canonicalSize := 0;
      node.allocatedSize := FILE_CAPACITY;
      assert node.buffer[..] == [] + Zeros(256);
    } else {
      node.head := null;
      node.size := 0;
    }
    return node, None;
  }

  /** The directory of a parsed image: node `i` holds file `i`. */
  ghost predicate Lists(directory: FsNode, es: seq<Dirent>, files: seq<File>)
    reads directory, es`next
    reads set e | e in es :: e.node
    reads set e | e in es :: e.node.name
    reads set e | e in es :: e.node.buffer
  {
    && Chain(directory.head, es) && directory.size == |es| == |files|
    && forall i :: 0 <= i < |es| ==> es[i].node.Holds(files[i])
  }

  /** Writing into an empty file of a fresh node. */
  lemma FirstWrite(f: OpenFile, data: seq<Byte>)
    requires f == FreshFile([]) && |data| <= 256
    ensures Files.Write(f, 0, data) == Ok(FreshFile(data))
  {
    assert f.buffer[..0] + data + f.buffer[0 + |data|..] == data + Zeros(256 - |data|);
  }

  /** The first `fs_write` to a node that fits its buffer. */
  method FillNode(node: FsNode, size: Word, memory: array<Byte>, at: nat) returns (halt: Option<FsHalt>)
    requires node.ValidFile() && node.Open() == FreshFile([])
    requires memory != node.buffer && memory != node.name && size <= 256 && at + size <= memory.Length
    modifies node`offset, node`canonicalSize, node.buffer
    ensures halt == None && node.ValidFile()
    ensures |memory[at..at + size]| == size && node.Open() == FreshFile(memory[at..at + size])
  {
    hide Files.Write;
    ghost var data := memory[at..at + size];
    FirstWrite(node.Open(), data);
    halt := FsWrite(node, size, memory, at);
  }

  lemma ParseFileCases(mem: seq<Byte>, at: nat)
    ensures at + HEADER_LENGTH > |mem| ==> ParseFile(mem, at) == Stop(Overrun)
    ensures at + HEADER_LENGTH <= |mem| ==>
      var size, name := UnpackWord(mem, at), CString(mem, at + 4);
      ParseFile(mem, at) ==
        if name.None? || |name.value| >= NAME_LENGTH then Stop(Overrun)
        else if size > FILE_CAPACITY then Stop(NoSpace)
        else if at + HEADER_LENGTH + size > |mem| then Stop(Overrun)
        else Ok(File(name.value, mem[at + HEADER_LENGTH..at + HEADER_LENGTH + size]))
  {
    hide CString, UnpackWord;
  }

  lemma NodeHolds(node: FsNode, f: File)
    requires node.ValidFile() && NameBytes(node.name[..], f.name) && node.allocatedSize == 256
    requires |f.contents| <= 256 && node.Open() == FreshFile(f.contents)
    ensures node.Holds(f)
  {
  }

  /** The body of the parse loop: a node for the record at `current`. */
  method ParseNode(memory: array<Byte>, current: nat) returns (node: FsNode, next: nat, halt: Option<FsHalt>)
    requires memory.Length < WORD_LIMIT
    ensures fresh(node) && fresh(node.name) && fresh(node.buffer)
    ensures match halt
      case None => ParseFile(memory[..], current).Ok? && node.kind == FsFile
                   && node.Holds(ParseFile(memory[..], current).value)
                   && next == current + HEADER_LENGTH + |ParseFile(memory[..], current).value.contents|
      case Some(why) => ParseFile(memory[..], current) == Stop(why)
  {
    hide CString, FromBytes, UnpackWord, ParseFile, Files.Write, NameBytes, FreshFile, FsNode.Holds, FileInv;
    ParseFileCases(memory[..], current);
    next := current;
    node := new FsNode(FsFile);
    if current + HEADER_LENGTH > memory.Length {
      return node, next, Some(Overrun);
    }
    var size := FromBytes(memory[current], memory[current + 1], memory[current + 2], memory[current + 3]);
    UnpackedWord(memory[..], current, size);
    node, halt := FsConstructNode(memory, current + 4, FsFile);
    if halt.Some? {
      return;
    }
    if size > FILE_CAPACITY {
      return node, next, Some(NoSpace);
    }
    if current + HEADER_LENGTH + size > memory.Length {
      return node, next, Some(Overrun);
    }
    halt := FillNode(node, size, memory, current + HEADER_LENGTH);
    next := current + HEADER_LENGTH + size;
    NodeHolds(node, ParseFile(memory[..], current).value);
  }

  lemma UnpackedWord(mem: seq<Byte>, at: nat, size: Word)
    requires at + 4 <= |mem| && size == FromBytes(mem[at], mem[at + 1], mem[at + 2], mem[at + 3])
    ensures UnpackWord(mem, at) == size
  {
  }

  method AppendNode(root: FsNode, node: FsNode, ghost es: seq<Dirent>, ghost files: seq<File>, ghost f: File)
    returns (ghost added: seq<Dirent>)
    requires Lists(root, es, files) && node.Holds(f) && node.kind == FsFile
    requires root.kind == FsDirectory && root != node && forall e :: e in es ==> e.node != root
    modifies root`head, root`size, es`next
    ensures Lists(root, added, files + [f])
    ensures |added| == |es| + 1 && added[..|es|] == es && fresh(added[|es|]) && added[|es|].node == node
  {
    hide FsNode.Holds;
    var halt;
    halt, added := FsAddDirent(root, node, es);
  }

  ghost predicate ParsedSoFar(mem: seq<Byte>, start: nat, end: nat, files: seq<File>, current: nat) {
    ParseImage(mem, start, end) ==
      match ParseImage(mem, current, end)
      case Ok((rest, stop)) => Ok((files + rest, stop))
      case Stop(why) => Stop(why)
  }

  lemma ParsedNothing(mem: seq<Byte>, start: nat, end: nat)
    ensures ParsedSoFar(mem, start, end, [], start)
  {
    var all := ParseImage(mem, start, end);
    if all.Ok? {
      assert [] + all.value.0 == all.value.0;
    }
  }

  lemma ParseOneMore(mem: seq<Byte>, start: nat, end: nat, files: seq<File>, current: nat)
    requires ParsedSoFar(mem, start, end, files, current) && current < end
    ensures match ParseFile(mem, current)
      case Ok(f) => ParsedSoFar(mem, start, end, files + [f], current + HEADER_LENGTH + |f.contents|)
      case Stop(why) => ParseImage(mem, start, end) == Stop(why)
  {
    hide ParseFile;
    var f := ParseFile(mem, current);
    if f.Ok? {
      var rest := ParseImage(mem, current + HEADER_LENGTH + |f.value.contents|, end);
      if rest.Ok? {
        assert files + ([f.value] + rest.value.0) == files + [f.value] + rest.value.0;
      }
    }
  }

  /** `read_ramdisk`: the directory lists exactly the files that ParseImage finds, in order. */
  method ReadRamdisk(root: FsNode, memory: array<Byte>, start: nat, end: nat)
    returns (halt: Option<FsHalt>, ghost es: seq<Dirent>, current: nat)
    requires root.kind == FsDirectory && root.head == null && root.size == 0
    requires memory.Length < WORD_LIMIT
    modifies root`head, root`size
    ensures match halt
      case None => ParseImage(memory[..], start, end).Ok?
                   && Lists(root, es, ParseImage(memory[..], start, end).value.0)
                   && current == ParseImage(memory[..], start, end).value.1
      case Some(why) => ParseImage(memory[..], start, end) == Stop(why)
  {
    hide ParseFile, FsNode.Holds;
    es := [];
    current := start;
    ghost var files, mem := [], memory[..];
    ParsedNothing(mem, start, end);
    while current < end
      invariant Lists(root, es, files) && ParsedSoFar(mem, start, end, files, current)
      invariant forall e :: e in es ==> fresh(e) && fresh(e.node)
      invariant root.kind == FsDirectory && memory[..] == mem
      decreases end - current
    {
      ParseOneMore(mem, start, end, files, current);
      var node, next;
      node, next, halt := ParseNode(memory, current);
      if halt.Some? {
        return;
      }
      es := AppendNode(root, node, es, files, ParseFile(mem, current).value);
      files := files + [ParseFile(mem, current).value];
      current := next;
    }
    halt := None;
    assert files + [] == files;
  }
}
