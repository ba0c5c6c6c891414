/** The ramdisk image: what make_initrd.py writes and what the kernel's parser makes of it. */
module Image {
  import opened Machine

  const NAME_LENGTH: nat := 128
  const HEADER_LENGTH: nat := 132
  const FILE_CAPACITY: nat := 256

  /** A file on the host: any name, any contents. */
  datatype File = File(name: seq<Byte>, contents: seq<Byte>)

  datatype FsHalt =
    | NotAFile
    | NotADirectory
    | ReadPastEnd
    | WriteBeyondEnd      // a write that starts after the last byte
    | NoSpace
    | BadSeek
    | Overrun             // the C code leaves the array it works on; nothing is promised from there

  // ----- The writer (initfs/make_initrd.py) -----

  /** `struct.pack('I', n)` */
  function PackWord(n: Word): (bytes: seq<Byte>)
    ensures |bytes| == 4
  {
    [ByteOf(n, 0), ByteOf(n, 1), ByteOf(n, 2), ByteOf(n, 3)]
  }

  /** `struct.pack('128s', name)`: cut or padded with NULs to 128 bytes. */
  function PackName(name: seq<Byte>): (bytes: seq<Byte>)
    ensures |bytes| == NAME_LENGTH
  {
    if |name| >= NAME_LENGTH then name[..NAME_LENGTH] else name + Zeros(NAME_LENGTH - |name|)
  }

  function PackFile(f: File): seq<Byte>
    requires |f.contents| < WORD_LIMIT
  {
    PackWord(|f.contents|) + PackName(f.name) + f.contents
  }

  /** Sizes that `struct.pack('I', ...)` accepts. */
  predicate Packable(files: seq<File>) {
    forall i :: 0 <= i < |files| ==> |files[i].contents| < WORD_LIMIT
  }

  function WriteImage(files: seq<File>): seq<Byte>
    requires Packable(files)
  {
    if files == [] then [] else PackFile(files[0]) + WriteImage(files[1..])
  }

  // ----- The bytes of an image -----

  /** A file's record at `at`, byte by byte: its size in four bytes, its name in 128, its contents. */
  ghost predicate IsRecord(bytes: seq<Byte>, at: nat, f: File) {
    && at + 132 + |f.contents| <= |bytes|
    && bytes[at] == |f.contents| % 256 && bytes[at + 1] == |f.contents| / 256 % 256
    && bytes[at + 2] == |f.contents| / 65536 % 256 && bytes[at + 3] == |f.contents| / 16777216
    && (forall i :: at + 4 <= i < at + 132 ==>
          bytes[i] == if i - (at + 4) < |f.name| then f.name[i - (at + 4)] else 0)
    && bytes[at + 132..at + 132 + |f.contents|] == f.contents
  }

  /** Where record `n` starts: behind the records of the files before it. */
  function RecordStart(files: seq<File>, n: nat): nat
    requires n <= |files|
  {
    if n == 0 then 0 else RecordStart(files, n - 1) + 132 + |files[n - 1].contents|
  }

  /** The image is the records of the files, one after another, and nothing else. */
  ghost predicate IsImage(bytes: seq<Byte>, files: seq<File>) {
    && |bytes| == RecordStart(files, |files|)
    && forall n :: 0 <= n < |files| ==> IsRecord(bytes, RecordStart(files, n), files[n])
  }

  lemma PackedIsRecord(f: File)
    requires |f.contents| < WORD_LIMIT
    ensures IsRecord(PackFile(f), 0, f) && |PackFile(f)| == 132 + |f.contents|
  {
    var name := PackName(f.name);
    assert PackFile(f)[132..132 + |f.contents|] == f.contents;
    assert forall i :: 4 <= i < 132 ==> PackFile(f)[i] == name[i - 4];
  }

  lemma RecordBehind(before: seq<Byte>, bytes: seq<Byte>, at: nat, f: File)
    requires IsRecord(bytes, at, f)
    ensures IsRecord(before + bytes, |before| + at, f)
  {
    var all := before + bytes;
    assert forall i :: at <= i < |bytes| ==> all[|before| + i] == bytes[i];
    assert all[|before| + at + 132..|before| + at + 132 + |f.contents|] == bytes[at + 132..at + 132 + |f.contents|];
    forall i | |before| + at + 4 <= i < |before| + at + 132
      ensures all[i] == if i - (|before| + at + 4) < |f.name| then f.name[i - (|before| + at + 4)] else 0
    {
      assert all[i] == bytes[i - |before|];
    }
  }

  lemma RecordBefore(bytes: seq<Byte>, after: seq<Byte>, at: nat, f: File)
    requires IsRecord(bytes, at, f)
    ensures IsRecord(bytes + after, at, f)
  {
    assert (bytes + after)[at + 132..at + 132 + |f.contents|] == bytes[at + 132..at + 132 + |f.contents|];
  }

  lemma {:induction false} LaterRecordStart(files: seq<File>, n: nat)
    requires n < |files|
    ensures RecordStart(files, n + 1) == 132 + |files[0].contents| + RecordStart(files[1..], n)
  {
    if n > 0 {
      LaterRecordStart(files, n - 1);
    }
  }

  lemma {:induction false} WrittenIsImage(files: seq<File>)
    requires Packable(files)
    ensures IsImage(WriteImage(files), files)
  {
    hide PackFile, IsRecord, RecordStart;
    if files == [] {
      NoRecords(files);
    } else {
      var first, rest := PackFile(files[0]), WriteImage(files[1..]);
      WrittenIsImage(files[1..]);
      PackedIsRecord(files[0]);
      LaterRecordStart(files, |files| - 1);
      forall n | 0 <= n < |files| ensures IsRecord(first + rest, RecordStart(files, n), files[n]) {
        if n == 0 {
          NoRecords(files);
          RecordBefore(first, rest, 0, files[0]);
        } else {
          LaterRecordStart(files, n - 1);
          RecordBehind(first, rest, RecordStart(files[1..], n - 1), files[n]);
        }
      }
    }
  }

  lemma NoRecords(files: seq<File>)
    ensures RecordStart(files, 0) == 0
  {
  }

  lemma AppendFile(before: seq<Byte>, f: File, after: seq<Byte>)
    requires |f.contents| < WORD_LIMIT
    ensures before + PackWord(|f.contents|) + PackName(f.name) + f.contents + after == before + (PackFile(f) + after)
  {
    hide PackWord, PackName;
  }

  /** The script's loop: one record appended per directory entry. */
  method MakeInitrd(files: seq<File>) returns (outfile: seq<Byte>)
    requires Packable(files)
    ensures outfile == WriteImage(files) && IsImage(outfile, files)
  {
    hide PackWord, PackName, IsImage;
    outfile := [];
    var i := 0;
    while i < |files|
      invariant 0 <= i <= |files|
      invariant WriteImage(files) == outfile + WriteImage(files[i..])
    {
      AppendFile(outfile, files[i], WriteImage(files[i + 1..]));
      outfile := outfile + PackWord(|files[i].contents|);
      outfile := outfile + PackName(files[i].name);
      outfile := outfile + files[i].contents;
      assert files[i..][1..] == files[i + 1..];
      i := i + 1;
    }
    WrittenIsImage(files);
  }

  // ----- The parser (kernel/filesystem.c, read_ramdisk) -----

  function UnpackWord(mem: seq<Byte>, at: nat): Word
    requires at + 4 <= |mem|
  {
    FromBytes(mem[at], mem[at + 1], mem[at + 2], mem[at + 3])
  }

  /** The bytes of the C string at `at`, if a NUL ends it. */
  function CString(mem: seq<Byte>, at: nat): (s: Option<seq<Byte>>)
    ensures s.Some? ==> at + |s.value| < |mem| && s.value == mem[at..at + |s.value|]
    ensures s.Some? ==> mem[at + |s.value|] == 0 && forall b :: b in s.value ==> b != 0
    ensures s.None? ==> forall i :: at <= i < |mem| ==> mem[i] != 0
    decreases |mem| - at
  {
    if at >= |mem| then None
    else if mem[at] == 0 then Some([])
    else
      match CString(mem, at + 1)
      case None => None
      case Some(rest) => Some([mem[at]] + rest)
  }

  /** One record: a node with the name and contents found there. */
  function ParseFile(mem: seq<Byte>, at: nat): Result<File, FsHalt> {
    if at + HEADER_LENGTH > |mem| then Stop(Overrun)
    else
      var size := UnpackWord(mem, at);
      match CString(mem, at + 4)
      case None => Stop(Overrun)
      case Some(name) =>
        if |name| >= NAME_LENGTH then Stop(Overrun)
        else if size > FILE_CAPACITY then Stop(NoSpace)
        else if at + HEADER_LENGTH + size > |mem| then Stop(Overrun)
        else Ok(File(name, mem[at + HEADER_LENGTH..at + HEADER_LENGTH + size]))
  }

  /** The loop from `current` to `end`: the files in order, and where the loop stopped. */
  function ParseImage(mem: seq<Byte>, current: nat, end: nat): Result<(seq<File>, nat), FsHalt>
    decreases end - current
  {
    if current >= end then Ok(([], current))
    else
      var f :- ParseFile(mem, current);
      var (rest, stop) :- ParseImage(mem, current + HEADER_LENGTH + |f.contents|, end);
      Ok(([f] + rest, stop))
  }

  // ----- The round trip -----

  /** What the kernel can hold: a name of 128 bytes with its NUL, contents of at most one buffer. */
  predicate Fits(f: File) {
    |f.name| <= 127 && |f.contents| <= 256
  }

  /** Names come from a directory listing, so they hold no NUL. */
  predicate Named(files: seq<File>) {
    forall i :: 0 <= i < |files| ==> 0 !in files[i].name
  }

  lemma UnpackPacked(mem: seq<Byte>, at: nat, n: Word)
    requires at + 4 <= |mem| && mem[at..at + 4] == PackWord(n)
    ensures UnpackWord(mem, at) == n
  {
    assert mem[at] == mem[at..at + 4][0] && mem[at + 1] == mem[at..at + 4][1];
    assert mem[at + 2] == mem[at..at + 4][2] && mem[at + 3] == mem[at..at + 4][3];
    hide ByteOf, FromBytes;
    WordOfBytes(n);
  }

  lemma {:induction false} CStringFound(mem: seq<Byte>, at: nat, name: seq<Byte>)
    requires at + |name| < |mem| && mem[at..at + |name|] == name && mem[at + |name|] == 0 && 0 !in name
    ensures CString(mem, at) == Some(name)
    decreases |name|
  {
    if name != [] {
      assert mem[at] == name[0] && name[0] in name;
      assert mem[at + 1..at + |name|] == mem[at..at + |name|][1..];
      CStringFound(mem, at + 1, name[1..]);
    }
  }

  /** A name without a NUL in its 128 bytes is never accepted. */
  lemma LongNameOverruns(mem: seq<Byte>, at: nat)
    requires at + NAME_LENGTH <= |mem| && forall i :: at <= i < at + NAME_LENGTH ==> mem[i] != 0
    ensures CString(mem, at).Some? ==> |CString(mem, at).value| >= NAME_LENGTH
  {
  }

  /** The name field gives the name back if its NUL is there, and no acceptable string otherwise. */
  lemma NameField(mem: seq<Byte>, at: nat, name: seq<Byte>)
    requires at + NAME_LENGTH <= |mem| && mem[at..at + NAME_LENGTH] == PackName(name) && 0 !in name
    ensures |name| < NAME_LENGTH ==> CString(mem, at) == Some(name)
    ensures |name| >= NAME_LENGTH && CString(mem, at).Some? ==> |CString(mem, at).value| >= NAME_LENGTH
  {
    hide CString;
    if |name| < NAME_LENGTH {
      assert mem[at..at + |name|] == mem[at..at + NAME_LENGTH][..|name|] == name;
      assert mem[at + |name|] == mem[at..at + NAME_LENGTH][|name|];
      CStringFound(mem, at, name);
    } else {
      forall i | at <= i < at + NAME_LENGTH ensures mem[i] != 0 {
        assert mem[i] == mem[at..at + NAME_LENGTH][i - at] == name[i - at];
      }
      LongNameOverruns(mem, at);
    }
  }

  /** Consecutive pieces of memory, when their concatenation is there. */
  lemma Pieces(mem: seq<Byte>, at: nat, a: seq<Byte>, b: seq<Byte>)
    requires at + |a| + |b| <= |mem| && mem[at..at + |a| + |b|] == a + b
    ensures mem[at..at + |a|] == a && mem[at + |a|..at + |a| + |b|] == b
  {
    var m := mem[at..at + |a| + |b|];
    assert m[..|a|] == a && m[|a|..] == b;
  }

  /** A packed file parses to itself if it fits, and to no file at all if it does not. */
  lemma PackedFileParses(mem: seq<Byte>, at: nat, f: File)
    requires |f.contents| < WORD_LIMIT && 0 !in f.name
    requires at + |PackFile(f)| <= |mem| && mem[at..at + |PackFile(f)|] == PackFile(f)
    ensures ParseFile(mem, at) ==
      if Fits(f) then Ok(f) else if |f.name| > 127 then Stop(Overrun) else Stop(NoSpace)
  {
    hide PackWord, PackName, CString, UnpackWord;
    Pieces(mem, at, PackWord(|f.contents|) + PackName(f.name), f.contents);
    Pieces(mem, at, PackWord(|f.contents|), PackName(f.name));
    UnpackPacked(mem, at, |f.contents|);
    NameField(mem, at + 4, f.name);
  }

  /**
   * Round trip: the image of a list of files, wherever it lies in memory, parses back to that list
   * if and only if every name leaves room for its NUL and every file fits its buffer. The loop
   * then stops exactly at the end of the image.
   */
  lemma {:induction false} ImageRoundTrip(files: seq<File>, mem: seq<Byte>, start: nat)
    requires Packable(files) && Named(files)
    requires start + |WriteImage(files)| <= |mem| && mem[start..start + |WriteImage(files)|] == WriteImage(files)
    ensures var parsed := ParseImage(mem, start, start + |WriteImage(files)|);
      if AllFit(files) then parsed == Ok((files, start + |WriteImage(files)|)) else parsed.Stop?
    decreases |files|
  {
    hide PackFile, ParseFile, Fits;
    if files != [] {
      var f, rest := files[0], files[1..];
      PackedLength(f);
      Pieces(mem, start, PackFile(f), WriteImage(rest));
      PackedFileParses(mem, start, f);
      ImageRoundTrip(rest, mem, start + |PackFile(f)|);
      assert forall i :: 0 < i < |files| ==> files[i] == rest[i - 1];
      assert files == [f] + rest;
      assert AllFit(files) <==> Fits(f) && AllFit(rest);
    }
  }

  predicate AllFit(files: seq<File>) {
    forall i :: 0 <= i < |files| ==> Fits(files[i])
  }

  lemma PackedLength(f: File)
    requires |f.contents| < WORD_LIMIT
    ensures |PackFile(f)| == HEADER_LENGTH + |f.contents|
  {
  }
}
