/** The archive format of the file transfer: each file is an init_t header (two 32-bit host
    integers, name and size) followed by its contents, and files follow one another. */
module Archive {
  import opened Bytes

  datatype File = File(name: uint32, contents: seq<byte>)

  const INIT_SIZE: nat := 8

  /** The size field of init_t has 32 bits. */
  predicate Sized(fs: seq<File>) {
    forall f <- fs :: |f.contents| < 0x1_0000_0000
  }

  function FileRecord(f: File): seq<byte> {
    LE(f.name, 4) + LE(|f.contents|, 4) + f.contents
  }

  function Blob(fs: seq<File>): seq<byte> {
    if fs == [] then [] else FileRecord(fs[0]) + Blob(fs[1..])
  }

  /** The file at the front of b, or None if its header or contents would reach past the end of b. */
  function FirstFile(b: seq<byte>): (r: Option<File>)
    ensures r.Some? ==> INIT_SIZE + |r.value.contents| <= |b|
  {
    if |b| < INIT_SIZE then None else
    var size := FromLE(b[4..8]);
    if |b| < INIT_SIZE + size then None else
    Pow256Values();
    Some(File(FromLE(b[..4]), b[INIT_SIZE..INIT_SIZE + size]))
  }

  function Prepend(fs: seq<File>, r: Option<seq<File>>): Option<seq<File>> {
    match r case None => None case Some(gs) => Some(fs + gs)
  }

  /** What the splitting loop yields, or None where it would read past the end of the archive. */
  function Split(b: seq<byte>): Option<seq<File>>
    decreases |b|
  {
    if b == [] then Some([]) else
    match FirstFile(b)
    case None => None
    case Some(f) => Prepend([f], Split(b[INIT_SIZE + |f.contents|..]))
  }

  lemma FirstFileOfRecord(f: File, rest: seq<byte>)
    requires |f.contents| < 0x1_0000_0000
    ensures FirstFile(FileRecord(f) + rest) == Some(f)
    ensures (FileRecord(f) + rest)[INIT_SIZE + |f.contents|..] == rest
  {
    var b := FileRecord(f) + rest;
    Pow256Values();
    FromLEofLE(f.name, 4);
    FromLEofLE(|f.contents|, 4);
    assert b[..4] == LE(f.name, 4);
    assert b[4..8] == LE(|f.contents|, 4);
    assert b[8..8 + |f.contents|] == f.contents;
  }

  lemma RecordOfFirstFile(b: seq<byte>)
    requires FirstFile(b).Some?
    ensures var f := FirstFile(b).value;
      |f.contents| < 0x1_0000_0000 && b == FileRecord(f) + b[INIT_SIZE + |f.contents|..]
  {
    var f := FirstFile(b).value;
    Pow256Values();
    LEofFromLE(b[..4]);
    LEofFromLE(b[4..8]);
    assert b[..INIT_SIZE] == LE(f.name, 4) + LE(|f.contents|, 4);
    assert b == b[..INIT_SIZE] + f.contents + b[INIT_SIZE + |f.contents|..];
  }

  lemma {:induction false} SplitOfBlob(fs: seq<File>)
    requires Sized(fs)
    ensures Split(Blob(fs)) == Some(fs)
  {
    if fs != [] {
      FirstFileOfRecord(fs[0], Blob(fs[1..]));
      SplitOfBlob(fs[1..]);
      assert fs == [fs[0]] + fs[1..];
    }
  }

  lemma {:induction false} BlobOfSplit(b: seq<byte>)
    requires Split(b).Some?
    ensures Sized(Split(b).value) && b == Blob(Split(b).value)
    decreases |b|
  {
    if b != [] {
      var f := FirstFile(b).value;
      var rest := b[INIT_SIZE + |f.contents|..];
      RecordOfFirstFile(b);
      BlobOfSplit(rest);
      assert Split(b).value[1..] == Split(rest).value;
    }
  }

  /** Splitting undoes concatenation, and only archives of 32-bit-sized files split at all:
      the loop ends exactly at the end of the blob with fs just when the blob is fs's archive. */
  lemma SplitIffBlob(b: seq<byte>, fs: seq<File>)
    ensures Split(b) == Some(fs) <==> Sized(fs) && b == Blob(fs)
  {
    if Sized(fs) && b == Blob(fs) {
      SplitOfBlob(fs);
    } else if Split(b).Some? {
      BlobOfSplit(b);
    }
  }

  /** The server's directory after the files are written in order; a later file replaces an
      earlier one of the same name. */
  function OnDisk(fs: seq<File>): map<uint32, seq<byte>> {
    if fs == [] then map[] else
    var last := fs[|fs| - 1];
    OnDisk(fs[..|fs| - 1])[last.name := last.contents]
  }

  /** The client numbers its files from 0, so no file replaces another: the directory has exactly
      the client's names, each with its contents. */
  lemma {:induction false} DirectoryMatches(fs: seq<File>)
    requires forall i | 0 <= i < |fs| :: fs[i].name == i
    ensures forall name: uint32 :: name in OnDisk(fs) <==> name < |fs|
    ensures forall i | 0 <= i < |fs| :: fs[i].name in OnDisk(fs) && OnDisk(fs)[fs[i].name] == fs[i].contents
  {
    if fs != [] {
      DirectoryMatches(fs[..|fs| - 1]);
    }
  }

  /** Of several files of one name the last one written stays. */
  lemma {:induction false} LastFileStays(fs: seq<File>, i: nat)
    requires i < |fs| && forall j | i < j < |fs| :: fs[j].name != fs[i].name
    ensures fs[i].name in OnDisk(fs) && OnDisk(fs)[fs[i].name] == fs[i].contents
  {
    var n := |fs| - 1;
    if i < n {
      LastFileStays(fs[..n], i);
    }
  }

  function TotalBytes(fs: seq<File>): nat {
    if fs == [] then 0 else |fs[0].contents| + TotalBytes(fs[1..])
  }

  lemma {:induction false} BlobSize(fs: seq<File>)
    ensures |Blob(fs)| == |fs| * INIT_SIZE + TotalBytes(fs)
  {
    if fs != [] {
      BlobSize(fs[1..]);
    }
  }

  lemma {:induction false} BlobSnoc(fs: seq<File>, f: File)
    ensures Blob(fs + [f]) == Blob(fs) + FileRecord(f)
    ensures TotalBytes(fs + [f]) == TotalBytes(fs) + |f.contents|
  {
    if fs == [] {
      assert fs + [f] == [f];
      assert [f][1..] == [];
    } else {
      BlobSnoc(fs[1..], f);
      assert (fs + [f])[1..] == fs[1..] + [f];
    }
  }

  lemma {:induction false} BlobPlus(fs: seq<File>, gs: seq<File>)
    ensures Blob(fs + gs) == Blob(fs) + Blob(gs)
  {
    if fs == [] {
      assert fs + gs == gs;
    } else {
      BlobPlus(fs[1..], gs);
      assert (fs + gs)[1..] == fs[1..] + gs;
      Regroup(FileRecord(fs[0]), Blob(fs[1..]), Blob(gs));
    }
  }

  lemma RecordBytes(f: File)
    requires |f.contents| < 0x1_0000_0000
    ensures var r, size := FileRecord(f), |f.contents|;
      && |r| == 8 + size && r[8..] == f.contents
      && r[..8] == [f.name % 256, f.name / 256 % 256, f.name / 0x1_0000 % 256, f.name / 0x100_0000,
                    size % 256, size / 256 % 256, size / 0x1_0000 % 256, size / 0x100_0000]
  {
    LE4(f.name);
    LE4(|f.contents|);
  }

  lemma RecordInBlob(front: seq<File>, f: File, back: seq<File>)
    ensures Blob(front + [f] + back) == Blob(front) + FileRecord(f) + Blob(back)
    ensures |Blob(front)| == 8 * |front| + TotalBytes(front)
  {
    BlobSize(front);
    BlobPlus(front + [f], back);
    BlobSnoc(front, f);
  }

  lemma Middle(x: seq<byte>, r: seq<byte>, y: seq<byte>, from: nat, to: nat)
    requires from <= to <= |r|
    ensures |x| + to <= |x + r + y| && (x + r + y)[|x| + from..|x| + to] == r[from..to]
  {
  }

  /** Where a file lies in the archive, byte by byte: behind 8 bytes and the contents of each file
      before it come its name and its size, least significant byte first, and its contents. */
  lemma FileInBlob(front: seq<File>, f: File, back: seq<File>)
    requires |f.contents| < 0x1_0000_0000
    ensures var off, b, size := 8 * |front| + TotalBytes(front), Blob(front + [f] + back), |f.contents|;
      && off + 8 + size <= |b|
      && b[off..off + 8] == [f.name % 256, f.name / 256 % 256, f.name / 0x1_0000 % 256, f.name / 0x100_0000,
                             size % 256, size / 256 % 256, size / 0x1_0000 % 256, size / 0x100_0000]
      && b[off + 8..off + 8 + size] == f.contents
  {
    var x, r, y := Blob(front), FileRecord(f), Blob(back);
    RecordBytes(f);
    RecordInBlob(front, f, back);
    Middle(x, r, y, 0, 8);
    Middle(x, r, y, 8, |r|);
  }

  /** The client's packing loops: sum the sizes, then copy header and contents at a moving pointer. */
  method Pack(files: seq<File>) returns (data: array<byte>)
    ensures fresh(data) && data[..] == Blob(files)
  {
    var totalBytes := 0;
    for idx := 0 to |files|
      invariant totalBytes == TotalBytes(files[..idx])
    {
      assert files[..idx + 1] == files[..idx] + [files[idx]];
      BlobSnoc(files[..idx], files[idx]);
      totalBytes := totalBytes + |files[idx].contents|;
    }
    assert files[..|files|] == files;
    BlobSize(files);
    data := new byte[|files| * INIT_SIZE + totalBytes];
    var ptr := 0;
    assert files[0..] == files;
    for idx := 0 to |files|
      invariant ptr == |Blob(files[..idx])|
      invariant ptr + |Blob(files[idx..])| == data.Length
      invariant data[..ptr] == Blob(files[..idx])
    {
      var file := files[idx];
      assert files[..idx + 1] == files[..idx] + [file];
      BlobSnoc(files[..idx], file);
      assert files[idx..][1..] == files[idx + 1..];
      ptr := CopyFile(data, ptr, file);
    }
    assert data[..] == data[..ptr];
  }

  /** The body of the packing loop: header, then contents. */
  method CopyFile(data: array<byte>, start: nat, file: File) returns (ptr: nat)
    requires start + |FileRecord(file)| <= data.Length
    modifies data
    ensures ptr == start + |FileRecord(file)|
    ensures data[..ptr] == old(data[..start]) + FileRecord(file)
  {
    ptr := start;
    CopyInto(data, ptr, LE(file.name, 4) + LE(|file.contents|, 4));
    ptr := ptr + INIT_SIZE;
    CopyInto(data, ptr, file.contents);
    ptr := ptr + |file.contents|;
  }

  lemma PrependNothing(r: Option<seq<File>>)
    ensures Prepend([], r) == r
  {
    if r.Some? {
      EmptyPlus(r.value);
    }
  }

  lemma PrependTwice(fs: seq<File>, gs: seq<File>, r: Option<seq<File>>)
    ensures Prepend(fs, Prepend(gs, r)) == Prepend(fs + gs, r)
  {
    if r.Some? {
      assert fs + (gs + r.value) == (fs + gs) + r.value;
    }
  }

  lemma SliceTwice(b: seq<byte>, ptr: nat, from: nat, to: nat)
    requires from <= to && ptr + to <= |b|
    ensures b[ptr..][from..to] == b[ptr + from..ptr + to]
    ensures b[ptr..][from..] == b[ptr + from..]
  {
  }

  /** One turn of the splitting loop: a file is taken off the front, or reading it would leave the
      buffer. */
  lemma SplitTurn(b: seq<byte>, ptr: nat, written: seq<File>)
    requires ptr < |b| && Split(b) == Prepend(written, Split(b[ptr..]))
    ensures match FirstFile(b[ptr..])
      case None => Split(b).None?
      case Some(f) => Split(b) == Prepend(written + [f], Split(b[ptr + INIT_SIZE + |f.contents|..]))
  {
    var rest := b[ptr..];
    if FirstFile(rest).Some? {
      var f := FirstFile(rest).value;
      var n := INIT_SIZE + |f.contents|;
      SliceTwice(b, ptr, n, n);
      PrependTwice(written, [f], Split(rest[n..]));
    }
  }

  /** Reads the header at ptr and the contents behind it; None is where the original would read past
      its buffer. */
  method NextFile(data: array<byte>, ptr: nat) returns (file: Option<File>)
    requires ptr <= data.Length
    ensures file == FirstFile(data[ptr..])
  {
    ghost var b := data[..];
    if data.Length - ptr < INIT_SIZE {
      return None;
    }
    var name, filesize := FromLE(data[ptr..ptr + 4]), FromLE(data[ptr + 4..ptr + 8]);
    SliceTwice(b, ptr, 0, 4);
    SliceTwice(b, ptr, 4, 8);
    var start := ptr + INIT_SIZE;
    if data.Length - start < filesize {
      return None;
    }
    Pow256Values();
    SliceTwice(b, ptr, INIT_SIZE, INIT_SIZE + filesize);
    file := Some(File(name, data[start..start + filesize]));
  }

  /** The splitting loop of the server and of the stand-alone extractor. inBounds is false where
      the original would read past its buffer; otherwise written lists the files in order. */
  method Extract(data: array<byte>) returns (inBounds: bool, written: seq<File>)
    ensures inBounds <==> Split(data[..]).Some?
    ensures inBounds ==> Split(data[..]) == Some(written)
  {
    var ptr := 0;
    inBounds, written := true, [];
    ghost var b := data[..];
    assert b[ptr..] == b;
    PrependNothing(Split(b));
    while ptr < data.Length
      invariant 0 <= ptr <= data.Length
      invariant Split(b) == Prepend(written, Split(b[ptr..]))
      decreases data.Length - ptr
    {
      SplitTurn(b, ptr, written);
      assert data[ptr..] == b[ptr..];
      var file := NextFile(data, ptr);
      if file == None {
        return false, [];
      }
      ptr := ptr + INIT_SIZE + |file.value.contents|;
      written := written + [file.value];
    }
    assert b[ptr..] == [];
    PlusEmpty(written);
  }
}
