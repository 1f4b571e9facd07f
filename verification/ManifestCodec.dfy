/** internal/manifest: the binary format of a manifest. */
module ManifestCodec {
  import opened Bytes
  import opened Manifest

  const MAGIC: nat := 0x4D4E4653
  const HEADER: nat := 28

  type uint32 = x: nat | x < TWO_32
  /** crc32x.ChecksumCastagnoli. */
  type Crc = Bytes -> uint32

  // ---------- Writing ----------

  /** A 16-bit length and the bytes. */
  function BlobBytes(d: Bytes): Bytes {
    LE(|d|, 2) + d
  }

  function NumberBytes(f: FileMeta): Bytes {
    LE(f.level, 4) + (LE(f.maxSeq, 8) + (LE(f.entries, 8) + LE(f.fileSize, 8)))
  }

  function FileBytes(f: FileMeta): Bytes {
    BlobBytes(f.name) + (NumberBytes(f) + (BlobBytes(f.minKey) + BlobBytes(f.maxKey)))
  }

  function FilesBytes(files: seq<FileMeta>): Bytes {
    if files == [] then [] else FileBytes(files[0]) + FilesBytes(files[1..])
  }

  function HeaderBytes(st: State): (b: Bytes)
    ensures |b| == HEADER
  {
    LE(MAGIC, 4) + (LE(st.version, 4) + (LE(st.nextFile, 8) + (LE(st.logSeq, 8) + LE(|st.files|, 4))))
  }

  function Encode(crc: Crc, st: State): Bytes {
    var body := HeaderBytes(st) + FilesBytes(st.files);
    body + LE(crc(body), 4)
  }

  // ---------- Reading: each function returns what it has not read ----------

  /** A number of w bytes. */
  function Fixed(b: Bytes, w: nat): Option<(nat, Bytes)> {
    if w > |b| then None else Some((FromLE(b[..w]), b[w..]))
  }

  function Blob(b: Bytes): Option<(Bytes, Bytes)> {
    var n := Fixed(b, 2);
    if n.None? || n.value.0 > |n.value.1| then None
    else Some((n.value.1[..n.value.0], n.value.1[n.value.0..]))
  }

  datatype Numbers = Numbers(level: nat, maxSeq: nat, entries: nat, fileSize: nat)

  function ReadNumbers(b: Bytes): Option<(Numbers, Bytes)> {
    if |b| < 28 then None
    else Some((Numbers(FromLE(b[..4]), FromLE(b[4..12]), FromLE(b[12..20]), FromLE(b[20..28])), b[28..]))
  }

  function ReadFile(b: Bytes): Option<(FileMeta, Bytes)> {
    var name := Blob(b);
    if name.None? then None
    else
      var n := ReadNumbers(name.value.1);
      if n.None? then None
      else
        var lo := Blob(n.value.1);
        if lo.None? then None
        else
          var hi := Blob(lo.value.1);
          if hi.None? then None
          else
            var x := n.value.0;
            Some((FileMeta(name.value.0, x.level, lo.value.0, hi.value.0, x.maxSeq, x.entries, x.fileSize), hi.value.1))
  }

  function ReadFiles(b: Bytes, n: nat): Option<(seq<FileMeta>, Bytes)>
    decreases n
  {
    if n == 0 then Some(([], b))
    else
      var f := ReadFile(b);
      if f.None? then None
      else
        var rest := ReadFiles(f.value.1, n - 1);
        if rest.None? then None else Some(([f.value.0] + rest.value.0, rest.value.1))
  }

  /** The checksum stands behind the last file; what follows it is not looked at. */
  predicate Checked(crc: Crc, data: Bytes, rest: Bytes) {
    4 <= |rest| <= |data| && crc(data[..|data| - |rest|]) == FromLE(rest[..4])
  }

  function Decode(crc: Crc, data: Bytes): Option<State> {
    if |data| < HEADER || FromLE(data[..4]) != MAGIC then None
    else
      var files := ReadFiles(data[HEADER..], FromLE(data[24..28]));
      if files.None? || !Checked(crc, data, files.value.1) then None
      else Some(State(FromLE(data[4..8]), FromLE(data[8..16]), FromLE(data[16..24]), files.value.0))
  }

  // ---------- Round trip ----------

  /** The widths of the fields. */
  ghost predicate FileFits(f: FileMeta) {
    && |f.name| < TWO_16 && |f.minKey| < TWO_16 && |f.maxKey| < TWO_16
    && f.level < TWO_32 && f.maxSeq < TWO_64 && f.entries < TWO_64 && f.fileSize < TWO_64
  }

  ghost predicate StateFits(st: State) {
    && st.version < TWO_32 && st.nextFile < TWO_64 && st.logSeq < TWO_64 && |st.files| < TWO_32
    && forall f | f in st.files :: FileFits(f)
  }

  lemma {:induction false} BlobOf(d: Bytes, rest: Bytes)
    requires |d| < TWO_16
    ensures Blob(BlobBytes(d) + rest) == Some((d, rest))
  {
    hide LE, FromLE;
    Widths();
    LERoundTrip(|d|, 2);
    var b := BlobBytes(d) + rest;
    assert b[..2] == LE(|d|, 2) && b[2..] == d + rest;
  }

  lemma {:induction false} NumbersOf(f: FileMeta, rest: Bytes)
    requires FileFits(f)
    ensures ReadNumbers(NumberBytes(f) + rest) == Some((Numbers(f.level, f.maxSeq, f.entries, f.fileSize), rest))
  {
    hide LE, FromLE;
    Widths();
    LERoundTrip(f.level, 4);
    LERoundTrip(f.maxSeq, 8);
    LERoundTrip(f.entries, 8);
    LERoundTrip(f.fileSize, 8);
    var b := NumberBytes(f) + rest;
    assert b[..4] == LE(f.level, 4) && b[4..12] == LE(f.maxSeq, 8) && b[12..20] == LE(f.entries, 8);
    assert b[20..28] == LE(f.fileSize, 8) && b[28..] == rest;
  }

  lemma {:induction false} FileOf(f: FileMeta, rest: Bytes)
    requires FileFits(f)
    ensures ReadFile(FileBytes(f) + rest) == Some((f, rest))
  {
    hide Blob, BlobBytes, NumberBytes, ReadNumbers;
    var hi := BlobBytes(f.maxKey) + rest;
    var lo := BlobBytes(f.minKey) + hi;
    var n := NumberBytes(f) + lo;
    assert FileBytes(f) + rest == BlobBytes(f.name) + n;
    BlobOf(f.name, n);
    NumbersOf(f, lo);
    BlobOf(f.minKey, hi);
    BlobOf(f.maxKey, rest);
  }

  lemma {:induction false} FilesOf(files: seq<FileMeta>, rest: Bytes)
    requires forall f | f in files :: FileFits(f)
    ensures ReadFiles(FilesBytes(files) + rest, |files|) == Some((files, rest))
    decreases |files|
  {
    hide ReadFile, FileBytes;
    if files == [] {
      assert FilesBytes(files) + rest == rest;
    } else {
      assert FilesBytes(files) + rest == FileBytes(files[0]) + (FilesBytes(files[1..]) + rest);
      FileOf(files[0], FilesBytes(files[1..]) + rest);
      FilesOf(files[1..], rest);
      assert files == [files[0]] + files[1..] && |files[1..]| == |files| - 1;
    }
  }

  lemma {:induction false} HeaderFields(st: State)
    requires StateFits(st)
    ensures var h := HeaderBytes(st);
      && FromLE(h[..4]) == MAGIC && FromLE(h[4..8]) == st.version && FromLE(h[8..16]) == st.nextFile
      && FromLE(h[16..24]) == st.logSeq && FromLE(h[24..28]) == |st.files|
  {
    hide LE, FromLE;
    Widths();
    LERoundTrip(MAGIC, 4);
    LERoundTrip(st.version, 4);
    LERoundTrip(st.nextFile, 8);
    LERoundTrip(st.logSeq, 8);
    LERoundTrip(|st.files|, 4);
    var h := HeaderBytes(st);
    assert h[..4] == LE(MAGIC, 4) && h[4..8] == LE(st.version, 4) && h[8..16] == LE(st.nextFile, 8);
    assert h[16..24] == LE(st.logSeq, 8) && h[24..28] == LE(|st.files|, 4);
  }

  lemma {:induction false} DataParts(h: Bytes, files: Bytes, sum: Bytes)
    requires |h| == HEADER && |sum| == 4
    ensures var data := h + files + sum;
      && data[..4] == h[..4] && data[4..8] == h[4..8] && data[8..16] == h[8..16] && data[16..24] == h[16..24]
      && data[24..28] == h[24..28] && data[HEADER..] == files + sum && data[..|data| - 4] == h + files
  {
  }

  /** Decoding an encoded manifest of any number of files gives it back. */
  lemma {:induction false} RoundTrip(crc: Crc, st: State)
    requires StateFits(st)
    ensures Decode(crc, Encode(crc, st)) == Some(st)
  {
    hide HeaderBytes, FilesBytes, ReadFiles, LE, FromLE;
    var h, files := HeaderBytes(st), FilesBytes(st.files);
    var sum := LE(crc(h + files), 4);
    HeaderFields(st);
    FilesOf(st.files, sum);
    DataParts(h, files, sum);
    Widths();
    LERoundTrip(crc(h + files), 4);
    assert sum[..4] == sum;
  }

  // ---------- The loops ----------

  method EncodeBinary(crc: Crc, st: State) returns (b: Bytes)
    ensures b == Encode(crc, st)
  {
    hide LE, FileBytes;
    b := HeaderBytes(st);
    ghost var head := b;
    for i := 0 to |st.files|
      invariant b + FilesBytes(st.files[i..]) == head + FilesBytes(st.files)
    {
      b := EncodeFile(b, st.files[i]);
      assert st.files[i..][1..] == st.files[i + 1..];
    }
    assert st.files[|st.files|..] == [] && b == head + FilesBytes(st.files);
    b := b + LE(crc(b), 4);
  }

  method EncodeFile(dst: Bytes, f: FileMeta) returns (b: Bytes)
    ensures b == dst + FileBytes(f)
  {
    hide LE, NumberBytes;
    b := dst + LE(|f.name|, 2);
    b := b + f.name;
    b := b + NumberBytes(f);
    b := b + LE(|f.minKey|, 2);
    b := b + f.minKey;
    b := b + LE(|f.maxKey|, 2);
    b := b + f.maxKey;
  }

  method DecodeBinary(crc: Crc, data: Bytes) returns (r: Option<State>)
    ensures r == Decode(crc, data)
  {
    hide ReadFile, FromLE, Checked;
    if |data| < HEADER || FromLE(data[..4]) != MAGIC {
      return None;
    }
    var n := FromLE(data[24..28]);
    var rest, files: seq<FileMeta>, i := data[HEADER..], [], 0;
    JoinedEnds([], ReadFiles(rest, n));
    while i < n
      invariant i <= n
      invariant ReadFiles(data[HEADER..], n) == Joined(files, ReadFiles(rest, n - i))
    {
      var f := ReadFile(rest);
      if f.None? {
        return None;
      }
      JoinedStep(files, f.value.0, ReadFiles(f.value.1, n - i - 1));
      files := files + [f.value.0];
      rest := f.value.1;
      i := i + 1;
    }
    JoinedEnds(files, ReadFiles(rest, 0));
    if !Checked(crc, data, rest) {
      return None;
    }
    return Some(State(FromLE(data[4..8]), FromLE(data[8..16]), FromLE(data[16..24]), files));
  }

  /** Files read so far and those still to be read. */
  function Joined(out: seq<FileMeta>, rest: Option<(seq<FileMeta>, Bytes)>): Option<(seq<FileMeta>, Bytes)> {
    if rest.None? then None else Some((out + rest.value.0, rest.value.1))
  }

  lemma {:induction false} JoinedStep(out: seq<FileMeta>, f: FileMeta, rest: Option<(seq<FileMeta>, Bytes)>)
    ensures Joined(out + [f], rest)
      == Joined(out, if rest.None? then None else Some(([f] + rest.value.0, rest.value.1)))
  {
    if rest.Some? {
      assert out + [f] + rest.value.0 == out + ([f] + rest.value.0);
    }
  }

  lemma {:induction false} JoinedEnds(out: seq<FileMeta>, rest: Option<(seq<FileMeta>, Bytes)>)
    ensures Joined([], rest) == rest
    ensures rest.Some? && rest.value.0 == [] ==> Joined(out, rest) == Some((out, rest.value.1))
  {
    if rest.Some? {
      assert [] + rest.value.0 == rest.value.0;
      assert out + [] == out;
    }
  }
}
