/**
 * The `XP3Archive` reader object: `load` (the plain loader of
 * xp3_viewer_converter.py and the checked loader of xp3_viewer_enhanced.py),
 * `_read_index`, `_parse_file_entry`'s insertion, `extract_file` and
 * `list_files`.
 *
 * The archive file is a parameter (`Disk`): the object keeps only its
 * path, and every call opens the file again. `zlib.decompress` is the
 * object's `inflate` function, None standing for `zlib.error`.
 */
module Archive {
  import opened Wrappers
  import opened Bytes
  import opened Catalog
  import opened EntryFormat
  import opened IndexFormat

  /** The 11-byte XP3 signature `XP3\r\n \n\x1a\x8b\x67\x01`. */
  const Magic: Bytes := [0x58, 0x50, 0x33, 0x0D, 0x0A, 0x20, 0x0A, 0x1A, 0x8B, 0x67, 0x01]

  /** The first two bytes of a zlib stream at the default level. */
  const ZlibHeader: Bytes := [0x78, 0x9C]

  /** The smallest file the checked loader accepts. */
  const MinArchiveSize: nat := 32

  /**
   * A Python file's `read` takes a C `ssize_t` and raises OverflowError
   * for a size of 2^63 or more; `seek` converts its target to `off_t` and
   * raises ValueError for an offset of 2^63 or more. Either way the call
   * raises.
   */
  const SizeLimit: nat := 0x8000_0000_0000_0000

  /** The file behind the archive's path at the moment of a call. */
  datatype Disk = Missing | Present(content: Bytes)

  /** `zlib.decompress`; None stands for `zlib.error`. */
  type Inflate = Bytes -> Option<Bytes>

  /** What `extract_file` gives: None, an exception it lets through, or the bytes. */
  datatype Extraction = NotFound | Raised | Data(bytes: Bytes)

  // ---------------------------------------------------------------------
  // Loading, as functions of the file and the catalog before the call.

  /**
   * `_read_index` from file position `p` up to its entry walk: the index
   * bytes, inflated when they start with a zlib header. None stands for
   * the exception raised on the way (a short size field, a size `read`
   * refuses, a zlib error).
   */
  function IndexData(s: Bytes, p: nat, inflate: Inflate): (r: Option<Bytes>) {
    var blob :- IndexBlob(s, p);
    Unpacked(blob, inflate)
  }

  /**
   * The index as stored in the file at `p`: the flag byte is skipped, then
   * as many bytes as the u64 size field says are read (short at end of file).
   */
  function IndexBlob(s: Bytes, p: nat): (r: Option<Bytes>)
    ensures r.Some? <==> p + 9 <= |s| && FromLE(s[p + 1..p + 9]) < SizeLimit
    ensures r.Some? ==> |r.value| < SizeLimit && p + 9 + |r.value| <= |s|
    ensures r.Some? ==> r.value == s[p + 9..p + 9 + |r.value|]
    ensures r.Some? ==> |r.value| == FromLE(s[p + 1..p + 9]) || p + 9 + |r.value| == |s|
  {
    var q := p + |ReadAt(s, p, 1)|;
    var size :- Unpack(ReadAt(s, q, 8), 8);
    if size >= SizeLimit then None
    else Some(ReadAt(s, q + 8, size))
  }

  /** The index as stored, inflated when it starts with a zlib header. */
  function Unpacked(blob: Bytes, inflate: Inflate): (r: Option<Bytes>)
    ensures r.None? ==> |blob| >= 2 && blob[..2] == ZlibHeader
    ensures r.Some? && r.value != blob ==> |blob| >= 2 && blob[..2] == ZlibHeader
  {
    if Slice(blob, 0, 2) == ZlibHeader then inflate(blob) else Some(blob)
  }

  /**
   * `_read_index` at `p`: whether it returns normally, and the catalog after
   * it. Even when it raises it removes no name and reorders none.
   */
  function ReadIndexAt(s: Bytes, p: nat, inflate: Inflate, f: Files): (r: Walk)
    requires f.Valid()
    ensures r.files.Valid() && Grows(f, r.files)
  {
    match IndexData(s, p, inflate)
    case None => Walk(false, f)
    case Some(data) => WalkGrows(data, 0, f); WalkFrom(data, 0, f)
  }

  /**
   * The signature check and the trailer read both loaders make: the index
   * offset, None standing for the exception raised on the way.
   */
  function IndexOffset(s: Bytes): (r: Option<nat>)
    ensures r.Some? <==> ReadAt(s, 0, 11) == Magic
    ensures r.Some? ==> |s| >= 11 && r.value < U64Limit && ToLE(r.value, 8) == s[|s| - 8..]
  {
    if ReadAt(s, 0, 11) != Magic then None
    else
      var trailer := ReadAt(s, |s| - 8, 8);
      assert trailer == s[|s| - 8..];
      ToFromLE(trailer);
      FieldLimits();
      Unpack(trailer, 8)
  }

  /**
   * `load` of xp3_viewer_converter.py: `completed` is its return value. It
   * succeeds only on a file that starts with the signature, and whether it
   * succeeds or not it removes no name and reorders none.
   */
  function BasicLoad(disk: Disk, inflate: Inflate, f: Files): (r: Walk)
    requires f.Valid()
    ensures r.files.Valid() && Grows(f, r.files)
    ensures r.completed ==> disk.Present? && ReadAt(disk.content, 0, 11) == Magic
  {
    match disk
    case Missing => Walk(false, f)
    case Present(s) =>
      match IndexOffset(s)
      case None => Walk(false, f)
      case Some(offset) =>
        if offset >= SizeLimit then Walk(false, f)
        else ReadIndexAt(s, offset, inflate, f)
  }

  /**
   * `load` of xp3_viewer_enhanced.py: the same reads behind a size check
   * and a range check on the index offset. It succeeds only on a file of
   * at least 32 bytes that starts with the signature and whose trailer
   * points between the signature and the end of the file.
   */
  function CheckedLoad(disk: Disk, inflate: Inflate, f: Files): (r: Walk)
    requires f.Valid()
    ensures r.files.Valid() && Grows(f, r.files)
    ensures r.completed ==>
      && disk.Present? && |disk.content| >= MinArchiveSize && ReadAt(disk.content, 0, 11) == Magic
      && IndexOffset(disk.content).Some? && 11 <= IndexOffset(disk.content).value < |disk.content|
  {
    match disk
    case Missing => Walk(false, f)
    case Present(s) =>
      if |s| < MinArchiveSize then Walk(false, f)
      else
        match IndexOffset(s)
        case None => Walk(false, f)
        case Some(offset) =>
          if offset >= |s| || offset < 11 then Walk(false, f)
          else if offset >= SizeLimit then Walk(false, f)
          else ReadIndexAt(s, offset, inflate, f)
  }

  // ---------------------------------------------------------------------
  // Extraction, as a function of the object's state and the file.

  /** A segment `seek` and `read` accept. */
  predicate Seekable(g: Segment) {
    g.offset < SizeLimit && g.length < SizeLimit
  }

  predicate AllSeekable(segs: seq<Segment>) {
    forall i :: 0 <= i < |segs| ==> Seekable(segs[i])
  }

  /** `data += f.read(size)` after `f.seek(offset)`, segment by segment. */
  function Gathered(s: Bytes, segs: seq<Segment>): (r: Bytes)
    ensures |r| <= TotalLength(segs)
    decreases |segs|
  {
    if segs == [] then []
    else
      var g := segs[|segs| - 1];
      TotalLengthSnoc(segs[..|segs| - 1], g);
      assert segs[..|segs| - 1] + [g] == segs;
      Gathered(s, segs[..|segs| - 1]) + ReadAt(s, g.offset, g.length)
  }

  /** The segments' bytes, first segment first: the reference for `Gathered`. */
  function Pieces(s: Bytes, segs: seq<Segment>): (r: Bytes)
    decreases |segs|
  {
    if segs == [] then [] else ReadAt(s, segs[0].offset, segs[0].length) + Pieces(s, segs[1..])
  }

  /** The sum of the segments' lengths. */
  function TotalLength(segs: seq<Segment>): (r: nat)
    decreases |segs|
  {
    if segs == [] then 0 else segs[0].length + TotalLength(segs[1..])
  }

  lemma {:induction false} TotalLengthSnoc(segs: seq<Segment>, g: Segment)
    ensures TotalLength(segs + [g]) == TotalLength(segs) + g.length
    decreases |segs|
  {
    if segs == [] {
      assert [g][1..] == [];
    } else {
      assert (segs + [g])[1..] == segs[1..] + [g];
      TotalLengthSnoc(segs[1..], g);
    }
  }

  /** Every segment lies inside the file. */
  predicate WithinFile(s: Bytes, segs: seq<Segment>) {
    forall i :: 0 <= i < |segs| ==> segs[i].offset + segs[i].length <= |s|
  }

  /**
   * `extract_file(name)` on a reader whose state is `loaded` and `files`:
   * None for an unknown name, an exception for a missing file or a segment
   * `seek`/`read` refuse, else the segments' bytes in order, inflated when
   * the member is marked compressed and they inflate.
   */
  function Extracted(loaded: bool, files: Files, name: Name, disk: Disk, inflate: Inflate): (r: Extraction)
    ensures r == NotFound <==> !loaded || name !in files.entries
    ensures r == Raised <==>
      loaded && name in files.entries && (disk.Missing? || !AllSeekable(files.entries[name].segments))
    ensures r.Data? ==>
      var raw := Pieces(disk.content, files.entries[name].segments);
      if files.entries[name].IsCompressed() && inflate(raw).Some? then r.bytes == inflate(raw).value
      else r.bytes == raw
  {
    if !loaded || name !in files.entries then NotFound
    else if disk.Missing? then Raised
    else
      var e := files.entries[name];
      if !AllSeekable(e.segments) then Raised
      else
        var raw := Gathered(disk.content, e.segments);
        GatheredPieces(disk.content, e.segments);
        if e.IsCompressed() && inflate(raw).Some? then Data(inflate(raw).value) else Data(raw)
  }

  /** Reading the segments one after another gives their bytes concatenated in order. */
  lemma {:induction false} GatheredPieces(s: Bytes, segs: seq<Segment>)
    ensures Gathered(s, segs) == Pieces(s, segs)
    decreases |segs|
  {
    if segs != [] {
      var n := |segs| - 1;
      GatheredPieces(s, segs[..n]);
      PiecesSnoc(s, segs[..n], segs[n]);
      assert segs[..n] + [segs[n]] == segs;
    }
  }

  lemma {:induction false} PiecesSnoc(s: Bytes, segs: seq<Segment>, g: Segment)
    ensures Pieces(s, segs + [g]) == Pieces(s, segs) + ReadAt(s, g.offset, g.length)
    decreases |segs|
  {
    if segs == [] {
      assert [g][1..] == [];
    } else {
      assert (segs + [g])[1..] == segs[1..] + [g];
      PiecesSnoc(s, segs[1..], g);
    }
  }

  /** Segments inside the file give exactly as many bytes as they describe. */
  lemma {:induction false} PiecesLength(s: Bytes, segs: seq<Segment>)
    requires WithinFile(s, segs)
    ensures |Pieces(s, segs)| == TotalLength(segs)
    decreases |segs|
  {
    if segs != [] {
      assert WithinFile(s, segs[1..]) by {
        forall i | 0 <= i < |segs[1..]|
          ensures segs[1..][i].offset + segs[1..][i].length <= |s|
        {
          assert segs[1..][i] == segs[i + 1];
        }
      }
      PiecesLength(s, segs[1..]);
    }
  }

  // ---------------------------------------------------------------------
  // What loading does, over all files.

  /** The checked loader only adds rejections: when it reads an index it reads the same one. */
  lemma CheckedOnlyRejects(disk: Disk, inflate: Inflate, f: Files)
    requires f.Valid()
    ensures CheckedLoad(disk, inflate, f) == BasicLoad(disk, inflate, f) || CheckedLoad(disk, inflate, f) == Walk(false, f)
    ensures CheckedLoad(disk, inflate, f).completed ==> BasicLoad(disk, inflate, f).completed
  {
  }

  /** A stored index without the zlib header is walked as it is read. */
  lemma RawIndexWalked(s: Bytes, p: nat, inflate: Inflate, f: Files)
    requires f.Valid() && IndexBlob(s, p).Some? && Slice(IndexBlob(s, p).value, 0, 2) != ZlibHeader
    ensures ReadIndexAt(s, p, inflate, f) == WalkFrom(IndexBlob(s, p).value, 0, f)
  {
  }

  /**
   * A stored index that starts with the zlib header but does not inflate
   * makes either loader fail, and the catalog is left as it was.
   */
  lemma CorruptIndexFails(s: Bytes, p: nat, inflate: Inflate, f: Files)
    requires f.Valid() && IndexOffset(s) == Some(p) && IndexBlob(s, p).Some?
    requires Slice(IndexBlob(s, p).value, 0, 2) == ZlibHeader && inflate(IndexBlob(s, p).value) == None
    ensures ReadIndexAt(s, p, inflate, f) == Walk(false, f)
    ensures BasicLoad(Present(s), inflate, f) == Walk(false, f)
    ensures CheckedLoad(Present(s), inflate, f) == Walk(false, f)
  {
  }

  // ---------------------------------------------------------------------
  // Archives as a writer lays them out.

  /**
   * An archive holding `payload` as member data right after the signature,
   * then the index block (a flag byte, the u64 size, the stored index) and
   * the u64 offset of that block.
   */
  function Image(payload: Bytes, stored: Bytes): (s: Bytes)
    ensures |s| == 28 + |payload| + |stored|
  {
    Magic + payload + [0] + ToLE(|stored|, 8) + stored + ToLE(11 + |payload|, 8)
  }

  lemma {:induction false} ImageParts(payload: Bytes, stored: Bytes)
    ensures var s, o := Image(payload, stored), 11 + |payload|;
      && ReadAt(s, 0, 11) == Magic
      && ReadAt(s, 11, |payload|) == payload
      && ReadAt(s, |s| - 8, 8) == ToLE(o, 8)
      && ReadAt(s, o, 1) == [0]
      && ReadAt(s, o + 1, 8) == ToLE(|stored|, 8)
      && ReadAt(s, o + 9, |stored|) == stored
  {
    var s, o := Image(payload, stored), 11 + |payload|;
    assert s[0..11] == Magic;
    assert s[11..o] == payload;
    assert s[|s| - 8..|s|] == ToLE(o, 8);
    assert s[o..o + 1] == [0];
    assert s[o + 1..o + 9] == ToLE(|stored|, 8);
    assert s[o + 9..o + 9 + |stored|] == stored;
  }

  /** The index block of an image holds the stored index. */
  lemma {:induction false} ImageIndexData(payload: Bytes, stored: Bytes, inflate: Inflate)
    requires 11 + |payload| < SizeLimit && |stored| < SizeLimit
    ensures IndexData(Image(payload, stored), 11 + |payload|, inflate) == Unpacked(stored, inflate)
  {
    ImageParts(payload, stored);
    FieldLimits();
    UnpackToLE(|stored|, 8);
  }

  /** Both loaders find the index block of an image right after its payload. */
  lemma {:induction false} ImageOffset(payload: Bytes, stored: Bytes)
    requires 11 + |payload| < SizeLimit
    ensures IndexOffset(Image(payload, stored)) == Some(11 + |payload|)
  {
    ImageParts(payload, stored);
    OffsetOf(Image(payload, stored), 11 + |payload|);
  }

  /** A file that starts with the signature and ends with the encoded offset `o`. */
  lemma {:induction false} OffsetOf(s: Bytes, o: nat)
    requires ReadAt(s, 0, 11) == Magic && 8 <= |s| && ReadAt(s, |s| - 8, 8) == ToLE(o, 8) && o < U64Limit
    ensures IndexOffset(s) == Some(o)
  {
    FieldLimits();
    UnpackToLE(o, 8);
  }

  /** Both loaders read the stored index of an image; the checked one once it has 32 bytes. */
  lemma {:induction false} ImageIndex(payload: Bytes, stored: Bytes, inflate: Inflate, f: Files)
    requires f.Valid() && 11 + |payload| < SizeLimit
    ensures var s := Image(payload, stored);
      && BasicLoad(Present(s), inflate, f) == ReadIndexAt(s, 11 + |payload|, inflate, f)
      && (|payload| + |stored| >= 4 ==> CheckedLoad(Present(s), inflate, f) == BasicLoad(Present(s), inflate, f))
  {
    ImageOffset(payload, stored);
  }

  /**
   * An image whose stored index reads as the encoding of `rs` (raw, or
   * inflating to it) loads completely, and the catalog is what the
   * records describe, in order.
   */
  lemma {:induction false} ImageLoads(payload: Bytes, stored: Bytes, rs: seq<IndexRecord>, inflate: Inflate, f: Files)
    requires f.Valid() && forall i :: 0 <= i < |rs| ==> Writable(rs[i])
    requires 11 + |payload| < SizeLimit && |stored| < SizeLimit
    requires Unpacked(stored, inflate) == Some(EncodeIndex(rs))
    ensures BasicLoad(Present(Image(payload, stored)), inflate, f) == Walk(true, RecordAll(f, rs))
    ensures |payload| + |stored| >= 4 ==>
      CheckedLoad(Present(Image(payload, stored)), inflate, f) == Walk(true, RecordAll(f, rs))
  {
    ImageIndex(payload, stored, inflate, f);
    ImageIndexData(payload, stored, inflate);
    IndexRoundTrip(rs, [], f);
    assert EncodeIndex(rs) + [] == EncodeIndex(rs);
  }

  /**
   * An image whose index holds the records `rs` and then a record that
   * raises fails to load with either loader, and the catalog keeps the
   * members of `rs`.
   */
  lemma {:induction false} ImageKeepsPartial(payload: Bytes, stored: Bytes, rs: seq<IndexRecord>, n: nat, bad: Bytes, rest: Bytes,
                                             inflate: Inflate, f: Files)
    requires f.Valid() && forall i :: 0 <= i < |rs| ==> Writable(rs[i])
    requires 11 + |payload| < SizeLimit && |stored| < SizeLimit
    requires 0 < n < U32Limit && |bad| == n && ParseEntry(bad) == None
    requires Unpacked(stored, inflate) == Some(EncodeIndex(rs) + (ToLE(n, 4) + (bad + rest)))
    ensures BasicLoad(Present(Image(payload, stored)), inflate, f) == Walk(false, RecordAll(f, rs))
    ensures |payload| + |stored| >= 4 ==>
      CheckedLoad(Present(Image(payload, stored)), inflate, f) == Walk(false, RecordAll(f, rs))
  {
    ImageIndex(payload, stored, inflate, f);
    ImageIndexData(payload, stored, inflate);
    PartialEntriesSurvive(rs, n, bad, rest, f);
  }

  /**
   * The smallest archive, an empty index and no data (28 bytes), loads
   * with the plain loader and is refused by the checked one.
   */
  lemma MinimalArchive(inflate: Inflate, f: Files)
    requires f.Valid()
    ensures |Image([], [])| == 28
    ensures BasicLoad(Present(Image([], [])), inflate, f) == Walk(true, f)
    ensures CheckedLoad(Present(Image([], [])), inflate, f) == Walk(false, f)
  {
    assert EncodeIndex([]) == [];
    ImageLoads([], [], [], inflate, f);
  }

  /** The entry a record with one `file` record and at most one `info` record describes. */
  lemma {:induction false} SingleSegment(name: Name, o: nat, l: nat, info: seq<SubRecord>)
    requires |info| <= 1 && forall i :: 0 <= i < |info| ==> info[i].InfoRecord?
    ensures Described(IndexRecord(name, [FileRecord(o, l)] + info)) == Entry([Segment(o, l)],
      if info == [] then None else Some(Info(CompressedFlag(info[0].flags), info[0].originalSize)))
  {
    var subs := [FileRecord(o, l)] + info;
    assert subs[0] == FileRecord(o, l) && subs[1..] == info;
    if info == [] {
      assert Segments(subs) == [Segment(o, l)] + Segments([]);
      assert LastInfo(subs) == None;
    } else {
      assert info[1..] == [];
      assert Segments(info) == [];
      assert Segments(subs) == [Segment(o, l)] + Segments(info);
      assert LastInfo(info) == Some(Info(CompressedFlag(info[0].flags), info[0].originalSize));
      assert LastInfo(subs) == LastInfo(info);
    }
  }

  /** The image's payload is what its one segment reads. */
  lemma {:induction false} PayloadSegment(payload: Bytes, stored: Bytes)
    ensures Gathered(Image(payload, stored), [Segment(11, |payload|)]) == payload
  {
    ImageParts(payload, stored);
    assert [Segment(11, |payload|)][..0] == [];
  }

  /**
   * A member whose one `file` record covers the image's payload, listed
   * last in the index, extracts as that payload, inflated when an `info`
   * record marks it compressed and it inflates.
   */
  lemma {:induction false} ImageExtracts(payload: Bytes, stored: Bytes, rs: seq<IndexRecord>, info: seq<SubRecord>,
                      inflate: Inflate, f: Files)
    requires f.Valid() && forall i :: 0 <= i < |rs| ==> Writable(rs[i])
    requires 11 + |payload| < SizeLimit && |stored| < SizeLimit
    requires Unpacked(stored, inflate) == Some(EncodeIndex(rs))
    requires |info| <= 1 && forall i :: 0 <= i < |info| ==> info[i].InfoRecord?
    requires rs != [] && rs[|rs| - 1] == IndexRecord(rs[|rs| - 1].name, [FileRecord(11, |payload|)] + info)
    ensures var w := BasicLoad(Present(Image(payload, stored)), inflate, f);
      && w.completed
      && Extracted(true, w.files, rs[|rs| - 1].name, Present(Image(payload, stored)), inflate) ==
        if info != [] && CompressedFlag(info[0].flags) && inflate(payload).Some?
        then Data(inflate(payload).value) else Data(payload)
  {
    ImageLoads(payload, stored, rs, inflate, f);
    var e := LastStored(f, rs, 11, |payload|, info);
    PayloadSegment(payload, stored);
    ExtractSingle(RecordAll(f, rs), rs[|rs| - 1].name, Image(payload, stored), payload, e.info, inflate);
  }

  /** The catalog holds the last record's member as that record describes it. */
  lemma {:induction false} LastStored(f: Files, rs: seq<IndexRecord>, o: nat, l: nat, info: seq<SubRecord>)
    returns (e: Entry)
    requires f.Valid()
    requires |info| <= 1 && forall i :: 0 <= i < |info| ==> info[i].InfoRecord?
    requires rs != [] && rs[|rs| - 1] == IndexRecord(rs[|rs| - 1].name, [FileRecord(o, l)] + info)
    ensures rs[|rs| - 1].name in RecordAll(f, rs).entries && RecordAll(f, rs).entries[rs[|rs| - 1].name] == e
    ensures e == Entry([Segment(o, l)],
      if info == [] then None else Some(Info(CompressedFlag(info[0].flags), info[0].originalSize)))
  {
    var n := |rs| - 1;
    var last := rs[n];
    assert rs[..n] + [last] == rs;
    SingleSegment(last.name, o, l, info);
    LaterDuplicateWins(f, rs[..n], last);
    e := Described(last);
  }

  /** A member stored as one segment that reads `payload`. */
  lemma {:induction false} ExtractSingle(files: Files, name: Name, s: Bytes, payload: Bytes, info: Option<Info>, inflate: Inflate)
    requires name in files.entries && files.entries[name] == Entry([Segment(11, |payload|)], info)
    requires |payload| < SizeLimit && Gathered(s, [Segment(11, |payload|)]) == payload
    ensures Extracted(true, files, name, Present(s), inflate) ==
      if info.Some? && info.value.compressed && inflate(payload).Some?
      then Data(inflate(payload).value) else Data(payload)
  {
    assert AllSeekable([Segment(11, |payload|)]);
  }

  // ---------------------------------------------------------------------
  // The reader object.

  class XP3Archive {
    /** `zlib.decompress`. */
    const inflate: Inflate
    /** `self.files`: name -> entry, in insertion order. */
    var files: Files
    /** `self.loaded`: set by a successful load, never cleared. */
    var loaded: bool
    /** `self.file_size`: only the checked loader sets it. */
    var fileSize: nat

    ghost predicate Valid()
      reads this
    {
      files.Valid() && AllHaveSegments(files)
    }

    /** `XP3Archive(filepath)`: an empty, unloaded reader. */
    constructor(inflate: Inflate)
      ensures Valid()
      ensures this.inflate == inflate && files == NoFiles && !loaded && fileSize == 0
    {
      this.inflate := inflate;
      files := NoFiles;
      loaded := false;
      fileSize := 0;
    }

    /** The catalog update of `_parse_file_entry`; false stands for the exception it raises. */
    method ParseFileEntry(body: Bytes) returns (ok: bool)
      requires Valid()
      modifies this
      ensures Valid()
      ensures ok == ParseEntry(body).Some?
      ensures ok ==> files == Record(old(files), ParseEntry(body).value.0, ParseEntry(body).value.1)
      ensures !ok ==> files == old(files)
      ensures loaded == old(loaded) && fileSize == old(fileSize)
    {
      var parsed := ParseEntryBody(body);
      if parsed.None? {
        return false;
      }
      var (name, entry) := parsed.value;
      if entry.segments != [] {
        files := Insert(files, name, entry);
      }
      return true;
    }

    /**
     * The reads of `_read_index` at `p` before its walk: the index bytes,
     * None standing for the exception raised on the way. It follows the
     * Python's statement order; `IndexData` is the same as a function.
     */
    method FetchIndex(s: Bytes, p: nat) returns (r: Option<Bytes>)
      ensures r == IndexData(s, p, inflate)
    {
      var flag := ReadAt(s, p, 1);
      var q := p + |flag|;
      var sizeField := ReadAt(s, q, 8);
      if |sizeField| != 8 {
        return None;
      }
      var size := Unpack(sizeField, 8).value;
      if size >= SizeLimit {
        return None;
      }
      var blob := ReadAt(s, q + 8, size);
      if Slice(blob, 0, 2) == ZlibHeader {
        r := inflate(blob);
      } else {
        r := Some(blob);
      }
    }

    /** The entry walk of `_read_index` over the index bytes; false stands for the exception. */
    method WalkIndex(data: Bytes) returns (ok: bool)
      requires Valid()
      modifies this
      ensures Valid()
      ensures ok == WalkFrom(data, 0, old(files)).completed
      ensures files == WalkFrom(data, 0, old(files)).files
      ensures loaded == old(loaded) && fileSize == old(fileSize)
    {
      var pos := 0;
      while pos < |data|
        invariant Valid()
        invariant loaded == old(loaded) && fileSize == old(fileSize)
        invariant WalkFrom(data, pos, files) == WalkFrom(data, 0, old(files))
        decreases |data| - pos
      {
        if pos + 4 > |data| {
          WalkEnds(data, pos, files);
          return true;
        }
        var entrySize := Unpack(data[pos..pos + 4], 4).value;
        if entrySize == 0 {
          WalkZero(data, pos, files);
          return true;
        }
        var before := files;
        ok := ParseFileEntry(Slice(data, pos + 4, pos + 4 + entrySize));
        WalkRecord(data, pos, before, entrySize, ok, files);
        if !ok {
          return false;
        }
        pos := pos + 4 + entrySize;
      }
      WalkEnds(data, pos, files);
      return true;
    }

    /** `_read_index` with the file positioned at `p`; false stands for the exception it raises. */
    method ReadIndex(s: Bytes, p: nat) returns (ok: bool)
      requires Valid()
      modifies this
      ensures Valid()
      ensures ok == ReadIndexAt(s, p, inflate, old(files)).completed
      ensures files == ReadIndexAt(s, p, inflate, old(files)).files
      ensures loaded == old(loaded) && fileSize == old(fileSize)
    {
      var data := FetchIndex(s, p);
      if data.None? {
        return false;
      }
      ok := WalkIndex(data.value);
    }

    /**
     * The signature check and trailer read of `load`, in the Python's
     * statement order; `IndexOffset` is the same as a function.
     */
    method ReadTrailer(s: Bytes) returns (r: Option<nat>)
      ensures r == IndexOffset(s)
    {
      var signature := ReadAt(s, 0, 11);
      if signature != Magic {
        return None;
      }
      var trailer := ReadAt(s, |s| - 8, 8);
      if |trailer| != 8 {
        return None;
      }
      r := Unpack(trailer, 8);
    }

    /** `load` of xp3_viewer_converter.py. */
    method Load(disk: Disk) returns (ok: bool)
      requires Valid()
      modifies this
      ensures Valid()
      ensures ok == BasicLoad(disk, inflate, old(files)).completed
      ensures files == BasicLoad(disk, inflate, old(files)).files
      ensures loaded == (old(loaded) || ok)
      ensures fileSize == old(fileSize)
    {
      if disk.Missing? {
        return false;
      }
      var s := disk.content;
      var offset := ReadTrailer(s);
      if offset.None? || offset.value >= SizeLimit {
        return false;
      }
      ok := ReadIndex(s, offset.value);
      if ok {
        loaded := true;
      }
    }

    /** `load` of xp3_viewer_enhanced.py. */
    method LoadChecked(disk: Disk) returns (ok: bool)
      requires Valid()
      modifies this
      ensures Valid()
      ensures ok == CheckedLoad(disk, inflate, old(files)).completed
      ensures files == CheckedLoad(disk, inflate, old(files)).files
      ensures loaded == (old(loaded) || ok)
      ensures fileSize == if disk.Present? then |disk.content| else old(fileSize)
    {
      if disk.Missing? {
        return false;
      }
      var s := disk.content;
      fileSize := |s|;
      if fileSize < MinArchiveSize {
        return false;
      }
      var offset := ReadTrailer(s);
      if offset.None? || offset.value >= fileSize || offset.value < 11 || offset.value >= SizeLimit {
        return false;
      }
      ok := ReadIndex(s, offset.value);
      if ok {
        loaded := true;
      }
    }

    /** `extract_file`. */
    method ExtractFile(name: Name, disk: Disk) returns (r: Extraction)
      ensures r == Extracted(loaded, files, name, disk, inflate)
    {
      if !loaded || name !in files.entries {
        return NotFound;
      }
      var entry := files.entries[name];
      if disk.Missing? {
        return Raised;
      }
      var s := disk.content;
      var data: Bytes := [];
      for i := 0 to |entry.segments|
        invariant AllSeekable(entry.segments[..i])
        invariant data == Gathered(s, entry.segments[..i])
      {
        var g := entry.segments[i];
        if !Seekable(g) {
          return Raised;
        }
        assert entry.segments[..i + 1][..i] == entry.segments[..i];
        data := data + ReadAt(s, g.offset, g.length);
      }
      assert entry.segments[..|entry.segments|] == entry.segments;
      if entry.IsCompressed() {
        var inflated := inflate(data);
        if inflated.Some? {
          data := inflated.value;
        }
      }
      return Data(data);
    }

    /** `list_files`: the stored names, in insertion order, once loaded. */
    function ListFiles(): (r: seq<Name>)
      reads this
      ensures !loaded ==> r == []
      ensures loaded && Valid() ==> Distinct(r) && forall n :: n in r <==> n in files.entries
    {
      if loaded then files.keys else []
    }
  }
}
