/**
 * One index record body, as `_parse_file_entry` reads it: a u16 name length
 * in code units, the UTF-16LE name, then tagged sub-records until the body
 * is used up. `file` adds a segment, `info` sets the compression flag and
 * original size, any other tag is skipped by its u64 length.
 */
module EntryFormat {
  import opened Wrappers
  import opened Bytes
  import opened Catalog
  import Utf16

  const FileTag: Bytes := [0x66, 0x69, 0x6C, 0x65]  // "file"
  const InfoTag: Bytes := [0x69, 0x6E, 0x66, 0x6F]  // "info"

  /** The compression flag of an `info` sub-record: `(flags & 7) != 0`. */
  predicate CompressedFlag(flags: nat)
    ensures CompressedFlag(flags) <==> flags % 2 == 1 || flags / 2 % 2 == 1 || flags / 4 % 2 == 1
  {
    flags % 8 != 0
  }

  /** What one sub-record does to the walk. */
  datatype Step =
    | End                             // the walk stops, keeping what it has
    | Raise                           // struct.error: the record, and the load, fail
    | Next(pos: nat, acc: Entry)      // the walk goes on at `pos` with `acc`

  /**
   * The sub-record at `pos` (the walk's loop guard holds: a tag could start
   * there). A truncated `file` or `info` body raises; an unknown tag without
   * its full 8-byte length ends the walk.
   */
  function SubRecordStep(body: Bytes, pos: nat, acc: Entry): (r: Step)
    requires pos < |body|
    ensures r.Next? ==> r.pos > pos
  {
    if pos + 4 > |body| then End
    else
      var tag := body[pos..pos + 4];
      var p := pos + 4;
      if tag == FileTag then
        match (Unpack(Slice(body, p + 8, p + 16), 8), Unpack(Slice(body, p + 16, p + 24), 8))
        case (Some(offset), Some(length)) => Next(p + 24, acc.(segments := acc.segments + [Segment(offset, length)]))
        case _ => Raise
      else if tag == InfoTag then
        match (Unpack(Slice(body, p + 8, p + 12), 4), Unpack(Slice(body, p + 12, p + 20), 8))
        case (Some(flags), Some(originalSize)) => Next(p + 20, acc.(info := Some(Info(CompressedFlag(flags), originalSize))))
        case _ => Raise
      else if p + 8 <= |body| then
        Next(p + 8 + Unpack(body[p..p + 8], 8).value, acc)
      else End
  }

  /**
   * The sub-record walk from `pos` on, `acc` holding what was collected
   * before `pos`. None stands for the `struct.error` of a truncated `file`
   * or `info` body.
   */
  function ScanFrom(body: Bytes, pos: nat, acc: Entry): (r: Option<Entry>)
    ensures r.None? ==> pos + 4 <= |body|
    decreases |body| - pos, 1
  {
    if pos >= |body| then Some(acc) else ScanAt(body, pos, acc)
  }

  /** The walk at a position where the loop guard holds. */
  function ScanAt(body: Bytes, pos: nat, acc: Entry): (r: Option<Entry>)
    requires pos < |body|
    ensures r.None? ==> pos + 4 <= |body|
    decreases |body| - pos, 0
  {
    match SubRecordStep(body, pos, acc)
    case End => Some(acc)
    case Raise => None
    case Next(next, acc') => ScanFrom(body, next, acc')
  }

  /**
   * A record body's name and entry; None stands for any exception the
   * source raises on it (a body shorter than the name length field, a name
   * that does not decode, a truncated `file` or `info` sub-record).
   */
  function ParseEntry(body: Bytes): (r: Option<(Name, Entry)>)
    ensures |body| < 2 ==> r == None
    ensures r.Some? ==> 2 + 2 * |r.value.0| <= |body| && Utf16.Encode(r.value.0) == body[2..2 + 2 * |r.value.0|]
  {
    var nameLength :- Unpack(Slice(body, 0, 2), 2);
    var nameBytes := Slice(body, 2, 2 + 2 * nameLength);
    var name :- Utf16.Decode(nameBytes);
    var entry :- ScanFrom(body, 2 + 2 * nameLength, Entry([], None));
    Utf16.EncodeDecode(nameBytes);
    Some((name, entry))
  }

  /**
   * `_parse_file_entry` up to the dict insertion: the name, then the
   * sub-record loop. It follows the Python statement by statement, cursor
   * and all; `ParseEntry` is the same computation as a function, which the
   * lemmas use.
   */
  method ParseEntryBody(body: Bytes) returns (r: Option<(Name, Entry)>)
    ensures r == ParseEntry(body)
  {
    var pos := 0;
    var nameLength :- Unpack(Slice(body, pos, pos + 2), 2);
    pos := pos + 2;
    var name :- Utf16.Decode(Slice(body, pos, pos + nameLength * 2));
    pos := pos + nameLength * 2;
    var entry :- ScanSubRecords(body, pos);
    return Some((name, entry));
  }

  /** The cursor loop of `_parse_file_entry` over the sub-records from `start` on. */
  method ScanSubRecords(body: Bytes, start: nat) returns (r: Option<Entry>)
    ensures r == ScanFrom(body, start, Entry([], None))
  {
    var pos := start;
    var segments: seq<Segment> := [];
    var info: Option<Info> := None;
    while pos < |body|
      invariant ScanFrom(body, pos, Entry(segments, info)) == ScanFrom(body, start, Entry([], None))
      decreases |body| - pos
    {
      if pos + 4 > |body| {
        break;
      }
      var tag := body[pos..pos + 4];
      pos := pos + 4;
      if tag == FileTag {
        pos := pos + 8;  // the sub-record's own size field is skipped
        var offset :- Unpack(Slice(body, pos, pos + 8), 8);
        pos := pos + 8;
        var length :- Unpack(Slice(body, pos, pos + 8), 8);
        pos := pos + 8;
        segments := segments + [Segment(offset, length)];
      } else if tag == InfoTag {
        pos := pos + 8;  // the sub-record's own size field is skipped
        var flags :- Unpack(Slice(body, pos, pos + 4), 4);
        pos := pos + 4;
        var originalSize :- Unpack(Slice(body, pos, pos + 8), 8);
        pos := pos + 8;
        info := Some(Info(CompressedFlag(flags), originalSize));
      } else {
        if pos + 8 <= |body| {
          var skip := Unpack(body[pos..pos + 8], 8).value;  // a whole 8-byte slice: the unpack cannot fail
          pos := pos + 8 + skip;
        } else {
          break;
        }
      }
    }
    return Some(Entry(segments, info));
  }

  /** One sub-record can only append a segment, and never clears the metadata. */
  lemma StepKeepsEarlier(body: Bytes, pos: nat, acc: Entry)
    requires pos < |body| && SubRecordStep(body, pos, acc).Next?
    ensures var a := SubRecordStep(body, pos, acc).acc;
      && (a.segments == acc.segments || (exists s :: a.segments == acc.segments + [s]))
      && (acc.info.Some? ==> a.info.Some?)
  {
  }

  /** The walk keeps the segments collected so far as a prefix, and keeps metadata once set. */
  lemma {:induction false} ScanKeepsEarlier(body: Bytes, pos: nat, acc: Entry)
    requires ScanFrom(body, pos, acc).Some?
    ensures var e := ScanFrom(body, pos, acc).value;
      && |acc.segments| <= |e.segments|
      && e.segments[..|acc.segments|] == acc.segments
      && (acc.info.Some? ==> e.info.Some?)
    decreases |body| - pos
  {
    if pos < |body| {
      match SubRecordStep(body, pos, acc)
      case Next(next, acc') =>
        StepKeepsEarlier(body, pos, acc);
        ScanKeepsEarlier(body, next, acc');
        var e := ScanFrom(body, next, acc').value;
        assert e.segments[..|acc.segments|] == e.segments[..|acc'.segments|][..|acc.segments|];
      case _ =>
    }
  }

  /** A `file` tag with fewer than 24 bytes after it aborts the record (and the load). */
  lemma TruncatedFileRaises(body: Bytes, pos: nat, acc: Entry)
    requires pos + 4 <= |body| && body[pos..pos + 4] == FileTag && |body| < pos + 28
    ensures ScanFrom(body, pos, acc) == None
  {
  }

  /** An `info` tag with fewer than 20 bytes after it aborts the record (and the load). */
  lemma TruncatedInfoRaises(body: Bytes, pos: nat, acc: Entry)
    requires pos + 4 <= |body| && body[pos..pos + 4] == InfoTag && |body| < pos + 24
    ensures ScanFrom(body, pos, acc) == None
  {
  }

  /** An unknown tag without a full 8-byte length ends the walk, keeping what was collected. */
  lemma UnknownTagWithoutLengthEnds(body: Bytes, pos: nat, acc: Entry)
    requires pos + 4 <= |body| && body[pos..pos + 4] != FileTag && body[pos..pos + 4] != InfoTag
    requires |body| < pos + 12
    ensures ScanFrom(body, pos, acc) == Some(acc)
  {
  }

  /**
   * The name has at most as many code units as its u16 length field says,
   * and exactly that many when the body holds them all.
   */
  lemma NameWithinField(body: Bytes)
    requires ParseEntry(body).Some?
    ensures |body| >= 2 && |ParseEntry(body).value.0| <= FromLE(body[..2])
    ensures 2 + 2 * FromLE(body[..2]) <= |body| ==> |ParseEntry(body).value.0| == FromLE(body[..2])
  {
    assert Slice(body, 0, 2) == body[..2];
  }

  /**
   * A body cut off inside its name: the name slice is clamped to what is
   * there, so the name is shorter than its length field says. An even
   * number of well-formed name bytes gives that shorter name; the
   * sub-record loop then starts past the end, and the entry has no segment
   * and no metadata.
   */
  lemma ShortNameDropped(body: Bytes, n: nat)
    requires 2 <= |body| && Unpack(body[..2], 2) == Some(n) && |body| < 2 + 2 * n
    requires (|body| - 2) % 2 == 0 && Utf16.WellFormed(Utf16.Units(body[2..]))
    ensures ParseEntry(body).Some?
    ensures ParseEntry(body).value == (Utf16.Units(body[2..]), Entry([], None))
    ensures |ParseEntry(body).value.0| < n
  {
    assert Slice(body, 0, 2) == body[..2];
    assert Slice(body, 2, 2 + 2 * n) == body[2..];
  }

  /** A body cut off inside its name after an odd number of name bytes raises. */
  lemma OddShortNameRaises(body: Bytes, n: nat)
    requires 2 <= |body| && Unpack(body[..2], 2) == Some(n) && |body| < 2 + 2 * n
    requires (|body| - 2) % 2 == 1
    ensures ParseEntry(body) == None
  {
    assert Slice(body, 0, 2) == body[..2];
    assert Slice(body, 2, 2 + 2 * n) == body[2..];
  }

  // ---------------------------------------------------------------------
  // Writing record bodies: the reference the walk is checked against.

  /** A sub-record as a writer would lay it out. */
  datatype SubRecord =
    | FileRecord(offset: nat, length: nat)
    | InfoRecord(flags: nat, originalSize: nat)
    | OtherRecord(tag: Bytes, payload: Bytes)

  /** The values fit their fields and an unknown tag is neither `file` nor `info`. */
  predicate Encodable(r: SubRecord) {
    match r
    case FileRecord(offset, length) => offset < U64Limit && length < U64Limit
    case InfoRecord(flags, originalSize) => flags < U32Limit && originalSize < U64Limit
    case OtherRecord(tag, payload) => |tag| == 4 && tag != FileTag && tag != InfoTag && |payload| < U64Limit
  }

  function EncodeSub(r: SubRecord): (b: Bytes) {
    match r
    case FileRecord(offset, length) => FileTag + ToLE(16, 8) + ToLE(offset, 8) + ToLE(length, 8)
    case InfoRecord(flags, originalSize) => InfoTag + ToLE(12, 8) + ToLE(flags, 4) + ToLE(originalSize, 8)
    case OtherRecord(tag, payload) => tag + ToLE(|payload|, 8) + payload
  }

  function EncodeSubs(rs: seq<SubRecord>): (r: Bytes) {
    if rs == [] then [] else EncodeSub(rs[0]) + EncodeSubs(rs[1..])
  }

  /** The segments a list of sub-records describes: one per `file` record, in order. */
  function Segments(rs: seq<SubRecord>): (r: seq<Segment>) {
    if rs == [] then []
    else if rs[0].FileRecord? then [Segment(rs[0].offset, rs[0].length)] + Segments(rs[1..])
    else Segments(rs[1..])
  }

  /** The metadata of the last `info` record, if any. */
  function LastInfo(rs: seq<SubRecord>): (r: Option<Info>) {
    if rs == [] then None
    else if LastInfo(rs[1..]).Some? then LastInfo(rs[1..])
    else match rs[0]
      case InfoRecord(flags, originalSize) => Some(Info(CompressedFlag(flags), originalSize))
      case _ => None
  }

  /** A record body as written: name length, UTF-16LE name, sub-records. */
  function EncodeEntry(name: Name, rs: seq<SubRecord>): (b: Bytes)
    ensures |b| == 2 + 2 * |name| + |EncodeSubs(rs)|
  {
    ToLE(|name|, 2) + Utf16.Encode(name) + EncodeSubs(rs)
  }

  /** A field of an encoded piece, read back from the data that holds the piece. */
  lemma Inside(data: Bytes, k: nat, x: Bytes, j: nat, n: nat)
    requires k + |x| <= |data| && data[k..k + |x|] == x && j + n <= |x|
    ensures data[k + j..k + j + n] == x[j..j + n]
  {
    var y := data[k..k + |x|];
    forall i | k + j <= i < k + j + n
      ensures data[i] == y[i - k]
    {
    }
    assert data[k + j..k + j + n] == y[j..j + n];
  }

  /** The encoded rest of the data, split into its first piece and what follows. */
  lemma SplitRest(data: Bytes, k: nat, a: Bytes, b: Bytes)
    requires k <= |data| && data[k..] == a + b
    ensures k + |a| <= |data| && data[k..k + |a|] == a && data[k + |a|..] == b
  {
    assert data[k..k + |a|] == data[k..][..|a|];
    assert data[k + |a|..] == data[k..][|a|..];
  }

  /** Where the fields of an encoded `file` record sit. */
  lemma FileLayout(o: nat, l: nat)
    ensures var x := EncodeSub(FileRecord(o, l));
      |x| == 28 && x[..4] == FileTag && x[12..20] == ToLE(o, 8) && x[20..28] == ToLE(l, 8)
  {
    var x := EncodeSub(FileRecord(o, l));
    assert x == FileTag + ToLE(16, 8) + ToLE(o, 8) + ToLE(l, 8);
  }

  /** Where the fields of an encoded `info` record sit. */
  lemma InfoLayout(f: nat, s: nat)
    ensures var x := EncodeSub(InfoRecord(f, s));
      |x| == 24 && x[..4] == InfoTag && x[12..16] == ToLE(f, 4) && x[16..24] == ToLE(s, 8)
  {
    var x := EncodeSub(InfoRecord(f, s));
    assert x == InfoTag + ToLE(12, 8) + ToLE(f, 4) + ToLE(s, 8);
  }

  /** Where the fields of an encoded unknown record sit. */
  lemma OtherLayout(tag: Bytes, payload: Bytes)
    requires |tag| == 4
    ensures var x := EncodeSub(OtherRecord(tag, payload));
      |x| == 12 + |payload| && x[..4] == tag && x[4..12] == ToLE(|payload|, 8)
  {
    var x := EncodeSub(OtherRecord(tag, payload));
    assert x == tag + ToLE(|payload|, 8) + payload;
  }

  /** A `file` record with its offset and length appends that segment. */
  lemma StepFile(data: Bytes, pos: nat, acc: Entry, o: nat, l: nat)
    requires pos + 28 <= |data| && data[pos..pos + 4] == FileTag
    requires data[pos + 12..pos + 20] == ToLE(o, 8) && data[pos + 20..pos + 28] == ToLE(l, 8)
    requires o < U64Limit && l < U64Limit
    ensures SubRecordStep(data, pos, acc) == Next(pos + 28, acc.(segments := acc.segments + [Segment(o, l)]))
  {
    FieldLimits();
    UnpackToLE(o, 8);
    UnpackToLE(l, 8);
  }

  /** An `info` record with its flags and size sets the metadata. */
  lemma StepInfo(data: Bytes, pos: nat, acc: Entry, f: nat, s: nat)
    requires pos + 24 <= |data| && data[pos..pos + 4] == InfoTag
    requires data[pos + 12..pos + 16] == ToLE(f, 4) && data[pos + 16..pos + 24] == ToLE(s, 8)
    requires f < U32Limit && s < U64Limit
    ensures SubRecordStep(data, pos, acc) == Next(pos + 24, acc.(info := Some(Info(CompressedFlag(f), s))))
  {
    FieldLimits();
    UnpackToLE(f, 4);
    UnpackToLE(s, 8);
  }

  /** Any other tag with an 8-byte length is skipped and changes nothing. */
  lemma StepOther(data: Bytes, pos: nat, acc: Entry, n: nat)
    requires pos + 12 <= |data| && data[pos..pos + 4] != FileTag && data[pos..pos + 4] != InfoTag
    requires data[pos + 4..pos + 12] == ToLE(n, 8) && n < U64Limit
    ensures SubRecordStep(data, pos, acc) == Next(pos + 12 + n, acc)
  {
    FieldLimits();
    UnpackToLE(n, 8);
  }

  /** What the walk does with one sub-record of the reference. */
  function Apply(acc: Entry, r: SubRecord): (e: Entry) {
    match r
    case FileRecord(o, l) => acc.(segments := acc.segments + [Segment(o, l)])
    case InfoRecord(f, s) => acc.(info := Some(Info(CompressedFlag(f), s)))
    case OtherRecord(_, _) => acc
  }

  /** An encoded sub-record at `k` is read as the reference says and the walk moves past it. */
  lemma StepEncoded(data: Bytes, k: nat, r: SubRecord, acc: Entry)
    requires Encodable(r)
    requires k + |EncodeSub(r)| <= |data| && data[k..k + |EncodeSub(r)|] == EncodeSub(r)
    ensures k < |data| && SubRecordStep(data, k, acc) == Next(k + |EncodeSub(r)|, Apply(acc, r))
  {
    match r
    case FileRecord(o, l) => StepEncodedFile(data, k, o, l, acc);
    case InfoRecord(f, s) => StepEncodedInfo(data, k, f, s, acc);
    case OtherRecord(tag, payload) => StepEncodedOther(data, k, tag, payload, acc);
  }

  lemma StepEncodedFile(data: Bytes, k: nat, o: nat, l: nat, acc: Entry)
    requires o < U64Limit && l < U64Limit
    requires k + 28 <= |data| && data[k..k + 28] == EncodeSub(FileRecord(o, l))
    ensures SubRecordStep(data, k, acc) == Next(k + 28, acc.(segments := acc.segments + [Segment(o, l)]))
  {
    var x := EncodeSub(FileRecord(o, l));
    FileLayout(o, l);
    Inside(data, k, x, 0, 4);
    Inside(data, k, x, 12, 8);
    Inside(data, k, x, 20, 8);
    StepFile(data, k, acc, o, l);
  }

  lemma StepEncodedInfo(data: Bytes, k: nat, f: nat, s: nat, acc: Entry)
    requires f < U32Limit && s < U64Limit
    requires k + 24 <= |data| && data[k..k + 24] == EncodeSub(InfoRecord(f, s))
    ensures SubRecordStep(data, k, acc) == Next(k + 24, acc.(info := Some(Info(CompressedFlag(f), s))))
  {
    var x := EncodeSub(InfoRecord(f, s));
    InfoLayout(f, s);
    Inside(data, k, x, 0, 4);
    Inside(data, k, x, 12, 4);
    Inside(data, k, x, 16, 8);
    StepInfo(data, k, acc, f, s);
  }

  lemma StepEncodedOther(data: Bytes, k: nat, tag: Bytes, payload: Bytes, acc: Entry)
    requires Encodable(OtherRecord(tag, payload))
    requires k + 12 + |payload| <= |data| && data[k..k + 12 + |payload|] == EncodeSub(OtherRecord(tag, payload))
    ensures SubRecordStep(data, k, acc) == Next(k + 12 + |payload|, acc)
  {
    var x := EncodeSub(OtherRecord(tag, payload));
    OtherLayout(tag, payload);
    Inside(data, k, x, 0, 4);
    Inside(data, k, x, 4, 8);
    StepOther(data, k, acc, |payload|);
  }

  lemma ScanNext(body: Bytes, pos: nat, acc: Entry, next: nat, acc': Entry)
    requires pos < |body| && SubRecordStep(body, pos, acc) == Next(next, acc')
    ensures ScanFrom(body, pos, acc) == ScanFrom(body, next, acc')
  {
  }

  /** The entry the walk has built once it has also seen `rs`. */
  function Collected(acc: Entry, rs: seq<SubRecord>): (r: Entry) {
    Entry(acc.segments + Segments(rs), if LastInfo(rs).Some? then LastInfo(rs) else acc.info)
  }

  /** Walking encoded sub-records collects exactly their segments and last `info`. */
  lemma {:induction false} ScanEncoded(data: Bytes, k: nat, rs: seq<SubRecord>, acc: Entry)
    requires forall i :: 0 <= i < |rs| ==> Encodable(rs[i])
    requires k <= |data| && data[k..] == EncodeSubs(rs)
    ensures ScanFrom(data, k, acc) == Some(Collected(acc, rs))
    decreases |rs|
  {
    if rs == [] {
      assert acc.segments + Segments(rs) == acc.segments;
    } else {
      var x := EncodeSub(rs[0]);
      SplitRest(data, k, x, EncodeSubs(rs[1..]));
      var next, acc' := k + |x|, Apply(acc, rs[0]);
      ScanEncoded(data, next, rs[1..], acc');
      ScanCons(data, k, rs, acc, next, acc');
    }
  }

  /** One step of `ScanEncoded`: the first record, then the rest as already walked. */
  lemma ScanCons(data: Bytes, k: nat, rs: seq<SubRecord>, acc: Entry, next: nat, acc': Entry)
    requires rs != [] && Encodable(rs[0])
    requires next == k + |EncodeSub(rs[0])| && acc' == Apply(acc, rs[0])
    requires next <= |data| && data[k..next] == EncodeSub(rs[0])
    requires ScanFrom(data, next, acc') == Some(Collected(acc', rs[1..]))
    ensures ScanFrom(data, k, acc) == Some(Collected(acc, rs))
  {
    StepEncoded(data, k, rs[0], acc);
    ScanNext(data, k, acc, next, acc');
    CollectedStep(acc, rs);
  }

  /** Seeing `rs` is seeing its first record, then the rest. */
  lemma CollectedStep(acc: Entry, rs: seq<SubRecord>)
    requires rs != []
    ensures Collected(acc, rs) == Collected(Apply(acc, rs[0]), rs[1..])
  {
    if rs[0].FileRecord? {
      var s := Segment(rs[0].offset, rs[0].length);
      assert acc.segments + ([s] + Segments(rs[1..])) == (acc.segments + [s]) + Segments(rs[1..]);
    }
  }

  /** `ParseEntry` from its three parts. */
  lemma ParseParts(body: Bytes, n: nat, name: Name, e: Entry)
    requires Unpack(Slice(body, 0, 2), 2) == Some(n)
    requires Utf16.Decode(Slice(body, 2, 2 + 2 * n)) == Some(name)
    requires ScanFrom(body, 2 + 2 * n, Entry([], None)) == Some(e)
    ensures ParseEntry(body) == Some((name, e))
  {
  }

  /** Where the parts of a three-part concatenation sit. */
  lemma ThreeParts(a: Bytes, b: Bytes, c: Bytes)
    ensures var d := a + b + c;
      && d[0..|a|] == a && d[|a|..|a| + |b|] == b && d[|a| + |b|..] == c
  {
    var d := a + b + c;
    assert d[0..|a|] == a;
    assert d[|a|..|a| + |b|] == b;
    assert d[|a| + |b|..] == c;
  }

  /** Where the parts of an encoded record body sit. */
  lemma EntryLayout(name: Name, rs: seq<SubRecord>)
    ensures var body := EncodeEntry(name, rs);
      && body[0..2] == ToLE(|name|, 2)
      && body[2..2 + 2 * |name|] == Utf16.Encode(name)
      && body[2 + 2 * |name|..] == EncodeSubs(rs)
  {
    ThreeParts(ToLE(|name|, 2), Utf16.Encode(name), EncodeSubs(rs));
  }

  /** A record body as written parses back to its name and the entry its sub-records describe. */
  lemma ParseEncodedEntry(name: Name, rs: seq<SubRecord>)
    requires |name| < U16Limit && Utf16.WellFormed(name)
    requires forall i :: 0 <= i < |rs| ==> Encodable(rs[i])
    ensures ParseEntry(EncodeEntry(name, rs)) == Some((name, Entry(Segments(rs), LastInfo(rs))))
  {
    var body := EncodeEntry(name, rs);
    var e := Entry(Segments(rs), LastInfo(rs));
    EntryLayout(name, rs);
    FieldLimits();
    UnpackToLE(|name|, 2);
    assert Unpack(Slice(body, 0, 2), 2) == Some(|name|);
    Utf16.DecodeEncode(name);
    assert Utf16.Decode(Slice(body, 2, 2 + 2 * |name|)) == Some(name);
    ScanEncoded(body, 2 + 2 * |name|, rs, Entry([], None));
    assert Collected(Entry([], None), rs) == e;
    ParseParts(body, |name|, name, e);
  }
}
