/**
 * The index: a run of `{u32 size, body}` records, each body one member
 * (xp3_viewer_enhanced.py:266-277, xp3_viewer_converter.py:65-76), and the
 * insertion of a parsed member into the catalog (`_parse_file_entry`'s last
 * step). The writer side, `EncodeIndex`, is the reference the walk is
 * proved against.
 */
module IndexFormat {
  import opened Wrappers
  import opened Bytes
  import opened Catalog
  import opened EntryFormat
  import Utf16

  /**
   * `if segments: self.files[filename] = file_info`: a member is stored only
   * when it has a segment, replacing any earlier member of that name.
   */
  function Record(f: Files, name: Name, e: Entry): (r: Files)
    requires f.Valid()
    ensures r.Valid()
    ensures r.entries == if e.segments != [] then f.entries[name := e] else f.entries
    ensures r.keys == if e.segments != [] && name !in f.entries then f.keys + [name] else f.keys
  {
    if e.segments != [] then Insert(f, name, e) else f
  }

  /** How a walk over the index ended: `completed` is false when a record raised. */
  datatype Walk = Walk(completed: bool, files: Files)

  /**
   * The record loop from `pos`. It stops quietly when fewer than 4 bytes
   * remain or a record declares size 0. A record body is the clamped slice
   * after its size field. A body that does not parse raises and ends the
   * walk, keeping what earlier records inserted.
   */
  function WalkFrom(data: Bytes, pos: nat, f: Files): (r: Walk)
    requires f.Valid()
    ensures r.files.Valid()
    decreases |data| - pos, 2
  {
    if pos >= |data| || pos + 4 > |data| then Walk(true, f)
    else SizedRecord(data, pos, Unpack(data[pos..pos + 4], 4).value, f)
  }

  /** The record at `pos` declares `size` body bytes; size 0 ends the walk. */
  function SizedRecord(data: Bytes, pos: nat, size: nat, f: Files): (r: Walk)
    requires f.Valid() && pos + 4 <= |data|
    ensures r.files.Valid()
    decreases |data| - pos, 1
  {
    if size == 0 then Walk(true, f) else RecordThen(data, pos, size, f)
  }

  /** One record of `size` bytes at `pos`: parse it, store it, walk on after it. */
  function RecordThen(data: Bytes, pos: nat, size: nat, f: Files): (r: Walk)
    requires f.Valid() && pos + 4 <= |data| && size > 0
    ensures r.files.Valid()
    decreases |data| - pos, 0
  {
    match ParseEntry(Slice(data, pos + 4, pos + 4 + size))
    case None => Walk(false, f)
    case Some((name, e)) => WalkFrom(data, pos + 4 + size, Record(f, name, e))
  }

  /**
   * `r` extends `f`: no name is dropped, the names already listed keep
   * their order, and if every member of `f` had a segment so does every
   * member of `r`.
   */
  ghost predicate Grows(f: Files, r: Files) {
    && f.keys <= r.keys
    && (forall n :: n in f.entries ==> n in r.entries)
    && (AllHaveSegments(f) ==> AllHaveSegments(r))
  }

  lemma RecordGrows(f: Files, name: Name, e: Entry)
    requires f.Valid()
    ensures Grows(f, Record(f, name, e))
  {
  }

  lemma GrowsTrans(f: Files, g: Files, r: Files)
    requires Grows(f, g) && Grows(g, r)
    ensures Grows(f, r)
  {
    assert f.keys == g.keys[..|f.keys|] == r.keys[..|g.keys|][..|f.keys|];
  }

  /**
   * One turn of the walk at `pos`: either it stops there with the catalog
   * unchanged, or it stores one parsed record and goes on from further on.
   */
  lemma WalkTurn(data: Bytes, pos: nat, f: Files) returns (stops: bool, next: nat, name: Name, e: Entry)
    requires f.Valid()
    ensures stops ==> WalkFrom(data, pos, f).files == f
    ensures !stops ==> pos < next && WalkFrom(data, pos, f) == WalkFrom(data, next, Record(f, name, e))
  {
    stops, next, name, e := true, pos, [], Entry([], None);
    if pos + 4 > |data| {
      WalkEnds(data, pos, f);
    } else {
      var size := Unpack(data[pos..pos + 4], 4).value;
      if size == 0 {
        WalkZero(data, pos, f);
      } else {
        var parsed := ParseEntry(Slice(data, pos + 4, pos + 4 + size));
        if parsed.None? {
          WalkRaises(data, pos, f, size);
        } else {
          stops, next, name, e := false, pos + 4 + size, parsed.value.0, parsed.value.1;
          WalkStep(data, pos, f, size, name, e);
        }
      }
    }
  }

  /** The walk only ever extends the catalog, whether it completes or raises. */
  lemma {:induction false} WalkGrows(data: Bytes, pos: nat, f: Files)
    requires f.Valid()
    ensures Grows(f, WalkFrom(data, pos, f).files)
    decreases |data| - pos
  {
    var stops, next, name, e := WalkTurn(data, pos, f);
    if !stops {
      var g := Record(f, name, e);
      if next <= |data| {
        WalkGrows(data, next, g);
      } else {
        WalkEnds(data, next, g);
      }
      RecordGrows(f, name, e);
      GrowsTrans(f, g, WalkFrom(data, next, g).files);
    }
  }

  // ---------------------------------------------------------------------
  // Writing an index: the reference the walk is checked against.

  /** A member as a writer would put it in the index: its name and sub-records. */
  datatype IndexRecord = IndexRecord(name: Name, subs: seq<SubRecord>)

  /** The entry the reader should build from a record. */
  function Described(r: IndexRecord): (e: Entry) {
    Entry(Segments(r.subs), LastInfo(r.subs))
  }

  /** The record can be written: every field fits its width. */
  predicate Writable(r: IndexRecord) {
    && |r.name| < U16Limit
    && Utf16.WellFormed(r.name)
    && (forall i :: 0 <= i < |r.subs| ==> Encodable(r.subs[i]))
    && |EncodeEntry(r.name, r.subs)| < U32Limit
  }

  function EncodeRecord(r: IndexRecord): (b: Bytes)
    ensures |b| == 4 + |EncodeEntry(r.name, r.subs)|
  {
    ToLE(|EncodeEntry(r.name, r.subs)|, 4) + EncodeEntry(r.name, r.subs)
  }

  function EncodeIndex(rs: seq<IndexRecord>): (r: Bytes) {
    if rs == [] then [] else EncodeRecord(rs[0]) + EncodeIndex(rs[1..])
  }

  /** What the catalog should hold after reading `rs` in order. */
  function RecordAll(f: Files, rs: seq<IndexRecord>): (r: Files)
    requires f.Valid()
    ensures r.Valid()
    decreases |rs|
  {
    if rs == [] then f else RecordAll(Record(f, rs[0].name, Described(rs[0])), rs[1..])
  }

  /** How an index may end: fewer than 4 bytes, or a zero size field. */
  predicate Terminator(tail: Bytes) {
    |tail| < 4 || tail[..4] == [0, 0, 0, 0]
  }

  /** The walk ends quietly when fewer than 4 bytes remain. */
  lemma WalkEnds(data: Bytes, k: nat, f: Files)
    requires f.Valid() && k + 4 > |data|
    ensures WalkFrom(data, k, f) == Walk(true, f)
  {
  }

  /** The walk ends quietly at a record declaring size 0. */
  lemma WalkZero(data: Bytes, k: nat, f: Files)
    requires f.Valid() && k + 4 <= |data| && Unpack(data[k..k + 4], 4) == Some(0)
    ensures WalkFrom(data, k, f) == Walk(true, f)
  {
    assert WalkFrom(data, k, f) == SizedRecord(data, k, 0, f);
  }

  /** A record body that does not parse makes the walk raise, keeping the catalog as it was. */
  lemma WalkRaises(data: Bytes, k: nat, f: Files, size: nat)
    requires f.Valid() && k + 4 <= |data| && size != 0
    requires Unpack(data[k..k + 4], 4) == Some(size)
    requires ParseEntry(Slice(data, k + 4, k + 4 + size)) == None
    ensures WalkFrom(data, k, f) == Walk(false, f)
  {
    assert WalkFrom(data, k, f) == RecordThen(data, k, size, f);
  }

  /** The walk takes a record that parses, stores it, and moves on by exactly `4 + size`. */
  lemma WalkStep(data: Bytes, k: nat, f: Files, size: nat, name: Name, e: Entry)
    requires f.Valid() && k + 4 <= |data| && size != 0
    requires Unpack(data[k..k + 4], 4) == Some(size)
    requires ParseEntry(Slice(data, k + 4, k + 4 + size)) == Some((name, e))
    ensures WalkFrom(data, k, f) == WalkFrom(data, k + 4 + size, Record(f, name, e))
  {
    assert WalkFrom(data, k, f) == RecordThen(data, k, size, f);
    assert RecordThen(data, k, size, f) == WalkFrom(data, k + 4 + size, Record(f, name, e));
  }

  /**
   * A record cut off inside its name, with an even number of well-formed
   * name bytes, is read without a segment: nothing is stored and the walk
   * goes on after it.
   */
  lemma ShortNameSkipped(data: Bytes, k: nat, f: Files, size: nat, n: nat)
    requires f.Valid() && size != 0 && k + 4 + size <= |data|
    requires Unpack(data[k..k + 4], 4) == Some(size)
    requires var body := data[k + 4..k + 4 + size];
      && 2 <= size < 2 + 2 * n && Unpack(body[..2], 2) == Some(n)
      && (size - 2) % 2 == 0 && Utf16.WellFormed(Utf16.Units(body[2..]))
    ensures WalkFrom(data, k, f) == WalkFrom(data, k + 4 + size, f)
  {
    var body := data[k + 4..k + 4 + size];
    assert Slice(data, k + 4, k + 4 + size) == body;
    ShortNameDropped(body, n);
    WalkStep(data, k, f, size, Utf16.Units(body[2..]), Entry([], None));
  }

  /**
   * One record of the walk, whatever its body: `ok` tells whether the body
   * parsed and `g` is the catalog after it. The walk from here is the walk
   * from after the record, or it raises with the catalog it had.
   */
  lemma WalkRecord(data: Bytes, k: nat, f: Files, size: nat, ok: bool, g: Files)
    requires f.Valid() && g.Valid() && k + 4 <= |data| && size != 0
    requires Unpack(data[k..k + 4], 4) == Some(size)
    requires ok == ParseEntry(Slice(data, k + 4, k + 4 + size)).Some?
    requires ok ==> var (name, e) := ParseEntry(Slice(data, k + 4, k + 4 + size)).value; g == Record(f, name, e)
    ensures ok ==> WalkFrom(data, k, f) == WalkFrom(data, k + 4 + size, g) && Grows(f, g)
    ensures !ok ==> WalkFrom(data, k, f) == Walk(false, f)
  {
    if ok {
      var (name, e) := ParseEntry(Slice(data, k + 4, k + 4 + size)).value;
      WalkStep(data, k, f, size, name, e);
      RecordGrows(f, name, e);
    } else {
      WalkRaises(data, k, f, size);
    }
  }

  /** The record bodies of `rs`, as written. */
  function Bodies(rs: seq<IndexRecord>): (b: seq<Bytes>)
    ensures |b| == |rs|
  {
    seq(|rs|, i requires 0 <= i < |rs| => EncodeEntry(rs[i].name, rs[i].subs))
  }

  /**
   * `d` starts with `bodies` as the walk reads them, each behind a
   * non-zero 4-byte size field that holds its length, and `rest` follows.
   */
  ghost predicate Framed(d: Bytes, bodies: seq<Bytes>, rest: Bytes)
    decreases |bodies|
  {
    if bodies == [] then d == rest
    else
      var n := |bodies[0]|;
      && 4 + n <= |d|
      && n != 0
      && Unpack(d[..4], 4) == Some(n)
      && d[4..4 + n] == bodies[0]
      && Framed(d[4 + n..], bodies[1..], rest)
  }

  /** How the walk's slices at `k` sit in `data[k..]`. */
  lemma SuffixParts(data: Bytes, k: nat, n: nat)
    requires k + 4 + n <= |data|
    ensures data[k..k + 4] == data[k..][..4]
    ensures Slice(data, k + 4, k + 4 + n) == data[k..][4..4 + n]
    ensures data[k + 4 + n..] == data[k..][4 + n..]
  {
  }

  /** Walking framed bodies that parse stores their entries in order. */
  lemma {:induction false} WalkFramed(data: Bytes, k: nat, rs: seq<IndexRecord>, bodies: seq<Bytes>, rest: Bytes, end: nat, f: Files)
    requires f.Valid() && |bodies| == |rs| && k <= |data| && Framed(data[k..], bodies, rest)
    requires forall i :: 0 <= i < |rs| ==> ParseEntry(bodies[i]) == Some((rs[i].name, Described(rs[i])))
    requires end + |rest| == |data|
    ensures WalkFrom(data, k, f) == WalkFrom(data, end, RecordAll(f, rs))
    decreases |rs|
  {
    if rs != [] {
      var n := |bodies[0]|;
      SuffixParts(data, k, n);
      assert ParseEntry(bodies[0]) == Some((rs[0].name, Described(rs[0])));
      WalkStep(data, k, f, n, rs[0].name, Described(rs[0]));
      assert Framed(data[k + 4 + n..], bodies[1..], rest);
      WalkFramed(data, k + 4 + n, rs[1..], bodies[1..], rest, end, Record(f, rs[0].name, Described(rs[0])));
    } else {
      assert k == end;
    }
  }

  /** Every written body parses to its record's name and entry. */
  lemma BodiesParse(rs: seq<IndexRecord>)
    requires forall i :: 0 <= i < |rs| ==> Writable(rs[i])
    ensures forall i :: 0 <= i < |rs| ==> ParseEntry(Bodies(rs)[i]) == Some((rs[i].name, Described(rs[i])))
  {
    forall i | 0 <= i < |rs|
      ensures ParseEntry(Bodies(rs)[i]) == Some((rs[i].name, Described(rs[i])))
    {
      ParseEncodedEntry(rs[i].name, rs[i].subs);
    }
  }

  /** The parts of a size field, a body and what follows. */
  lemma SizedParts(b: Bytes, t: Bytes)
    requires 0 < |b| < U32Limit
    ensures var d := (ToLE(|b|, 4) + b) + t;
      && 4 + |b| <= |d|
      && Unpack(d[..4], 4) == Some(|b|)
      && d[4..4 + |b|] == b
      && d[4 + |b|..] == t
  {
    var d := (ToLE(|b|, 4) + b) + t;
    assert d[..4] == ToLE(|b|, 4);
    assert d[4..4 + |b|] == b;
    assert d[4 + |b|..] == t;
    FieldLimits();
    UnpackToLE(|b|, 4);
  }

  /** An encoded run of records frames their bodies. */
  lemma {:induction false} EncodedFrames(rs: seq<IndexRecord>, bodies: seq<Bytes>, tail: Bytes)
    requires forall i :: 0 <= i < |rs| ==> Writable(rs[i])
    requires |bodies| == |rs| && forall i :: 0 <= i < |rs| ==> bodies[i] == EncodeEntry(rs[i].name, rs[i].subs)
    ensures Framed(EncodeIndex(rs) + tail, bodies, tail)
    decreases |rs|
  {
    if rs == [] {
      assert EncodeIndex(rs) + tail == tail;
    } else {
      var b := bodies[0];
      var t := EncodeIndex(rs[1..]) + tail;
      assert EncodeIndex(rs) + tail == (ToLE(|b|, 4) + b) + t;
      SizedParts(b, t);
      EncodedFrames(rs[1..], bodies[1..], tail);
    }
  }

  /** Walking the framed bodies of written records stores the records in order. */
  lemma {:induction false} WalkBodies(data: Bytes, k: nat, rs: seq<IndexRecord>, tail: Bytes, end: nat, f: Files)
    requires f.Valid() && forall i :: 0 <= i < |rs| ==> Writable(rs[i])
    requires k <= |data| && Framed(data[k..], Bodies(rs), tail) && end + |tail| == |data|
    ensures WalkFrom(data, k, f) == WalkFrom(data, end, RecordAll(f, rs))
  {
    BodiesParse(rs);
    WalkFramed(data, k, rs, Bodies(rs), tail, end, f);
  }

  /** A terminator ends the walk without error. */
  lemma TerminatorStops(data: Bytes, k: nat, f: Files)
    requires f.Valid() && k <= |data| && Terminator(data[k..])
    ensures WalkFrom(data, k, f) == Walk(true, f)
  {
    if k + 4 > |data| {
      WalkEnds(data, k, f);
    } else {
      assert data[k..k + 4] == data[k..][..4] == ToLE(0, 4);
      FieldLimits();
      UnpackToLE(0, 4);
      WalkZero(data, k, f);
    }
  }

  /**
   * A record of `n` bytes whose body does not parse makes the walk raise
   * there, whatever follows it.
   */
  lemma BadRecordRaises(data: Bytes, k: nat, n: nat, bad: Bytes, rest: Bytes, f: Files)
    requires f.Valid() && k <= |data| && data[k..] == ToLE(n, 4) + (bad + rest)
    requires 0 < n < U32Limit && |bad| == n && ParseEntry(bad) == None
    ensures WalkFrom(data, k, f) == Walk(false, f)
  {
    SplitRest(data, k, ToLE(n, 4), bad + rest);
    SplitRest(data, k + 4, bad, rest);
    FieldLimits();
    UnpackToLE(n, 4);
    assert Slice(data, k + 4, k + 4 + n) == bad;
    WalkRaises(data, k, f, n);
  }

  /** A whole index as written reads back to the catalog the writer described. */
  lemma {:induction false} IndexRoundTrip(rs: seq<IndexRecord>, tail: Bytes, f: Files)
    requires f.Valid() && forall i :: 0 <= i < |rs| ==> Writable(rs[i])
    requires Terminator(tail)
    ensures WalkFrom(EncodeIndex(rs) + tail, 0, f) == Walk(true, RecordAll(f, rs))
  {
    var data := EncodeIndex(rs) + tail;
    assert data[0..] == data && data[|EncodeIndex(rs)|..] == tail;
    EncodedFrames(rs, Bodies(rs), tail);
    WalkBodies(data, 0, rs, tail, |EncodeIndex(rs)|, f);
    TerminatorStops(data, |EncodeIndex(rs)|, RecordAll(f, rs));
  }

  /**
   * A record that raises after the records `rs` makes the walk fail, yet
   * the members of `rs` are already in the catalog: `files` is not rolled
   * back.
   */
  lemma {:induction false} PartialEntriesSurvive(rs: seq<IndexRecord>, n: nat, bad: Bytes, rest: Bytes, f: Files)
    requires f.Valid() && forall i :: 0 <= i < |rs| ==> Writable(rs[i])
    requires 0 < n < U32Limit && |bad| == n && ParseEntry(bad) == None
    ensures WalkFrom(EncodeIndex(rs) + (ToLE(n, 4) + (bad + rest)), 0, f) == Walk(false, RecordAll(f, rs))
  {
    var tail := ToLE(n, 4) + (bad + rest);
    var data := EncodeIndex(rs) + tail;
    assert data[0..] == data && data[|EncodeIndex(rs)|..] == tail;
    EncodedFrames(rs, Bodies(rs), tail);
    WalkBodies(data, 0, rs, tail, |EncodeIndex(rs)|, f);
    BadRecordRaises(data, |EncodeIndex(rs)|, n, bad, rest, RecordAll(f, rs));
  }

  /** Of two records with the same name, the later one is the one kept. */
  lemma LaterDuplicateWins(f: Files, rs: seq<IndexRecord>, r: IndexRecord)
    requires f.Valid() && Segments(r.subs) != []
    ensures r.name in RecordAll(f, rs + [r]).entries
    ensures RecordAll(f, rs + [r]).entries[r.name] == Described(r)
    ensures r.name in RecordAll(f, rs).entries ==> RecordAll(f, rs + [r]).keys == RecordAll(f, rs).keys
  {
    RecordAllSnoc(f, rs, r);
  }

  lemma {:induction false} RecordAllSnoc(f: Files, rs: seq<IndexRecord>, r: IndexRecord)
    requires f.Valid()
    ensures RecordAll(f, rs + [r]) == Record(RecordAll(f, rs), r.name, Described(r))
    decreases |rs|
  {
    if rs == [] {
      assert [] + [r] == [r];
    } else {
      assert (rs + [r])[1..] == rs[1..] + [r];
      RecordAllSnoc(Record(f, rs[0].name, Described(rs[0])), rs[1..], r);
    }
  }
}
