/**
 * The catalog the reader builds: member name -> entry. The source keeps it
 * in a Python dict, whose keys also remember the order of first insertion
 * (that order is what `list_files` returns), so the model carries the key
 * order beside the map.
 */
module Catalog {
  import opened Wrappers

  /** A UTF-16 code unit; member names are kept as their code units. */
  type CodeUnit = u: nat | u < 0x1_0000
  type Name = seq<CodeUnit>

  /** One `file` sub-record: `length` bytes of the archive starting at `offset`. */
  datatype Segment = Segment(offset: nat, length: nat)

  /** What an `info` sub-record sets: `compressed` and `original_size`. */
  datatype Info = Info(compressed: bool, originalSize: nat)

  /**
   * The dict stored per member. `info` is None when no `info` sub-record was
   * seen: the dict then has neither key.
   */
  datatype Entry = Entry(segments: seq<Segment>, info: Option<Info>) {
    /** `file_info.get('compressed', False)` */
    predicate IsCompressed()
      ensures IsCompressed() ==> info.Some?
    {
      info.Some? && info.value.compressed
    }
  }

  /** No name occurs twice in `keys`. */
  ghost predicate Distinct(keys: seq<Name>) {
    keys == [] || (keys[|keys| - 1] !in keys[..|keys| - 1] && Distinct(keys[..|keys| - 1]))
  }

  /** A Python dict from names to entries, with its key order. */
  datatype Files = Files(entries: map<Name, Entry>, keys: seq<Name>) {
    ghost predicate Valid() {
      && Distinct(keys)
      && (forall n :: n in entries <==> n in keys)
    }
  }

  const NoFiles: Files := Files(map[], [])

  /**
   * `files[name] = entry`: the value is replaced, a new key goes to the end
   * of the key order and an existing key keeps its place.
   */
  function Insert(f: Files, name: Name, e: Entry): (r: Files)
    requires f.Valid()
    ensures r.Valid()
    ensures r.entries == f.entries[name := e]
    ensures name in f.entries ==> r.keys == f.keys
    ensures name !in f.entries ==> r.keys == f.keys + [name]
  {
    if name in f.entries then Files(f.entries[name := e], f.keys)
    else Files(f.entries[name := e], f.keys + [name])
  }

  /** Every entry in the catalog has at least one segment. */
  ghost predicate AllHaveSegments(f: Files) {
    forall n :: n in f.entries ==> |f.entries[n].segments| > 0
  }
}
