# XP3 archive reader, modelled in Dafny

This project models the archive reader class `XP3Archive` of the XP3 viewer, in both of its
copies: the plain one in `xp3_viewer_converter.py` and the checked one in
`xp3_viewer_enhanced.py`. An XP3 archive has four parts:

- the 11-byte signature `XP3\r\n \n\x1a\x8b\x67\x01`;
- the member data;
- an index block: a flag byte, a u64 size, then the index, which may be zlib-compressed;
- a trailing u64 that gives the offset of the index block.

The index is a run of records. Each record is a u32 size and a body. A body holds three things:

- a u16 name length;
- the UTF-16LE name;
- tagged sub-records. `file` gives a segment's offset and length, `info` gives the compression flag and original size, and any other tag is skipped by its u64 length.

The reader builds a catalog from name to entry. It extracts a member by reading its segments in order and inflating the result when the member is flagged compressed.

Modules, one per concern:

- `Bytes` (bytes.dfy) models the Python behaviour the reader relies on:
  - slicing, which is clamped at both ends;
  - `f.seek(p); f.read(n)`, which comes back short at end of file;
  - `struct.unpack` of little-endian fields, which fails unless the slice has exactly the field's width.
- `Catalog` (catalog.dfy) models the catalog as a Python dict: a map plus its key order. That order is what `list_files` returns.
- `Utf16` (utf16.dfy) models the strict UTF-16LE decoding of member names.
- `EntryFormat` (entry.dfy) models `_parse_file_entry`.
  - It has a function specification, plus methods with the source's cursor loops proved against it.
  - A writer's encoding of record bodies is the reference it is checked against.
- `IndexFormat` (index.dfy) models the record walk of `_read_index` as a function.
  - A writer's encoding of whole indexes is its reference.
- `Archive` (archive.dfy) models the reader object.
  - It defines the two loaders and extraction as functions of the file and the object's state.
  - The class `XP3Archive` has fields `files`, `loaded` and `fileSize`, and its methods are proved against those functions.
  - It also defines a writer's layout of whole archives (`Image`) with round-trip lemmas.

The class combines the two copies:

- `Load` is `load` of xp3_viewer_converter.py.
- `LoadChecked` is `load` of xp3_viewer_enhanced.py. It adds the existence check, the 32-byte minimum, the `11 <= offset < size` check and `file_size`.
- `_read_index`, `_parse_file_entry`, `extract_file` and `list_files` are the same in both files.

An exception inside `load` is caught and becomes `False`. In the model it is a `false` result or a `None`.

## Model

| member | source | states |
|---|---|---|
| Bytes.Slice | xp3_viewer_enhanced.py:262 | Python slicing clamps both bounds; the result's length is the clamped span, and empty when the start is past the end |
| Bytes.ReadAt | xp3_viewer_enhanced.py:257-261 | a read of n bytes at p gives at most n bytes; it gives exactly the file's bytes when they are all there, and nothing past end of file |
| Bytes.Unpack | xp3_viewer_enhanced.py:258 | `struct.unpack` succeeds exactly when the slice has the field's width, and the value fits the field |
| Bytes.UnpackToLE | xp3_viewer_enhanced.py:234 | unpacking a little-endian field that a writer encoded gives back the encoded value |
| Bytes.ToFromLE | xp3_viewer_enhanced.py:234 | re-encoding an unpacked field gives the same bytes, so decoding is one-to-one |
| Catalog.Insert | xp3_viewer_enhanced.py:328 | `files[name] = info` replaces the value, appends a new key at the end of the order and keeps an existing key in place; the key order stays duplicate-free and covers exactly the map's keys |
| Utf16.Decode | xp3_viewer_enhanced.py:287 | decoding fails exactly on an odd byte count or an unpaired surrogate; otherwise the name has half as many code units as bytes |
| Utf16.DecodeEncode | xp3_viewer_enhanced.py:287 | a well-formed name's UTF-16LE encoding decodes back to the name |
| Utf16.EncodeDecode | xp3_viewer_enhanced.py:287 | a decoded name re-encodes to the bytes it came from, so two different byte strings never give the same key |
| EntryFormat.SubRecordStep | xp3_viewer_enhanced.py:292-324 | a step over one sub-record always moves the cursor forward |
| EntryFormat.StepFile | xp3_viewer_enhanced.py:299-306 | a `file` tag followed by its offset and length appends that segment and moves 28 bytes on |
| EntryFormat.StepInfo | xp3_viewer_enhanced.py:308-316 | an `info` tag followed by its flags and size sets the metadata (compressed when any of the low three flag bits is set) and moves 24 bytes on |
| EntryFormat.StepOther | xp3_viewer_enhanced.py:318-322 | any other tag followed by an 8-byte length skips that many bytes and changes nothing |
| EntryFormat.ParseEntryBody | xp3_viewer_enhanced.py:279-324 | the cursor code gives exactly the name and entry of the specification, or fails exactly where it fails |
| EntryFormat.CompressedFlag | xp3_viewer_enhanced.py:315 | `(flags & 7) != 0`: compressed exactly when one of the three low flag bits is set |
| EntryFormat.ScanFrom | xp3_viewer_enhanced.py:292-324 | the sub-record walk from a position; it can raise only where a whole 4-byte tag still lies in the body |
| EntryFormat.ScanAt | xp3_viewer_enhanced.py:293-324 | one turn of the walk's loop body and the rest of the walk; it can raise only where a whole tag lies in the body |
| EntryFormat.ParseEntry | xp3_viewer_enhanced.py:279-324 | a body shorter than the name length field raises; a parsed name lies inside the body, right after that field, and is the UTF-16LE decoding of those bytes (it re-encodes to them) |
| EntryFormat.NameWithinField | xp3_viewer_enhanced.py:285-287 | a parsed name has at most as many code units as its u16 length field says, and exactly that many when the body holds them all |
| EntryFormat.ScanSubRecords | xp3_viewer_enhanced.py:290-324 | the `while pos < len(entry_data)` loop over sub-records computes exactly the specified walk, including where it raises and where it stops |
| EntryFormat.StepKeepsEarlier | xp3_viewer_enhanced.py:299-316 | one sub-record adds at most one segment at the end, and metadata once set is never cleared |
| EntryFormat.ScanKeepsEarlier | xp3_viewer_enhanced.py:290-322 | earlier segments stay a prefix of the walk's result, and metadata once set stays set |
| EntryFormat.TruncatedFileRaises | xp3_viewer_enhanced.py:299-306 | a `file` tag with fewer than 24 bytes after it raises |
| EntryFormat.TruncatedInfoRaises | xp3_viewer_enhanced.py:308-316 | an `info` tag with fewer than 20 bytes after it raises |
| EntryFormat.ShortNameDropped | xp3_viewer_enhanced.py:285-292 | a body cut off inside its name, with an even number of well-formed name bytes left, parses to a shorter name than its length field gives, and to an entry with no segment and no metadata |
| EntryFormat.OddShortNameRaises | xp3_viewer_enhanced.py:285-287 | a body cut off inside its name after an odd number of name bytes raises |
| EntryFormat.UnknownTagWithoutLengthEnds | xp3_viewer_enhanced.py:318-324 | an unknown tag without a full 8-byte length ends the walk and keeps what was collected |
| EntryFormat.ScanEncoded | xp3_viewer_enhanced.py:290-322 | walking written sub-records collects exactly their segments, in order, and the metadata of the last `info` record |
| EntryFormat.ParseEncodedEntry | xp3_viewer_enhanced.py:279-322 | a record body as a writer lays it out parses back to its name and to the entry its sub-records describe |
| IndexFormat.Record | xp3_viewer_enhanced.py:326-328 | a member is stored only when it has a segment, replacing an earlier member of that name and keeping the name's place |
| IndexFormat.WalkFrom | xp3_viewer_enhanced.py:265-277 | the `_read_index` record loop from a position; the catalog stays a well-formed dict whether the walk completes or raises (`WalkGrows` and `IndexRoundTrip` carry the rest) |
| IndexFormat.SizedRecord | xp3_viewer_enhanced.py:271-273 | a record whose u32 size was read; the catalog stays a well-formed dict |
| IndexFormat.RecordThen | xp3_viewer_enhanced.py:275-277 | a non-empty record is parsed, stored and the walk resumes after it; the catalog stays a well-formed dict |
| IndexFormat.WalkGrows | xp3_viewer_enhanced.py:265-277 | the walk never removes a name or reorders the names already listed, and keeps every stored member non-empty |
| IndexFormat.WalkEnds | xp3_viewer_enhanced.py:267-269 | fewer than 4 bytes left ends the walk successfully and unchanged |
| IndexFormat.WalkZero | xp3_viewer_enhanced.py:271-273 | a zero record size ends the walk successfully and unchanged |
| IndexFormat.WalkRaises | xp3_viewer_enhanced.py:275-276 | a record whose body does not parse fails the walk and keeps what was stored before it |
| IndexFormat.ShortNameSkipped | xp3_viewer_enhanced.py:275-277 | a record cut off inside its name (an even number of well-formed name bytes left) stores nothing, and the walk goes on after it |
| IndexFormat.WalkStep | xp3_viewer_enhanced.py:271-277 | a parsed record is stored and the walk resumes right after it |
| IndexFormat.WalkFramed | xp3_viewer_enhanced.py:265-277 | a run of size-prefixed bodies that parse is walked by storing each in order |
| IndexFormat.EncodedFrames | xp3_viewer_enhanced.py:271-275 | a written index splits into exactly the size-prefixed bodies of its records |
| IndexFormat.IndexRoundTrip | xp3_viewer_enhanced.py:265-277 | an index as a writer lays it out, followed by an allowed end, is read completely into what its records describe, in order |
| IndexFormat.BadRecordRaises | xp3_viewer_enhanced.py:271-276 | a record of any non-zero size whose body does not parse makes the walk raise, whatever follows it |
| IndexFormat.PartialEntriesSurvive | xp3_viewer_enhanced.py:265-277 | after any written records, a record of any non-zero size whose body raises fails the walk, yet the members stored before it stay in the catalog |
| IndexFormat.LaterDuplicateWins | xp3_viewer_enhanced.py:328 | of two records with the same name the later one, when it has a segment, wins, and the name keeps its first position |
| IndexFormat.RecordAllSnoc | xp3_viewer_enhanced.py:265-277 | reading one more record is storing it after the others |
| Archive.IndexBlob | xp3_viewer_enhanced.py:256-261 | the index bytes as read: it fails exactly when the flag byte and u64 size are not both there or the size is 2^63 or more; otherwise it is the bytes right after the size field, exactly the declared size or cut short at end of file |
| Archive.Unpacked | xp3_viewer_enhanced.py:262-263 | only an index starting with `78 9C` is inflated, and only such an index can make the read fail |
| Archive.ReadIndexAt | xp3_viewer_enhanced.py:254-277 | `_read_index`, even when it raises, removes no name, reorders none and keeps every stored member non-empty |
| Archive.IndexOffset | xp3_viewer_converter.py:34-40 | the trailer is read exactly when the file starts with the signature; the offset is the value whose u64 encoding is the file's last 8 bytes |
| Archive.BasicLoad | xp3_viewer_converter.py:29-51 | the converter's `load` succeeds only on an existing file that starts with the signature; successful or not, it removes no name and reorders none |
| Archive.CheckedLoad | xp3_viewer_enhanced.py:212-252 | the enhanced `load` succeeds only on an existing file of at least 32 bytes that starts with the signature and whose trailer offset lies in [11, file size); successful or not, it removes no name and reorders none |
| Archive.RawIndexWalked | xp3_viewer_enhanced.py:260-277 | a stored index whose first two bytes are not `78 9C` is walked exactly as read |
| Archive.CorruptIndexFails | xp3_viewer_converter.py:55-62 | an index that starts with `78 9C` but does not inflate makes `_read_index` and both loaders fail with the catalog unchanged |
| Archive.CheckedOnlyRejects | xp3_viewer_enhanced.py:214-242 | the enhanced loader either fails without touching the catalog or does exactly what the converter's loader does; it never accepts a file the other refuses |
| Catalog.Entry.IsCompressed | xp3_viewer_enhanced.py:345 | `file_info.get('compressed', False)`: a member with no `info` record is never compressed |
| Archive.Extracted | xp3_viewer_enhanced.py:330-351 | `extract_file` gives None exactly when the reader is not loaded or the name is unknown; it raises exactly when the file is gone or a segment's offset or length is past what `seek`/`read` accept; otherwise it gives the segments' bytes concatenated in order, inflated when the member is flagged compressed and they inflate, else raw |
| Archive.Gathered | xp3_viewer_enhanced.py:338-342 | the extract loop's `data += f.read(size)` over the segments; it never gives more bytes than the segments' lengths add up to |
| Archive.GatheredPieces | xp3_viewer_enhanced.py:339-342 | reading the segments one after another gives their bytes concatenated in index order |
| Archive.PiecesLength | xp3_viewer_enhanced.py:339-342 | segments inside the file give exactly as many bytes as their lengths add up to |
| Archive.ImageKeepsPartial | xp3_viewer_converter.py:29-76 | an archive whose index holds written records followed by a record that raises fails to load with either loader (the checked one once it has 32 bytes), and the catalog keeps the members of the records before it |
| Archive.ImageLoads | xp3_viewer_converter.py:29-76 | an archive as a writer lays it out loads completely with either loader (the checked one once it has 32 bytes), into what the index records describe |
| Archive.MinimalArchive | xp3_viewer_enhanced.py:219-220 | the smallest archive (28 bytes, empty index) loads with the converter's loader and is refused by the enhanced one |
| Archive.ImageExtracts | xp3_viewer_enhanced.py:330-351 | a member whose one segment covers the archive's data and whose record comes last extracts as that data, inflated when an `info` record marks it compressed and it inflates |
| Archive.XP3Archive.constructor | xp3_viewer_enhanced.py:206-210 | a new reader is unloaded, with an empty catalog and `file_size` 0 |
| Archive.XP3Archive.ParseFileEntry | xp3_viewer_enhanced.py:279-328 | `_parse_file_entry` stores exactly the parsed entry when it has a segment, fails exactly when the body does not parse, and then changes nothing |
| Archive.XP3Archive.FetchIndex | xp3_viewer_enhanced.py:256-263 | the reads before the walk give exactly the specified index bytes, or fail where they fail |
| Archive.XP3Archive.WalkIndex | xp3_viewer_enhanced.py:265-277 | the walk loop updates the catalog exactly as the record walk specifies and succeeds exactly when it does |
| Archive.XP3Archive.ReadIndex | xp3_viewer_enhanced.py:254-277 | `_read_index` leaves exactly the specified catalog and succeeds exactly when it does |
| Archive.XP3Archive.ReadTrailer | xp3_viewer_converter.py:34-40 | the signature check and trailer read give exactly the specified index offset, or fail |
| Archive.XP3Archive.Load | xp3_viewer_converter.py:29-51 | returns the specified outcome with the specified catalog; `loaded` is set by a success and never cleared |
| Archive.XP3Archive.LoadChecked | xp3_viewer_enhanced.py:212-252 | returns the specified outcome with the specified catalog; `loaded` is set by a success and never cleared; `file_size` becomes the file's length whenever the file exists |
| Archive.XP3Archive.ExtractFile | xp3_viewer_enhanced.py:330-351 | the segment loop gives exactly the specified extraction |
| Archive.XP3Archive.ListFiles | xp3_viewer_enhanced.py:353-355 | empty before a successful load; afterwards each stored name exactly once. The order is the key sequence the body returns, which `Catalog.Insert` keeps in first-insertion order |

## Left out

- The user interface, image decoding, worker threads, the converter's file writing and all printing and logging are not part of this model.
- zlib is not modelled. `inflate` is a function given to the reader, and None stands for `zlib.error`. The lemmas constrain it only through premises that name its result.
- The archive file is a parameter of each call (`Disk`), because the reader re-opens its path every time. Opening and closing the file and `Path.exists` are not modelled apart from the file being missing.
- Member names are kept as UTF-16 code units, not Python `str`. The strict decoder is one-to-one on the names it accepts, so the catalog's keys are the same.
- A read of a huge but allowed size raises MemoryError depending on the machine. This is not modelled: such a read is clamped to the end of the file.
- Extracted: a `seek` below 2^63 but past the file system's largest file size raises OSError on some platforms (EINVAL on Linux). The model treats every such offset as an empty read, so for those offsets it returns data where the code raises.
- The segment type string stored with each segment is always `'file'`, so it and the extract loop's test of it are left out.
- ImageLoads, ImageExtracts: these cover a raw index only when its first two bytes are not `78 9C`. Otherwise the reader sniffs a zlib header and calls `inflate` on a raw index, and the lemmas state their premise through `Unpacked` instead.

Behaviour of the code a reader may not expect, modelled as written:

- The checked loader's minimum size is 32 bytes, not the 19 bytes of signature plus trailer. `MinimalArchive` shows a valid 28-byte archive that it refuses.
- `load` never clears `files` and never resets `loaded`. A second load merges into the catalog, and a failed load after a successful one leaves the reader loaded (`BasicLoad`, `XP3Archive.Load`).
- A load that fails part-way keeps the members stored before the failure (`PartialEntriesSurvive`, `ImageKeepsPartial`).
- `extract_file` on a missing file, or on a segment offset or length of 2^63 or more, raises instead of returning None (`Extracted`).
- A record body cut off inside its name does not always fail. The name slice is clamped, so an even number of well-formed name bytes gives a shorter name, the sub-record loop starts past the end, and the record is read without a segment and so is not stored; the load goes on (`ShortNameDropped`, `ShortNameSkipped`). An odd number of name bytes raises (`OddShortNameRaises`).
