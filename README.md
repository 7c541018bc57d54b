# serdif: the diff-and-stitch serializer, modelled in Dafny

serdif re-encodes a value over the encoding of an earlier version that is
already stored in a seekable byte buffer. The `Serializer` of `src/ser.rs`
reads the record stored at the cursor before it writes each new record.
- At the end of the data, it appends the new record.
- When the stored record is equal, it leaves the bytes alone and moves past them.
- When a boolean differs, it leaves the stale record in place and appends a
  *stitch* at the end of the stream, followed by the new record. The stitch is
  a forwarding record `{old_pos, new_pos, next_stitch_pos}`. It is written first
  as a placeholder and backpatched in place once the offsets are known.

A session ends with `finalize`, which appends a *trailer*: the magic constant,
the offset of the session's first stitch, and the previous trailer's offset.
`find_last_trailer` (`src/meta.rs`) looks for the latest trailer.

The project has these modules:

- `Primitives`, `LittleEndian` and `Hex` (primitives.dfy): bytes, u64 values,
  and the behaviour of `LittleEndian::write_u64`/`read_u64` and of
  `hex::encode`/`hex::decode` that `src/meta.rs` relies on.
- `Meta` (meta.dfy): `Stitch`, `FixedSizeStitch`, `Stitch::encode`,
  `FixedSizeStitch::decode`, `MAGIC` and `Trailer`.
- `Wire` (wire.dfy): the records of the stream as one `Command` datatype, with
  a byte framing. A record is a tag byte and then its fields, and the typed
  read `read::<T>()` is `ReadAs`. It returns the record and its size, end of
  data (`cmd_eof()`), or a read error.
- `State` (state.dfy): the buffer, a class over a byte sequence and a cursor
  with the seek, read and write behaviour of an in-memory `Cursor<Vec<u8>>`.
- `DiffStitch` (diffstitch.dfy): what each serializer call does to the
  session, written as functions on a `Session` value. The lemmas over single
  calls and whole passes are here.
- `Ser` (ser.dfy): the `Serializer` class. Its methods perform the
  seeks, reads and writes of the source, and each is proved to end in the
  state that the matching `DiffStitch` function gives.
- `TrailerScan` (scan.dfy): `find_last_trailer` as a method with a loop,
  specified by a scan function. Lemmas cover the scan as written and the
  corrected scan.

The source does not compile as shown. `cmd_eof()` and `.e()` are not defined,
and the tuple and field commands are missing from `src/scmd.rs`. The model
follows the evident intent:
- `cmd_eof()` holds when the read failed because the cursor is at the end of
  the data;
- any other read error is returned by `?` as a failure;
- a panic (`unimplemented!()` or a failed `assert_eq!`) is a failed
  `Outcome`, taken after the state changes the call already made.

`assert_eq!(new_pos, new_pos_2)` in `serialize_bool` is proved, not modelled
as a failure.

Where the design that the code's own names point to and the code disagree,
the model follows the code:
- The name `find_last_trailer` asks for the latest trailer, which is the one
  closest to the end of the stream, so the scan should step backward from the
  end. The code seeks with `SeekFrom::End(i)`, which steps forward from the end
  (see Findings).
- The field `last_trailer_pos` and the trailer's `prev_trailer_pos` point to a
  chain of trailers, each linking to the one before. The code never assigns
  `last_trailer_pos`, so it is always `None`. As a result, `finalize` never
  takes its no-op branch on a session it opened, and every trailer has
  `prev_trailer_pos = None`. The model keeps the field and its use in
  `finalize`, as written.
- A stitch replaces the stale record at `old_pos`, so a reader that follows it
  to `new_pos` would resume sequential reading just past the stale record.
  The code instead sets `next_stitch_pos` to the end of the newly appended
  record (src/ser.rs:139). The model's `StitchFor` records the same offset as
  the code.

## Model

| member | source | states |
|---|---|---|
| LittleEndian.ReadWriteU64 | src/meta.rs:22-27 | reading back the eight little-endian bytes `write_u64` produces gives the same u64 |
| LittleEndian.WriteReadU64 | src/meta.rs:44-48 | eight bytes read as a u64 and written again are the same eight bytes, so the eight-byte form is a bijection |
| Hex.DecodeEncode | src/meta.rs:23-27 | `hex::decode` of `hex::encode(b)` gives back b |
| Hex.DecodeRejects | src/meta.rs:43-47 | one byte that is not a hex digit, anywhere in the text, makes `hex::decode` fail |
| Meta.EncodeStitch | src/meta.rs:19-32 | each of the three encoded fields is exactly 16 characters whatever the offsets, so a placeholder and a real stitch have the same size |
| Meta.DecodeEncodeField | src/meta.rs:43-44 | one offset, hex-encoded from its little-endian bytes, decodes back to itself |
| Meta.DecodeEncodeStitch | src/meta.rs:41-53 | round trip: `decode(encode(s))` succeeds with the same `old_pos`, `new_pos` and `next_stitch_pos` |
| Meta.DecodeFieldOk | src/meta.rs:43-44 | decoding one field succeeds if and only if it is hex text of even length naming at least eight bytes; a non-hex byte or a short field is an error |
| Meta.DecodeStitchOk | src/meta.rs:41-53 | `decode` succeeds if and only if all three fields are hex text of even length and at least 16 characters |
| Wire.ReadAs | src/ser.rs:61-65 | a read reports end of data exactly when the cursor is at or past the end; a record it returns has the requested type, a positive size and lies inside the data |
| Wire.ReadAsEncoded | src/ser.rs:55-65 | a record written at an offset reads back there as itself with its exact size when read as its own type, and as a read error when read as any other type |
| Wire.ReadAsBetween | src/ser.rs:55-65 | the same, for a record placed between any prefix and any suffix |
| Wire.EncodeInjective | src/ser.rs:55-59 | two records with the same bytes are the same record, so comparing stored bytes compares records |
| Wire.TagInjective | src/ser.rs:61-65 | two record types share a tag only if they are the same type |
| Wire.StitchFrameWidth | src/meta.rs:19-32 | every encoded stitch record has the same size, whatever its offsets |
| Wire.TrailerFrameBound | src/meta.rs:57-62 | an encoded trailer record has a fixed upper bound on its size |
| State.Overwrite | src/ser.rs:55-59 | a write at the cursor replaces exactly the bytes it covers, keeps every other byte, zero-fills a gap past the end, and grows the stream only as far as the write reaches |
| State.OverwriteAtEnd | src/ser.rs:129-138 | a write at the end of the data appends |
| State.OverwriteSame | src/ser.rs:177-180 | writing the bytes that are already there changes nothing |
| State.Backpatch | src/ser.rs:141-148 | overwriting the placeholder with a block of its size leaves every byte before and after it as it was |
| State.Buffer.Position | src/ser.rs:116 | `seek(Current(0))` returns the cursor |
| State.Buffer.SeekStart | src/ser.rs:49 | `seek(Start(p))` moves the cursor to p |
| State.Buffer.SeekEnd | src/meta.rs:72 | `seek(End(offset))` moves the cursor to the length plus offset, and fails, leaving the cursor, when that is negative or beyond 64 bits |
| State.Buffer.Read | src/ser.rs:61-65 | a read returns `ReadAs` at the cursor and moves the cursor past a record it decodes |
| State.Buffer.Write | src/ser.rs:55-59 | a write leaves the data as `Overwrite` gives it and the cursor just past the written bytes |
| DiffStitch.WriteAt | src/ser.rs:55-59 | a write keeps the session well formed and grows the stream by at most the record's size |
| DiffStitch.WriteThrough | src/ser.rs:177-180 | the unconditional rule of `serialize_u8`, `serialize_struct` and the struct's `serialize_field` and `end` keeps the session well formed and grows the stream by at most the record's size |
| DiffStitch.DiffOrFail | src/ser.rs:270-284 | the tuple rule keeps the session well formed and grows the stream by at most the record's size |
| DiffStitch.Stitched | src/ser.rs:129-148 | a stitched stream is longer by exactly one stitch record and one boolean record |
| DiffStitch.StitchedPrefix | src/ser.rs:129-138 | stitching only appends: every byte below the old length, the stale record included, is unchanged |
| DiffStitch.StitchedStitch | src/ser.rs:129-148 | the stitch at the old end reads back with its fixed size and decodes to {`old_pos`, the offset just after the stitch, the new end} |
| DiffStitch.StitchedRecord | src/ser.rs:137-139 | the new boolean record reads back right after the stitch, at `new_pos` |
| DiffStitch.StitchedKeeps | src/ser.rs:127-150 | a record stored before the old end still reads back as itself after the stitch |
| DiffStitch.DiffOrStitch | src/ser.rs:115-159 | the rule of `serialize_bool` keeps the session well formed and grows the stream by at most one stitch and one boolean |
| DiffStitch.Step | src/ser.rs:102-113 | any serializer call keeps the session well formed and grows the stream by at most the call's room |
| DiffStitch.Run | src/ser.rs:448-455 | a pass of calls, stopping at the first failure, keeps the session well formed |
| DiffStitch.Finalize | src/ser.rs:67-88 | `finalize` keeps the session well formed |
| DiffStitch.StepAtEnd | src/ser.rs:115-122 | at the end of the data every call appends exactly its record, moves the cursor to the new end and counts no stitch |
| DiffStitch.StitchSkipsEqual | src/ser.rs:119-125 | `serialize_bool` over an equal stored boolean changes no byte, counts no stitch and moves just past the stored record |
| DiffStitch.StitchAppendsOnDivergence | src/ser.rs:125-155 | `serialize_bool` over the other boolean leaves the stream stitched, resumes just past the stale record, adds exactly one to `new_stitches`, and fails only when it is the session's first stitch and does not start at `first_stitch_pos` |
| DiffStitch.DiffOrFailCases | src/ser.rs:270-284 | a tuple call passes over an equal stored record without writing, and on a different record of its type fails as unsupported with every byte unchanged |
| DiffStitch.WriteThroughCases | src/ser.rs:448-460 | an unconditional call writes its record at the cursor, keeps every byte before and after it, moves the cursor just past it, and changes nothing when the record is already there |
| DiffStitch.FinalizeCommits | src/ser.rs:67-88 | `finalize` is a no-op exactly when no stitch was written and a trailer is known. Otherwise it keeps every byte, leaves the cursor at the new end, and appends a trailer that reads back as follows: its magic is MAGIC; its `first_stitch` is `Some(first_stitch_pos)` if and only if stitches were written; its `prev_trailer_pos` is `last_trailer_pos` |
| DiffStitch.RunAtEnd | src/ser.rs:115-122 | on a stream with the cursor at the end, a pass appends exactly the value's records, passes, and writes no stitch |
| DiffStitch.StepOverStored | src/ser.rs:115-159 | one call over a stored record of the same shape passes, keeps every old byte, grows the stream by one stitch and one boolean exactly when the record changed, and moves just past the stored record |
| DiffStitch.RunOverStored | src/ser.rs:150-155 | a pass over stored records of the same shape passes, so the first-stitch check holds. It keeps every old byte and appends one stitch and one boolean per changed boolean. `new_stitches` rises by the number of changes. The cursor ends past the stored records |
| DiffStitch.AppendedIsChanged | src/ser.rs:129-138 | the bytes such a pass appends are the number of changed records times the size of one stitch and one boolean |
| DiffStitch.ReencodeIsIdempotent | src/ser.rs:47-53 | after `reset`, re-encoding the value the stream already holds changes no byte and writes no stitch |
| DiffStitch.UpdateIsNotRemembered | src/ser.rs:119-125 | after an update, re-encoding the same new value after another `reset` stitches every changed boolean again, because the serializer compares against the stale records and never follows a stitch |
| TrailerScan.ScanStep | src/meta.rs:72-80 | one candidate: the trailer read there if it carries MAGIC, otherwise the scan goes on from the next candidate |
| TrailerScan.ScanFound | src/meta.rs:75-78 | a trailer the scan returns carries MAGIC and is what reads at the offset returned with it |
| TrailerScan.ScanOkInRange | src/meta.rs:71-72 | a scan that succeeds from a candidate had that candidate within the 1000 and at a valid offset |
| TrailerScan.ScanCandidates | src/meta.rs:71-81 | the loop tries the candidates in order, stops at the first trailer with MAGIC and returns it with its offset, reports a failed seek, or reports that none was found; it changes no byte |
| TrailerScan.FindLastTrailer | src/meta.rs:64-85 | returns no trailer on an empty stream, otherwise the scan's result; it changes no byte, restores the cursor on the found and not-found paths, and leaves it at 0 on an empty stream |
| TrailerScan.TrailerTag | src/meta.rs:73-74 | a trailer starts with the trailer tag byte |
| TrailerScan.NothingPastEnd | src/meta.rs:72-74 | no trailer can be read at or past the end of the data |
| TrailerScan.ForwardScanFails | src/meta.rs:71-81 | with the candidates of `SeekFrom::End(i)`, every candidate from any point on misses |
| TrailerScan.ForwardScanNeverFinds | src/meta.rs:71-72 | as written, the scan of a non-empty stream never finds a trailer, wherever one is |
| TrailerScan.BackwardFound | src/meta.rs:71-78 | scanning back from the end, a trailer returned lies within the window and no trailer starts after it |
| TrailerScan.BackwardMissed | src/meta.rs:71-84 | scanning back from the end, the scan fails only when no trailer starts in the window |
| TrailerScan.BackwardError | src/meta.rs:72 | a failing backward scan reports a failed seek exactly when the stream is shorter than the window |
| TrailerScan.BackwardScanFindsLast | src/meta.rs:64-85 | the corrected scan returns a trailer with MAGIC that reads at the offset it gives, within 1000 bytes of the end, with no trailer after it. It succeeds if and only if such a trailer exists, and reports a failed seek exactly when it fails on a stream shorter than the window |
| TrailerScan.SoleTrailerMissed | src/meta.rs:71-72 | on a stream holding one committed trailer and nothing else, the scan as written reports that there is no trailer, while the corrected scan returns it at offset 0 |
| TrailerScan.SoleTrailerOnly | src/meta.rs:55 | in that stream no other offset starts a trailer |
| TrailerScan.MagicBytes | src/meta.rs:55 | the eight little-endian bytes of MAGIC |
| Ser.Serializer.FromState | src/ser.rs:28-37 | a new serializer has zeroed session fields, no known trailer, and is then reset |
| Ser.Serializer.Reset | src/ser.rs:47-53 | `reset` keeps every byte and `last_trailer_pos`, rewinds the cursor to 0, sets `first_stitch_pos` to the stream length and `new_stitches` to 0 |
| Ser.Serializer.Write | src/ser.rs:55-59 | `write` leaves the session as `WriteAt` gives it |
| Ser.Serializer.Read | src/ser.rs:61-65 | `read` returns the record stored at the cursor and changes only the cursor |
| Ser.Serializer.SerializeBool | src/ser.rs:115-159 | `serialize_bool` ends in the outcome and session `DiffOrStitch` gives |
| Ser.Serializer.AppendStitched | src/ser.rs:127-150 | the divergent branch appends the stitch and the new boolean, with the placeholder backpatched in place to the real stitch; the cursor returns to the bookmark, and the stitch starts at the old end |
| Ser.Serializer.AppendDraft | src/ser.rs:128-139 | seeking to the end and writing the placeholder and the new record appends both, with `new_pos` just after the placeholder and `next_stitch_pos` at the new end |
| Ser.Serializer.Compare | src/ser.rs:270-284 | the compare step of the tuple calls ends as `DiffOrFail` gives |
| Ser.Serializer.SerializeU8 | src/ser.rs:177-180 | `serialize_u8` ends as `WriteThrough` gives |
| Ser.Serializer.SerializeTuple | src/ser.rs:270-284 | `serialize_tuple` ends as `DiffOrFail` gives |
| Ser.Serializer.SerializeTupleElement | src/ser.rs:349-367 | the tuple's `serialize_element` marker ends as `DiffOrFail` gives |
| Ser.Serializer.SerializeTupleEnd | src/ser.rs:369-383 | the tuple's `end` ends as `DiffOrFail` gives |
| Ser.Serializer.SerializeStruct | src/ser.rs:308-316 | `serialize_struct` ends as `WriteThrough` gives |
| Ser.Serializer.SerializeStructField | src/ser.rs:448-455 | the struct's `serialize_field` key ends as `WriteThrough` gives |
| Ser.Serializer.SerializeStructEnd | src/ser.rs:457-460 | the struct's `end` ends as `WriteThrough` gives |
| Ser.Serializer.Dispatch | src/ser.rs:102-113 | the call for one record ends as `Step` gives |
| Ser.Serializer.SerializeValue | src/ser.rs:448-455 | the traversal's calls, in order and stopping at the first failure, end as `Run` gives |
| Ser.Serializer.Finalize | src/ser.rs:67-88 | `finalize` ends in the session `DiffStitch.Finalize` gives |
| Ser.Placeholder | src/ser.rs:130-135 | the placeholder stitch `{old_pos, 0, 0}` has the size of every stitch record |

## Left out

- serde_json text: each record is written and read through a tag-and-fields byte framing (module `Wire`). The proofs rely on five properties of that framing:
  - records are self-delimiting;
  - a record reads back where it starts;
  - a stitch's size does not depend on its offsets;
  - a read consumes exactly the bytes that `write` produced, with no separator left behind;
  - every record type has its own tag, so a read of one type over a record of another is a read error;
  - the two boolean records have the same size.

  The last three do not hold for the source; the next four lines say what that costs.
- Separator: `write` ends every record with the newline of `writeln!` (src/ser.rs:57). `read` (src/ser.rs:61-64) stops at the record's last byte and leaves that newline unread. After a compare, the source's cursor is therefore one byte before the model's, and a write that follows without reading first starts one byte early: the field key (src/ser.rs:452), the struct end (src/ser.rs:458) and the u8 (src/ser.rs:179). Re-encoding a stored struct of booleans thus moves newlines around, and the stored bytes change even when the value is the same. The model has no separator and does not capture this.
- DiffStitch.ReencodeIsIdempotent, DiffStitch.RunOverStored: "changes no byte" and "keeps every old byte" hold for the model's framing, not for the program's. Under the source's newline separator, records are preserved up to the placement of newlines, and bytes under an unconditional write that follows a compare shift by one.
- DiffStitch.DiffOrFailCases: with serde_json the unit records `SerializeTupleElement`, `SerializeTupleEnd` and `SerializeStructEnd` all serialize as `null`. A tuple `end` read over a stored element marker then decodes and compares equal in the source. The model's typed tags make that read a read error (`ReadFailed`), and `EncodeInjective` holds only for the tagged framing.
- DiffStitch.AppendedIsChanged, DiffStitch.StepOverStored, DiffStitch.RunOverStored, DiffStitch.UpdateIsNotRemembered: the growth they state for a changed boolean is one constant, one stitch plus one boolean record. The model gives both boolean records the same size. `serde_json::to_writer_pretty` (src/ser.rs:56) writes the record for `true` one byte shorter than the record for `false`. In the program, each changed boolean therefore adds one stitch plus the new record's own size, and the stitch's `next_stitch_pos` depends on the new value.
- The value traversal (`value.serialize(&mut **self)`, serde's visitor): a value is given as the sequence of records its traversal emits, and `SerializeValue` takes them in order.
- `println!` output and `Serializer::dump` are standard-output I/O.
- `Serializer::new`, `to_state` and `to_de` only move the buffer.
- The deserializer of `src/de.rs` is not part of this model.
- The serializer methods that `panic!()` (other integers, floats, strings, sequences, maps, enums, tuple structs and variants) are not modelled; the model has no record for them.
- Crash consistency, and the window in which a placeholder stitch is in the stream, cannot be expressed in this sequential model.
- `new_stitches` and offsets are unbounded in the model; every method requires that the stream has room to grow within 64 bits, so the u64 overflow of `new_stitches += 1` is not modelled.
- The I/O errors of the buffer itself (`.e()?` on a seek or write) are not modelled: the in-memory buffer's seeks within 64 bits and its writes cannot fail.
- A read that fails leaves the cursor where it was. How far serde_json had consumed the input before failing is not modelled.
- The smoke test of `src/tests.rs` is not modelled as a concrete scenario. `RunAtEnd`, `RunOverStored` and `ReencodeIsIdempotent` state its kind of pass for every value.
- TrailerScan.FindLastTrailer: on a failed seek inside the scan the cursor is left wherever the last candidate put it; the contract does not state it, as the source does not restore it either.

## Findings

| source | as written | input that shows it | evidently intended | confidence | as-written member | corrected member |
|---|---|---|---|---|---|---|
| src/meta.rs:71-72 | the i-th candidate is `SeekFrom::End(i)` for i = 0..999, so every candidate lies at or past the end of the stream, where nothing can be read | a stream that holds only the trailer `{MAGIC, None, None}` that `finalize` appends to a fresh stream; the scan returns "unable to find trailer block" | `SeekFrom::End(-i)`, stepping back from the end: return the last trailer with MAGIC that starts within 1000 bytes of the end | not executed | TrailerScan.SoleTrailerMissed | TrailerScan.BackwardScanFindsLast |
