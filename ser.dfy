/** The serializer of src/ser.rs: a session over a seekable buffer that
    re-encodes a value over the one stored there, leaving equal records in
    place and appending a stitch and a new record for each boolean that
    changed. Every method performs the seeks, reads and writes of the source
    and is proved to end in the state the matching rule of DiffStitch gives. */
module Ser {
  import opened Primitives
  import opened Meta
  import opened Wire
  import opened State
  import opened DiffStitch

  class Serializer {
    const buf: Buffer
    var firstStitchPos: nat
    var newStitches: nat
    var lastTrailerPos: Option<u64>

    /** The session as a value: the buffer and the three session fields. */
    ghost function Snapshot(): Session
      reads this, buf
    {
      Session(buf.data, buf.cursor, firstStitchPos, newStitches, lastTrailerPos)
    }

    ghost predicate Valid()
      reads this, buf
    {
      Snapshot().Valid()
    }

    /** `from_state`: zero the session fields, then `reset`. */
    constructor FromState(b: Buffer)
      requires b.Valid()
      modifies b`cursor
      ensures buf == b && Valid()
      ensures Snapshot() == DiffStitch.Reset(Fresh(b.data))
    {
      buf := b;
      firstStitchPos := 0;
      newStitches := 0;
      lastTrailerPos := None;
      new;
      Reset();
    }

    /** `reset`: seek to the end to learn the data's length, rewind to the
        start, remember the length as `first_stitch_pos`, and zero the
        stitch count. */
    method Reset()
      requires buf.Valid()
      modifies this, buf`cursor
      ensures Valid()
      ensures Snapshot() == DiffStitch.Reset(old(Snapshot()))
    {
      var endPos := buf.SeekEnd(0);
      buf.SeekStart(0);
      firstStitchPos := endPos.value;
      newStitches := 0;
    }

    /** `write`: the record's bytes at the cursor. */
    method Write(c: Command)
      requires Valid() && buf.cursor + |Encode(c)| < TWO_64
      modifies buf
      ensures Valid()
      ensures Snapshot() == WriteAt(old(Snapshot()), c)
    {
      buf.Write(Encode(c));
    }

    /** `read::<T>()` for the type of kind k. */
    method Read(k: Kind) returns (r: ReadResult)
      requires Valid()
      modifies buf`cursor
      ensures Valid()
      ensures r == ReadAs(old(buf.data), old(buf.cursor), k)
      ensures Snapshot() == old(Snapshot()).(cursor := if r.Decoded? then old(buf.cursor) + r.len else old(buf.cursor))
    {
      r := buf.Read(k);
    }

    /** `serialize_bool`: read the boolean stored at the cursor; at end of
        data write the new one, on an equal one do nothing more, and on the
        other value append a stitch to a new copy, count it, and check that
        the session's first stitch starts at `first_stitch_pos`. */
    method SerializeBool(v: bool) returns (o: Outcome)
      requires Valid() && Fits(Snapshot(), StitchedBoolLen)
      modifies this, buf
      ensures Valid()
      ensures StepResult(o, Snapshot()) == DiffOrStitch(old(Snapshot()), v)
    {
      var oldPos := buf.Position();
      var stored := Read(BoolKind);
      if stored.Eof? {
        Write(Command.SerializeBool(v));
        return Pass;
      }
      if stored.Malformed? {
        return Fail(ReadFailed);
      }
      if stored.cmd == Command.SerializeBool(v) {
        return Pass;
      }
      var stitchPos := AppendStitched(oldPos, v);
      newStitches := newStitches + 1;
      if newStitches == 1 && firstStitchPos != stitchPos {
        return Fail(FirstStitchMismatch);
      }
      return Pass;
    }

    /** The divergent branch of `serialize_bool`: bookmark the cursor,
        append the draft, seek back and overwrite the placeholder with the
        real stitch, which ends exactly where the placeholder did, and return
        to the bookmark. The result is the offset of the stitch, the old end. */
    method AppendStitched(oldPos: nat, v: bool) returns (stitchPos: nat)
      requires Valid() && Fits(Snapshot(), StitchedBoolLen) && oldPos <= |buf.data|
      modifies buf
      ensures Valid() && stitchPos == |old(buf.data)|
      ensures buf.data == Stitched(old(buf.data), oldPos, v) && buf.cursor == old(buf.cursor)
    {
      ghost var before := buf.data;
      var bookmark := buf.Position();
      var newPos, nextStitchPos;
      stitchPos, newPos, nextStitchPos := AppendDraft(oldPos, v);
      buf.SeekStart(stitchPos);
      assert Stitch(oldPos, newPos, nextStitchPos) == StitchFor(before, oldPos);
      var stitch := StitchRecord(EncodeStitch(Stitch(oldPos, newPos, nextStitchPos)));
      StitchFrameWidth(Stitch(oldPos, newPos, nextStitchPos));
      Write(stitch);
      var newPos2 := buf.Position();
      assert newPos == newPos2;
      Backpatch(before, Encode(Placeholder(oldPos)), Encode(Command.SerializeBool(v)), Encode(stitch));
      assert buf.data == before + Encode(stitch) + Encode(Command.SerializeBool(v));
      buf.SeekStart(bookmark);
    }

    /** Seek to the end and write the placeholder stitch, then the new
        record, noting the offsets where each starts and where they end. */
    method AppendDraft(oldPos: nat, v: bool) returns (stitchPos: nat, newPos: nat, nextStitchPos: nat)
      requires Valid() && Fits(Snapshot(), StitchedBoolLen) && oldPos <= |buf.data|
      modifies buf
      ensures Valid()
      ensures buf.data == old(buf.data) + Encode(Placeholder(oldPos)) + Encode(Command.SerializeBool(v))
      ensures stitchPos == |old(buf.data)| && newPos == stitchPos + StitchFrameLen
      ensures nextStitchPos == |buf.data| == stitchPos + StitchedBoolLen && buf.cursor == nextStitchPos
    {
      ghost var before := buf.data;
      var end := buf.SeekEnd(0);
      stitchPos := end.value;
      StitchFrameWidth(Stitch(oldPos, 0, 0));
      Write(Placeholder(oldPos));
      OverwriteAtEnd(before, Encode(Placeholder(oldPos)));
      newPos := buf.Position();
      Write(Command.SerializeBool(v));
      OverwriteAtEnd(before + Encode(Placeholder(oldPos)), Encode(Command.SerializeBool(v)));
      nextStitchPos := buf.Position();
    }

    /** The step `serialize_tuple` and the tuple's `serialize_element` and
        `end` share: append at end of data, pass over an equal record, and
        give up (`unimplemented!()`) on a different one. */
    method Compare(c: Command) returns (o: Outcome)
      requires Valid() && Fits(Snapshot(), |Encode(c)|)
      modifies buf
      ensures Valid()
      ensures StepResult(o, Snapshot()) == DiffOrFail(old(Snapshot()), c)
    {
      var stored := Read(KindOf(c));
      if stored.Eof? {
        Write(c);
        return Pass;
      }
      if stored.Malformed? {
        return Fail(ReadFailed);
      }
      if stored.cmd != c {
        return Fail(Unsupported);
      }
      return Pass;
    }

    /** `serialize_u8`. */
    method SerializeU8(v: byte) returns (o: Outcome)
      requires Valid() && Fits(Snapshot(), |Encode(Command.SerializeU8(v))|)
      modifies buf
      ensures Valid()
      ensures StepResult(o, Snapshot()) == WriteThrough(old(Snapshot()), Command.SerializeU8(v))
    {
      Write(Command.SerializeU8(v));
      return Pass;
    }

    /** `serialize_tuple`. */
    method SerializeTuple(len: u64) returns (o: Outcome)
      requires Valid() && Fits(Snapshot(), |Encode(Command.SerializeTuple(len))|)
      modifies buf
      ensures Valid()
      ensures StepResult(o, Snapshot()) == DiffOrFail(old(Snapshot()), Command.SerializeTuple(len))
    {
      o := Compare(Command.SerializeTuple(len));
    }

    /** The tuple's `serialize_element`: the marker before each element. */
    method SerializeTupleElement() returns (o: Outcome)
      requires Valid() && Fits(Snapshot(), |Encode(Command.SerializeTupleElement)|)
      modifies buf
      ensures Valid()
      ensures StepResult(o, Snapshot()) == DiffOrFail(old(Snapshot()), Command.SerializeTupleElement)
    {
      o := Compare(Command.SerializeTupleElement);
    }

    /** The tuple's `end`. */
    method SerializeTupleEnd() returns (o: Outcome)
      requires Valid() && Fits(Snapshot(), |Encode(Command.SerializeTupleEnd)|)
      modifies buf
      ensures Valid()
      ensures StepResult(o, Snapshot()) == DiffOrFail(old(Snapshot()), Command.SerializeTupleEnd)
    {
      o := Compare(Command.SerializeTupleEnd);
    }

    /** `serialize_struct`. */
    method SerializeStruct(name: Str, len: u64) returns (o: Outcome)
      requires Valid() && Fits(Snapshot(), |Encode(Command.SerializeStruct(name, len))|)
      modifies buf
      ensures Valid()
      ensures StepResult(o, Snapshot()) == WriteThrough(old(Snapshot()), Command.SerializeStruct(name, len))
    {
      Write(Command.SerializeStruct(name, len));
      return Pass;
    }

    /** The struct's `serialize_field`: the key before each field. */
    method SerializeStructField(key: Str) returns (o: Outcome)
      requires Valid() && Fits(Snapshot(), |Encode(Command.SerializeStructField(key))|)
      modifies buf
      ensures Valid()
      ensures StepResult(o, Snapshot()) == WriteThrough(old(Snapshot()), Command.SerializeStructField(key))
    {
      Write(Command.SerializeStructField(key));
      return Pass;
    }

    /** The struct's `end`. */
    method SerializeStructEnd() returns (o: Outcome)
      requires Valid() && Fits(Snapshot(), |Encode(Command.SerializeStructEnd)|)
      modifies buf
      ensures Valid()
      ensures StepResult(o, Snapshot()) == WriteThrough(old(Snapshot()), Command.SerializeStructEnd)
    {
      Write(Command.SerializeStructEnd);
      return Pass;
    }

    /** The serializer method the value traversal calls for record c. */
    method Dispatch(c: Command) returns (o: Outcome)
      requires Valid() && Emitted(c) && Fits(Snapshot(), StepRoom(c))
      modifies this, buf
      ensures Valid()
      ensures StepResult(o, Snapshot()) == Step(old(Snapshot()), c)
    {
      match c
      case SerializeBool(v) => o := SerializeBool(v);
      case SerializeU8(v) => o := SerializeU8(v);
      case SerializeTuple(len) => o := SerializeTuple(len);
      case SerializeTupleElement => o := SerializeTupleElement();
      case SerializeTupleEnd => o := SerializeTupleEnd();
      case SerializeStruct(name, len) => o := SerializeStruct(name, len);
      case SerializeStructField(key) => o := SerializeStructField(key);
      case SerializeStructEnd => o := SerializeStructEnd();
    }

    /** `value.serialize(&mut serializer)`: the traversal's calls in order,
        ending at the first one that fails, as `?` does. */
    method SerializeValue(cs: seq<Command>) returns (o: Outcome)
      requires Valid() && Fits(Snapshot(), Budget(cs))
      requires forall i :: 0 <= i < |cs| ==> Emitted(cs[i])
      modifies this, buf
      ensures Valid()
      ensures StepResult(o, Snapshot()) == Run(old(Snapshot()), cs)
    {
      var i := 0;
      while i < |cs|
        invariant 0 <= i <= |cs| && Valid()
        invariant Fits(Snapshot(), Budget(cs[i..]))
        invariant Run(old(Snapshot()), cs) == Run(Snapshot(), cs[i..])
      {
        ghost var s := Snapshot();
        RunStep(s, cs[i..]);
        o := Dispatch(cs[i]);
        if o.Fail? {
          return;
        }
        assert cs[i..][1..] == cs[i + 1..];
        i := i + 1;
      }
      return Pass;
    }

    /** `finalize`: unless there is nothing to commit, seek to the end and
        write the trailer. */
    method Finalize()
      requires Valid() && Fits(Snapshot(), TrailerFrameMax)
      modifies buf
      ensures Valid()
      ensures Snapshot() == DiffStitch.Finalize(old(Snapshot()))
    {
      if newStitches == 0 && lastTrailerPos.Some? {
        return;
      }
      var end := buf.SeekEnd(0);
      var firstStitch := if newStitches != 0 then Some(firstStitchPos) else None;
      var trailer := Trailer(MAGIC, firstStitch, lastTrailerPos);
      TrailerFrameBound(trailer);
      Write(TrailerRecord(trailer));
      OverwriteAtEnd(old(buf.data), Encode(TrailerRecord(trailer)));
    }
  }

  /** The stitch `serialize_bool` writes first, to reserve its place: the
      right old_pos and zero for the two offsets not yet known. */
  function Placeholder(oldPos: nat): (c: Command)
    requires oldPos < TWO_64
    ensures |Encode(c)| == StitchFrameLen
  {
    StitchFrameWidth(Stitch(oldPos, 0, 0));
    StitchRecord(EncodeStitch(Stitch(oldPos, 0, 0)))
  }

  /** A pass over a non-empty list of calls is its first call and then,
      unless that failed, the pass over the rest, which has room to run. */
  lemma RunStep(s: Session, cs: seq<Command>)
    requires s.Valid() && Fits(s, Budget(cs)) && cs != []
    requires forall i :: 0 <= i < |cs| ==> Emitted(cs[i])
    ensures Fits(s, StepRoom(cs[0]))
    ensures Step(s, cs[0]).outcome.Pass? ==> Fits(Step(s, cs[0]).after, Budget(cs[1..]))
    ensures Run(s, cs) == if Step(s, cs[0]).outcome.Fail? then Step(s, cs[0]) else Run(Step(s, cs[0]).after, cs[1..])
  {
    assert Run(s, cs) == Continue(s, cs);
  }
}
