/** What one call of the serializer does to its session (src/ser.rs), as
    functions from the session before to the session after. The class
    Ser.Serializer performs the same steps with seeks and writes on its
    buffer and is proved to end in the state these functions give. */
module DiffStitch {
  import opened Primitives
  import opened Meta
  import opened Wire
  import opened State

  /** Why a call fails: a read error other than end of data (propagated by
      `?`), a mismatch the source leaves `unimplemented!()`, or the failed
      `assert_eq!` on the position of the session's first stitch. */
  datatype Error = ReadFailed | Unsupported | FirstStitchMismatch

  datatype Outcome = Pass | Fail(error: Error)

  /** The serializer's state: the stream, its cursor, and the session
      fields `first_stitch_pos`, `new_stitches` and `last_trailer_pos`. */
  datatype Session = Session(
    data: seq<byte>,
    cursor: nat,
    firstStitchPos: nat,
    newStitches: nat,
    lastTrailerPos: Option<u64>)
  {
    ghost predicate Valid()
    {
      cursor <= |data| < TWO_64 && firstStitchPos <= |data|
    }
  }

  datatype StepResult = StepResult(outcome: Outcome, after: Session)

  /** The stream can grow by n bytes with every offset still a u64. */
  predicate Fits(s: Session, n: nat)
  {
    |s.data| + n < TWO_64
  }

  /** The session `Serializer::from_state` builds over a buffer, before its
      call to `reset`. */
  function Fresh(data: seq<byte>): Session
  {
    Session(data, 0, 0, 0, None)
  }

  /** `reset`: rewind for a new pass and re-arm the session counters. */
  function Reset(s: Session): Session
  {
    s.(cursor := 0, firstStitchPos := |s.data|, newStitches := 0)
  }

  /** `write`: the record's bytes at the cursor, which ends just past them. */
  function WriteAt(s: Session, c: Command): (r: Session)
    requires s.Valid() && s.cursor + |Encode(c)| < TWO_64
    ensures r.Valid() && |r.data| <= |s.data| + |Encode(c)|
  {
    s.(data := Overwrite(s.data, s.cursor, Encode(c)), cursor := s.cursor + |Encode(c)|)
  }

  /** The rule of `serialize_u8`, `serialize_struct`, `serialize_field` and
      the struct `end`: write at the cursor whatever is stored there. */
  function WriteThrough(s: Session, c: Command): (r: StepResult)
    requires s.Valid() && Fits(s, |Encode(c)|)
    ensures r.after.Valid() && |r.after.data| <= |s.data| + |Encode(c)|
  {
    StepResult(Pass, WriteAt(s, c))
  }

  /** The rule of `serialize_tuple` and the tuple's `serialize_element` and
      `end`: append at end of data, skip an equal record, and give up on a
      different one. */
  function DiffOrFail(s: Session, c: Command): (r: StepResult)
    requires s.Valid() && Fits(s, |Encode(c)|)
    ensures r.after.Valid() && |r.after.data| <= |s.data| + |Encode(c)|
  {
    match ReadAs(s.data, s.cursor, KindOf(c))
    case Eof => StepResult(Pass, WriteAt(s, c))
    case Malformed => StepResult(Fail(ReadFailed), s)
    case Decoded(stored, n) =>
      if stored == c then StepResult(Pass, s.(cursor := s.cursor + n))
      else StepResult(Fail(Unsupported), s.(cursor := s.cursor + n))
  }

  /** Size of a stitch followed by a boolean record: what one stitched
      boolean adds to the stream. */
  const StitchedBoolLen: nat := StitchFrameLen + BoolFrameLen

  /** The stitch that redirects the boolean record at oldPos to a new one
      appended right after the stitch, at the end of data. */
  function StitchFor(data: seq<byte>, oldPos: nat): Stitch
    requires oldPos <= |data| && |data| + StitchedBoolLen < TWO_64
  {
    Stitch(oldPos, |data| + StitchFrameLen, |data| + StitchedBoolLen)
  }

  /** The stream after that stitch and then the new boolean are appended. */
  function Stitched(data: seq<byte>, oldPos: nat, v: bool): (r: seq<byte>)
    requires oldPos <= |data| && |data| + StitchedBoolLen < TWO_64
    ensures |r| == |data| + StitchedBoolLen
  {
    StitchFrameWidth(StitchFor(data, oldPos));
    data + Encode(StitchRecord(EncodeStitch(StitchFor(data, oldPos)))) + Encode(SerializeBool(v))
  }

  /** A stitched stream keeps every old byte. */
  lemma StitchedPrefix(data: seq<byte>, oldPos: nat, v: bool)
    requires oldPos <= |data| && |data| + StitchedBoolLen < TWO_64
    ensures Stitched(data, oldPos, v)[..|data|] == data
  {
  }

  /** The stitch at the old end of a stitched stream reads back as
      {old_pos, the offset after the stitch, the new end}. */
  lemma StitchedStitch(data: seq<byte>, oldPos: nat, v: bool)
    requires oldPos <= |data| && |data| + StitchedBoolLen < TWO_64
    ensures var r := ReadAs(Stitched(data, oldPos, v), |data|, StitchKind);
      && r.Decoded?
      && r.len == StitchFrameLen
      && DecodeStitch(r.cmd.stitch) == Ok(StitchFor(data, oldPos))
  {
    var stitch := StitchFor(data, oldPos);
    StitchFrameWidth(stitch);
    ReadAsBetween(data, StitchRecord(EncodeStitch(stitch)), Encode(SerializeBool(v)));
    DecodeEncodeStitch(stitch);
  }

  /** The new boolean follows the stitch. */
  lemma StitchedRecord(data: seq<byte>, oldPos: nat, v: bool)
    requires oldPos <= |data| && |data| + StitchedBoolLen < TWO_64
    ensures ReadAs(Stitched(data, oldPos, v), |data| + StitchFrameLen, BoolKind) == Decoded(SerializeBool(v), BoolFrameLen)
  {
    var stitch := StitchFor(data, oldPos);
    var head := data + Encode(StitchRecord(EncodeStitch(stitch)));
    StitchFrameWidth(stitch);
    assert Stitched(data, oldPos, v) == head + Encode(SerializeBool(v)) + [];
    ReadAsBetween(head, SerializeBool(v), []);
  }

  /** Records before the old end read the same after the stitch. */
  lemma StitchedKeeps(data: seq<byte>, oldPos: nat, v: bool, at: nat, stored: Command)
    requires oldPos <= |data| && |data| + StitchedBoolLen < TWO_64
    requires at + |Encode(stored)| <= |data| && data[at..at + |Encode(stored)|] == Encode(stored)
    ensures ReadAs(Stitched(data, oldPos, v), at, KindOf(stored)) == Decoded(stored, |Encode(stored)|)
  {
    var d := Stitched(data, oldPos, v);
    StitchedPrefix(data, oldPos, v);
    assert d[at..at + |Encode(stored)|] == data[at..at + |Encode(stored)|];
    ReadAsEncoded(stored, d, at, KindOf(stored));
  }

  /** The rule of `serialize_bool`. At end of data the record is appended;
      an equal stored record is skipped; a different one stays where it is,
      and a stitch pointing from it to a new copy of the record is appended,
      followed by that copy, while the cursor resumes just past the old
      record. */
  function DiffOrStitch(s: Session, v: bool): (r: StepResult)
    requires s.Valid() && Fits(s, StitchedBoolLen)
    ensures r.after.Valid() && |r.after.data| <= |s.data| + StitchedBoolLen
  {
    match ReadAs(s.data, s.cursor, BoolKind)
    case Eof => StepResult(Pass, WriteAt(s, SerializeBool(v)))
    case Malformed => StepResult(Fail(ReadFailed), s)
    case Decoded(stored, n) =>
      if stored == SerializeBool(v) then StepResult(Pass, s.(cursor := s.cursor + n))
      else
        var after := s.(data := Stitched(s.data, s.cursor, v),
                        cursor := s.cursor + n,
                        newStitches := s.newStitches + 1);
        StepResult(if s.newStitches == 0 && s.firstStitchPos != |s.data| then Fail(FirstStitchMismatch) else Pass, after)
  }

  /** A record the value traversal can ask for: not a stitch or a trailer. */
  predicate Emitted(c: Command)
  {
    !c.StitchRecord? && !c.TrailerRecord?
  }

  /** The most a call for c can grow the stream. */
  function StepRoom(c: Command): nat
  {
    if c.SerializeBool? then StitchedBoolLen else |Encode(c)|
  }

  /** One call of the serializer, dispatched on the record it emits. */
  function Step(s: Session, c: Command): (r: StepResult)
    requires s.Valid() && Emitted(c) && Fits(s, StepRoom(c))
    ensures r.after.Valid() && |r.after.data| <= |s.data| + StepRoom(c)
  {
    if c.SerializeBool? then DiffOrStitch(s, c.flag)
    else if c.SerializeTuple? || c.SerializeTupleElement? || c.SerializeTupleEnd? then DiffOrFail(s, c)
    else WriteThrough(s, c)
  }

  function Budget(cs: seq<Command>): nat
  {
    if cs == [] then 0 else StepRoom(cs[0]) + Budget(cs[1..])
  }

  /** The calls the value traversal makes for one value, in order; the
      first failure ends the run, as `?` does. */
  function Run(s: Session, cs: seq<Command>): (r: StepResult)
    requires s.Valid() && Fits(s, Budget(cs))
    requires forall i :: 0 <= i < |cs| ==> Emitted(cs[i])
    ensures r.after.Valid()
    decreases |cs|, 1
  {
    if cs == [] then StepResult(Pass, s) else Continue(s, cs)
  }

  /** A non-empty pass: the first call, then, unless it failed, the rest. */
  function Continue(s: Session, cs: seq<Command>): (r: StepResult)
    requires s.Valid() && Fits(s, Budget(cs)) && cs != []
    requires forall i :: 0 <= i < |cs| ==> Emitted(cs[i])
    ensures r.after.Valid()
    decreases |cs|, 0
  {
    var r := Step(s, cs[0]);
    if r.outcome.Fail? then r else Run(r.after, cs[1..])
  }

  /** The trailer `finalize` appends, or None when it has nothing to commit. */
  function SessionTrailer(s: Session): Option<Trailer>
    requires s.Valid()
  {
    if s.newStitches == 0 && s.lastTrailerPos.Some? then None
    else Some(Trailer(MAGIC, if s.newStitches != 0 then Some(s.firstStitchPos) else None, s.lastTrailerPos))
  }

  /** `finalize`. */
  function Finalize(s: Session): (r: Session)
    requires s.Valid() && Fits(s, TrailerFrameMax)
    ensures r.Valid()
  {
    match SessionTrailer(s)
    case None => s
    case Some(t) =>
      TrailerFrameBound(t);
      s.(data := s.data + Encode(TrailerRecord(t)), cursor := |s.data| + |Encode(TrailerRecord(t))|)
  }

  // ---------------------------------------------------------------------
  // Properties of one call
  // ---------------------------------------------------------------------

  /** At end of data every rule appends exactly the record, moves the cursor
      to the new end and counts no stitch. */
  lemma StepAtEnd(s: Session, c: Command)
    requires s.Valid() && Emitted(c) && Fits(s, StepRoom(c)) && s.cursor == |s.data|
    ensures Step(s, c) == StepResult(Pass, s.(data := s.data + Encode(c), cursor := |s.data| + |Encode(c)|))
  {
    OverwriteAtEnd(s.data, Encode(c));
  }

  /** When the record at the cursor equals the new one, `serialize_bool`
      changes no byte, counts no stitch and moves past the stored record. */
  lemma StitchSkipsEqual(s: Session, v: bool)
    requires s.Valid() && Fits(s, StitchedBoolLen)
    requires s.cursor + BoolFrameLen <= |s.data| && s.data[s.cursor..s.cursor + BoolFrameLen] == Encode(SerializeBool(v))
    ensures DiffOrStitch(s, v) == StepResult(Pass, s.(cursor := s.cursor + BoolFrameLen))
  {
    ReadAsEncoded(SerializeBool(v), s.data, s.cursor, BoolKind);
  }

  /** When the boolean at the cursor is the other value, `serialize_bool`
      leaves the stream stitched (see StitchedPrefix, StitchedStitch,
      StitchedRecord and StitchedKeeps for what that stream holds), resumes
      just past the stale record, counts one more stitch, and fails only on
      the session's first stitch when that stitch does not start at
      `first_stitch_pos`. */
  lemma StitchAppendsOnDivergence(s: Session, v: bool)
    requires s.Valid() && Fits(s, StitchedBoolLen)
    requires s.cursor + BoolFrameLen <= |s.data| && s.data[s.cursor..s.cursor + BoolFrameLen] == Encode(SerializeBool(!v))
    ensures DiffOrStitch(s, v) == StepResult(
      if s.newStitches == 0 && s.firstStitchPos != |s.data| then Fail(FirstStitchMismatch) else Pass,
      s.(data := Stitched(s.data, s.cursor, v), cursor := s.cursor + BoolFrameLen, newStitches := s.newStitches + 1))
  {
    ReadAsEncoded(SerializeBool(!v), s.data, s.cursor, BoolKind);
  }

  /** The tuple rule: at end of data it appends, on an equal record it only
      moves past it, and on a different record of the same type it fails as
      unsupported without touching a byte. */
  lemma DiffOrFailCases(s: Session, stored: Command, c: Command)
    requires s.Valid() && Fits(s, |Encode(c)|)
    requires s.cursor + |Encode(stored)| <= |s.data| && s.data[s.cursor..s.cursor + |Encode(stored)|] == Encode(stored)
    requires KindOf(stored) == KindOf(c)
    ensures stored == c ==> DiffOrFail(s, c) == StepResult(Pass, s.(cursor := s.cursor + |Encode(c)|))
    ensures stored != c ==> DiffOrFail(s, c).outcome == Fail(Unsupported) && DiffOrFail(s, c).after.data == s.data
  {
    ReadAsEncoded(stored, s.data, s.cursor, KindOf(c));
  }

  /** The unconditional rule changes only the bytes under the new record,
      and changes none of them when the same record is already there. */
  lemma WriteThroughCases(s: Session, c: Command)
    requires s.Valid() && Fits(s, |Encode(c)|)
    ensures var r := WriteThrough(s, c);
      && r.outcome == Pass
      && r.after.cursor == s.cursor + |Encode(c)|
      && r.after.data[s.cursor..s.cursor + |Encode(c)|] == Encode(c)
      && (forall i :: 0 <= i < s.cursor ==> r.after.data[i] == s.data[i])
      && (forall i :: s.cursor + |Encode(c)| <= i < |s.data| ==> r.after.data[i] == s.data[i])
      && (s.cursor + |Encode(c)| <= |s.data| && s.data[s.cursor..s.cursor + |Encode(c)|] == Encode(c)
          ==> r.after.data == s.data)
  {
    if s.cursor + |Encode(c)| <= |s.data| && s.data[s.cursor..s.cursor + |Encode(c)|] == Encode(c) {
      OverwriteSame(s.data, s.cursor, Encode(c));
    }
  }

  /** `finalize` is a no-op exactly when the session wrote no stitch and a
      trailer is already known. Otherwise it appends, after every existing
      byte, a trailer that reads back with the magic constant, the session's
      first stitch offset if and only if it wrote a stitch, and the previous
      trailer's offset, and leaves the cursor at the new end. */
  lemma FinalizeCommits(s: Session)
    requires s.Valid() && Fits(s, TrailerFrameMax)
    ensures Finalize(s) == s <==> s.newStitches == 0 && s.lastTrailerPos.Some?
    ensures !(s.newStitches == 0 && s.lastTrailerPos.Some?) ==>
      var r := Finalize(s);
      && |r.data| > |s.data|
      && r.data[..|s.data|] == s.data
      && r.cursor == |r.data|
      && ReadAs(r.data, |s.data|, TrailerKind).Decoded?
      && ReadAs(r.data, |s.data|, TrailerKind).len == |r.data| - |s.data|
      && var t := ReadAs(r.data, |s.data|, TrailerKind).cmd.trailer;
      && t.magic == MAGIC
      && (t.firstStitch.Some? <==> s.newStitches != 0)
      && (t.firstStitch.Some? ==> t.firstStitch.value == s.firstStitchPos)
      && t.prevTrailerPos == s.lastTrailerPos
  {
    match SessionTrailer(s)
    case None =>
    case Some(t) =>
      ReadAsBetween(s.data, TrailerRecord(t), []);
      assert s.data + Encode(TrailerRecord(t)) + [] == s.data + Encode(TrailerRecord(t));
  }

  // ---------------------------------------------------------------------
  // Properties of whole passes
  // ---------------------------------------------------------------------

  lemma AppendAssoc(a: seq<byte>, b: seq<byte>, c: seq<byte>)
    ensures (a + b) + c == a + (b + c)
  {
  }

  /** A pass whose first call succeeds continues from that call's session. */
  lemma RunCons(s: Session, cs: seq<Command>)
    requires s.Valid() && Fits(s, Budget(cs))
    requires forall i :: 0 <= i < |cs| ==> Emitted(cs[i])
    requires cs != [] && Step(s, cs[0]).outcome == Pass
    ensures Run(s, cs) == Run(Step(s, cs[0]).after, cs[1..])
  {
    assert Run(s, cs) == Continue(s, cs);
  }

  /** On a session at end of data (a new stream, or past the old one), a
      pass appends exactly the records of the value and writes no stitch. */
  lemma {:induction false} RunAtEnd(s: Session, cs: seq<Command>)
    requires s.Valid() && Fits(s, Budget(cs)) && s.cursor == |s.data|
    requires forall i :: 0 <= i < |cs| ==> Emitted(cs[i])
    ensures Run(s, cs) == StepResult(Pass, s.(data := s.data + EncodeAll(cs), cursor := |s.data| + |EncodeAll(cs)|))
    decreases |cs|
  {
    if cs != [] {
      var c := cs[0];
      StepAtEnd(s, c);
      var s1 := s.(data := s.data + Encode(c), cursor := |s.data| + |Encode(c)|);
      assert Run(s, cs) == Run(s1, cs[1..]);
      RunAtEnd(s1, cs[1..]);
      assert EncodeAll(cs) == Encode(c) + EncodeAll(cs[1..]);
      AppendAssoc(s.data, Encode(c), EncodeAll(cs[1..]));
    }
  }

  /** A new value has the shape of a stored one when the two emit the same
      records except, possibly, the values of booleans. */
  ghost predicate SameShape(stored: seq<Command>, cs: seq<Command>)
  {
    && |stored| == |cs|
    && forall i :: 0 <= i < |cs| ==>
         Emitted(cs[i]) && (stored[i] == cs[i] || (stored[i].SerializeBool? && cs[i].SerializeBool?))
  }

  /** Number of records in which two passes differ. */
  function Changed(stored: seq<Command>, cs: seq<Command>): nat
    requires |stored| == |cs|
  {
    if cs == [] then 0 else (if stored[0] != cs[0] then 1 else 0) + Changed(stored[1..], cs[1..])
  }

  /** Bytes a pass over stored records appends: one stitched boolean per
      changed record. */
  function Appended(stored: seq<Command>, cs: seq<Command>): nat
    requires |stored| == |cs|
  {
    if cs == [] then 0 else (if stored[0] != cs[0] then StitchedBoolLen else 0) + Appended(stored[1..], cs[1..])
  }

  lemma {:induction false} AppendedIsChanged(stored: seq<Command>, cs: seq<Command>)
    requires |stored| == |cs|
    ensures Appended(stored, cs) == Changed(stored, cs) * StitchedBoolLen
  {
    if cs != [] {
      AppendedIsChanged(stored[1..], cs[1..]);
    }
  }

  lemma SliceOfPrefix(a: seq<byte>, b: seq<byte>, i: nat, j: nat)
    requires i <= j <= |a| <= |b| && b[..|a|] == a
    ensures b[i..j] == a[i..j]
  {
    forall k | i <= k < j
      ensures b[k] == a[k]
    {
      assert b[k] == b[..|a|][k];
    }
  }

  lemma PrefixOfPrefix(a: seq<byte>, b: seq<byte>, c: seq<byte>)
    requires |a| <= |b| <= |c| && c[..|b|] == b && b[..|a|] == a
    ensures c[..|a|] == a
  {
    assert c[..|a|] == c[..|b|][..|a|];
  }

  lemma StepOverStored(s: Session, stored: Command, c: Command)
    requires s.Valid() && Emitted(c) && Fits(s, StepRoom(c))
    requires stored == c || (stored.SerializeBool? && c.SerializeBool?)
    requires s.cursor + |Encode(stored)| <= |s.data| && s.data[s.cursor..s.cursor + |Encode(stored)|] == Encode(stored)
    requires s.newStitches == 0 ==> s.firstStitchPos == |s.data|
    ensures var r := Step(s, c);
      && r.outcome == Pass
      && |r.after.data| == |s.data| + (if stored != c then StitchedBoolLen else 0)
      && r.after.data[..|s.data|] == s.data
      && r.after.cursor == s.cursor + |Encode(stored)|
      && r.after.newStitches == s.newStitches + (if stored != c then 1 else 0)
      && r.after.firstStitchPos == s.firstStitchPos
      && r.after.lastTrailerPos == s.lastTrailerPos
  {
    if c.SerializeBool? {
      if stored == c {
        StitchSkipsEqual(s, c.flag);
      } else {
        assert stored == SerializeBool(!c.flag);
        StitchAppendsOnDivergence(s, c.flag);
        StitchedPrefix(s.data, s.cursor, c.flag);
      }
    } else if c.SerializeTuple? || c.SerializeTupleElement? || c.SerializeTupleEnd? {
      DiffOrFailCases(s, stored, c);
    } else {
      OverwriteSame(s.data, s.cursor, Encode(c));
    }
  }

  /** Re-encoding, over stored records, a value of the same shape: the pass
      succeeds, appends one stitch and one boolean for each changed boolean
      and nothing else, leaves every existing byte as it was, counts exactly
      the changed booleans as new stitches, and ends with the cursor just
      past the stored records. The first-stitch check holds because nothing
      is appended before the first stitch. */
  lemma {:induction false} RunOverStored(s: Session, stored: seq<Command>, cs: seq<Command>)
    requires s.Valid() && SameShape(stored, cs) && Fits(s, Budget(cs))
    requires s.cursor + |EncodeAll(stored)| <= |s.data|
    requires s.data[s.cursor..s.cursor + |EncodeAll(stored)|] == EncodeAll(stored)
    requires s.newStitches == 0 ==> s.firstStitchPos == |s.data|
    ensures var r := Run(s, cs);
      && r.outcome == Pass
      && |r.after.data| == |s.data| + Appended(stored, cs)
      && r.after.data[..|s.data|] == s.data
      && r.after.cursor == s.cursor + |EncodeAll(stored)|
      && r.after.newStitches == s.newStitches + Changed(stored, cs)
      && r.after.firstStitchPos == s.firstStitchPos
      && r.after.lastTrailerPos == s.lastTrailerPos
    decreases |cs|
  {
    if cs != [] {
      var s1 := OverStoredHead(s, stored, cs);
      RunOverStored(s1, stored[1..], cs[1..]);
      PrefixOfPrefix(s.data, s1.data, Run(s1, cs[1..]).after.data);
    }
  }

  /** The first step of RunOverStored: the pass continues from a session
      that meets RunOverStored's requirements for the remaining records. */
  lemma OverStoredHead(s: Session, stored: seq<Command>, cs: seq<Command>) returns (s1: Session)
    requires s.Valid() && SameShape(stored, cs) && Fits(s, Budget(cs)) && cs != []
    requires s.cursor + |EncodeAll(stored)| <= |s.data|
    requires s.data[s.cursor..s.cursor + |EncodeAll(stored)|] == EncodeAll(stored)
    requires s.newStitches == 0 ==> s.firstStitchPos == |s.data|
    ensures s1.Valid() && SameShape(stored[1..], cs[1..]) && Fits(s1, Budget(cs[1..]))
    ensures Run(s, cs) == Run(s1, cs[1..])
    ensures |s1.data| == |s.data| + (if stored[0] != cs[0] then StitchedBoolLen else 0)
    ensures s1.data[..|s.data|] == s.data
    ensures s1.cursor == s.cursor + |Encode(stored[0])|
    ensures s1.newStitches == s.newStitches + (if stored[0] != cs[0] then 1 else 0)
    ensures s1.firstStitchPos == s.firstStitchPos && s1.lastTrailerPos == s.lastTrailerPos
    ensures s1.cursor + |EncodeAll(stored[1..])| <= |s1.data|
    ensures s1.data[s1.cursor..s1.cursor + |EncodeAll(stored[1..])|] == EncodeAll(stored[1..])
    ensures s1.newStitches == 0 ==> s1.firstStitchPos == |s1.data|
  {
    ShapeTail(stored, cs);
    s1 := HeadStep(s, stored[0], cs[0], EncodeAll(stored[1..]));
    RunCons(s, cs);
  }

  lemma ShapeTail(stored: seq<Command>, cs: seq<Command>)
    requires SameShape(stored, cs) && cs != []
    ensures SameShape(stored[1..], cs[1..]) && Budget(cs) == StepRoom(cs[0]) + Budget(cs[1..])
    ensures EncodeAll(stored) == Encode(stored[0]) + EncodeAll(stored[1..])
    ensures Emitted(cs[0]) && (stored[0] == cs[0] || (stored[0].SerializeBool? && cs[0].SerializeBool?))
  {
  }

  lemma HeadStep(s: Session, o: Command, c: Command, rest: seq<byte>) returns (s1: Session)
    requires s.Valid() && Emitted(c) && Fits(s, StepRoom(c))
    requires o == c || (o.SerializeBool? && c.SerializeBool?)
    requires s.cursor + |Encode(o) + rest| <= |s.data| && s.data[s.cursor..s.cursor + |Encode(o) + rest|] == Encode(o) + rest
    requires s.newStitches == 0 ==> s.firstStitchPos == |s.data|
    ensures Step(s, c) == StepResult(Pass, s1)
    ensures |s1.data| == |s.data| + (if o != c then StitchedBoolLen else 0)
    ensures s1.data[..|s.data|] == s.data
    ensures s1.cursor == s.cursor + |Encode(o)|
    ensures s1.newStitches == s.newStitches + (if o != c then 1 else 0)
    ensures s1.firstStitchPos == s.firstStitchPos && s1.lastTrailerPos == s.lastTrailerPos
    ensures s1.cursor + |rest| <= |s1.data| && s1.data[s1.cursor..s1.cursor + |rest|] == rest
  {
    SliceSplit(s.data, s.cursor, Encode(o), rest);
    StepOverStored(s, o, c);
    s1 := Step(s, c).after;
    SliceOfPrefix(s.data, s1.data, s1.cursor, s1.cursor + |rest|);
  }

  /** Re-encoding the value a stream already holds, after `reset`, changes
      no byte and writes no stitch. */
  lemma ReencodeIsIdempotent(s: Session, cs: seq<Command>)
    requires s.Valid() && Fits(s, Budget(cs)) && |EncodeAll(cs)| <= |s.data|
    requires s.data[..|EncodeAll(cs)|] == EncodeAll(cs)
    requires forall i :: 0 <= i < |cs| ==> Emitted(cs[i])
    ensures var r := Run(Reset(s), cs);
      && r.outcome == Pass
      && r.after.data == s.data
      && r.after.newStitches == 0
      && r.after.cursor == |EncodeAll(cs)|
  {
    assert SameShape(cs, cs);
    ChangedSelf(cs);
    AppendedIsChanged(cs, cs);
    var s0 := Reset(s);
    assert s0.data[0..|EncodeAll(cs)|] == EncodeAll(cs);
    RunOverStored(s0, cs, cs);
    var r := Run(s0, cs);
    assert r.after.data == r.after.data[..|s.data|];
  }

  lemma {:induction false} ChangedSelf(cs: seq<Command>)
    ensures Changed(cs, cs) == 0
  {
    if cs != [] {
      ChangedSelf(cs[1..]);
    }
  }

  /** The serializer never reads a stitch: after an update, the stale
      records stay where the next pass compares, so re-encoding the same new
      value after another `reset` stitches every changed boolean again. */
  lemma UpdateIsNotRemembered(s: Session, stored: seq<Command>, cs: seq<Command>)
    requires s.Valid() && SameShape(stored, cs)
    requires |EncodeAll(stored)| <= |s.data| && s.data[..|EncodeAll(stored)|] == EncodeAll(stored)
    requires |s.data| + Budget(cs) + Appended(stored, cs) < TWO_64
    ensures var first := Run(Reset(s), cs);
      && first.outcome == Pass
      && first.after.newStitches == Changed(stored, cs)
      && Fits(Reset(first.after), Budget(cs))
      && var second := Run(Reset(first.after), cs);
      && second.outcome == Pass
      && second.after.newStitches == Changed(stored, cs)
      && |second.after.data| == |s.data| + 2 * Appended(stored, cs)
  {
    var s0 := Reset(s);
    assert s0.data[0..|EncodeAll(stored)|] == EncodeAll(stored);
    RunOverStored(s0, stored, cs);
    var mid := Run(s0, cs).after;
    var s1 := Reset(mid);
    assert s1.data[0..|EncodeAll(stored)|] == s.data[0..|EncodeAll(stored)|] by {
      assert mid.data[..|s.data|] == s.data;
    }
    RunOverStored(s1, stored, cs);
  }
}
