/** `find_last_trailer` (src/meta.rs): a bounded scan of candidate offsets
    measured from the end of the stream for a trailer carrying MAGIC. */
module TrailerScan {
  import opened Primitives
  import opened Meta
  import opened Wire
  import opened State
  import LittleEndian

  /** Number of candidate offsets tried. */
  const ScanLimit: nat := 1000

  /** How the i-th candidate is placed: Forward is `SeekFrom::End(i)`, as
      the source writes it, at or past the end of the stream; Backward is
      `SeekFrom::End(-i)`, stepping back from the end. */
  datatype Direction = Forward | Backward

  /** Why the scan fails: a seek to an offset below zero or beyond 64 bits
      (propagated by `?`), or no candidate held a trailer. */
  datatype ScanError = SeekFailed | NotFound

  /** The argument of the i-th `SeekFrom::End`. */
  function Offset(i: nat, d: Direction): int
  {
    if d.Forward? then i else -(i as int)
  }

  /** The offset of the i-th candidate in a stream of len bytes. */
  function Candidate(len: nat, i: nat, d: Direction): int
  {
    len + Offset(i, d)
  }

  /** A trailer carrying MAGIC can be read at p. */
  ghost predicate TrailerAt(data: seq<byte>, p: nat)
  {
    var r := ReadAs(data, p, TrailerKind);
    r.Decoded? && r.cmd.trailer.magic == MAGIC
  }

  /** The scan from the i-th candidate on: the first candidate holding a
      trailer with MAGIC, with its offset. */
  function ScanFrom(data: seq<byte>, i: nat, d: Direction): Result<(Trailer, u64), ScanError>
    requires |data| < TWO_64 && i <= ScanLimit
    decreases ScanLimit - i
  {
    if i == ScanLimit then Err(NotFound)
    else
      var p := Candidate(|data|, i, d);
      if !(0 <= p < TWO_64) then Err(SeekFailed)
      else
        match ReadAs(data, p, TrailerKind)
        case Decoded(c, _) =>
          if c.trailer.magic == MAGIC then Ok((c.trailer, p)) else ScanFrom(data, i + 1, d)
        case _ => ScanFrom(data, i + 1, d)
  }

  /** What `find_last_trailer` returns for a stream: no trailer for an empty
      one, otherwise the result of the scan. */
  function LastTrailer(data: seq<byte>, d: Direction): Result<Option<(Trailer, u64)>, ScanError>
    requires |data| < TWO_64
  {
    if |data| == 0 then Ok(None)
    else
      match ScanFrom(data, 0, d)
      case Ok(found) => Ok(Some(found))
      case Err(e) => Err(e)
  }

  /** `find_last_trailer`, with the candidates placed as d says. The bytes
      are never changed. The cursor is put back where it was on entry
      whenever a trailer is found or the candidates run out; an empty stream
      returns early and leaves the cursor at offset 0. */
  method FindLastTrailer(buf: Buffer, d: Direction) returns (r: Result<Option<(Trailer, u64)>, ScanError>)
    requires buf.Valid()
    modifies buf`cursor
    ensures buf.Valid() && buf.data == old(buf.data)
    ensures r == LastTrailer(buf.data, d)
    ensures |buf.data| == 0 ==> buf.cursor == 0
    ensures |buf.data| != 0 && (r.Ok? || r == Err(NotFound)) ==> buf.cursor == old(buf.cursor)
  {
    var origPos := buf.Position();
    var end := buf.SeekEnd(0);
    if end.value == 0 {
      return Ok(None);
    }
    var found := ScanCandidates(buf, d);
    match found
    case Ok(hit) =>
      buf.SeekStart(origPos);
      return Ok(Some(hit));
    case Err(SeekFailed) =>
      return Err(SeekFailed);
    case Err(NotFound) =>
      buf.SeekStart(origPos);
      return Err(NotFound);
  }

  /** The loop of `find_last_trailer`: seek to each candidate in turn and
      stop at the first that reads as a trailer carrying MAGIC. */
  method ScanCandidates(buf: Buffer, d: Direction) returns (r: Result<(Trailer, u64), ScanError>)
    requires buf.Valid()
    modifies buf`cursor
    ensures buf.Valid() && buf.data == old(buf.data)
    ensures r == ScanFrom(buf.data, 0, d)
  {
    var i := 0;
    while i < ScanLimit
      invariant 0 <= i <= ScanLimit
      invariant buf.Valid() && buf.data == old(buf.data)
      invariant ScanFrom(buf.data, 0, d) == ScanFrom(buf.data, i, d)
    {
      var pos := buf.SeekEnd(Offset(i, d));
      if pos.Err? {
        return Err(SeekFailed);
      }
      var t := buf.Read(TrailerKind);
      assert pos.value == Candidate(|buf.data|, i, d);
      ScanStep(buf.data, i, d);
      if t.Decoded? && t.cmd.trailer.magic == MAGIC {
        return Ok((t.cmd.trailer, pos.value));
      }
      i := i + 1;
    }
    return Err(NotFound);
  }

  /** One candidate of the scan: the trailer read there if it carries
      MAGIC, otherwise the scan from the next candidate. */
  lemma ScanStep(data: seq<byte>, i: nat, d: Direction)
    requires |data| < TWO_64 && i < ScanLimit && 0 <= Candidate(|data|, i, d) < TWO_64
    ensures var p := Candidate(|data|, i, d);
      var t := ReadAs(data, p, TrailerKind);
      ScanFrom(data, i, d) == if t.Decoded? && t.cmd.trailer.magic == MAGIC then Ok((t.cmd.trailer, p)) else ScanFrom(data, i + 1, d)
  {
  }

  /** Whatever the direction, the scan only returns a trailer that carries
      MAGIC and is read at the offset returned with it. */
  lemma {:induction false} ScanFound(data: seq<byte>, i: nat, d: Direction)
    requires |data| < TWO_64 && i <= ScanLimit && ScanFrom(data, i, d).Ok?
    ensures var (t, p) := ScanFrom(data, i, d).value;
      TrailerAt(data, p) && ReadAs(data, p, TrailerKind).cmd == TrailerRecord(t)
    decreases ScanLimit - i
  {
    ScanOkInRange(data, i, d);
    ScanStep(data, i, d);
    var p := Candidate(|data|, i, d);
    if !TrailerAt(data, p) {
      ScanFound(data, i + 1, d);
    }
  }

  /** A scan that succeeds from the i-th candidate had a candidate there. */
  lemma ScanOkInRange(data: seq<byte>, i: nat, d: Direction)
    requires |data| < TWO_64 && i <= ScanLimit && ScanFrom(data, i, d).Ok?
    ensures i < ScanLimit && 0 <= Candidate(|data|, i, d) < TWO_64
  {
  }

  /** A trailer starts with the trailer tag byte. */
  lemma TrailerTag(data: seq<byte>, p: nat)
    requires TrailerAt(data, p)
    ensures p < |data| && data[p] == Tag(TrailerKind)
  {
  }

  // ---------------------------------------------------------------------
  // The scan as written
  // ---------------------------------------------------------------------

  /** No trailer starts at or past the end of the data. */
  lemma NothingPastEnd(data: seq<byte>, p: nat)
    requires p >= |data|
    ensures !TrailerAt(data, p)
  {
  }

  lemma {:induction false} ForwardScanFails(data: seq<byte>, i: nat)
    requires |data| + ScanLimit < TWO_64 && i <= ScanLimit
    ensures ScanFrom(data, i, Forward) == Err(NotFound)
    decreases ScanLimit - i
  {
    if i < ScanLimit {
      NothingPastEnd(data, |data| + i);
      ForwardScanFails(data, i + 1);
    }
  }

  /** As written, every candidate lies at or past the end of the data, so
      on a non-empty stream the scan never finds a trailer, wherever one is. */
  lemma ForwardScanNeverFinds(data: seq<byte>)
    requires 0 < |data| && |data| + ScanLimit < TWO_64
    ensures LastTrailer(data, Forward) == Err(NotFound)
  {
    ForwardScanFails(data, 0);
  }

  // ---------------------------------------------------------------------
  // The scan with candidates before the end
  // ---------------------------------------------------------------------

  /** Stepping back from the end, a trailer the scan returns starts within
      its window and no trailer starts after it. */
  lemma {:induction false} BackwardFound(data: seq<byte>, i: nat)
    requires |data| < TWO_64 && i <= ScanLimit
    requires forall q: nat :: |data| - i < q <= |data| ==> !TrailerAt(data, q)
    requires ScanFrom(data, i, Backward).Ok?
    ensures var p := ScanFrom(data, i, Backward).value.1;
      && |data| - ScanLimit < p <= |data| - i
      && forall q: nat :: p < q <= |data| ==> !TrailerAt(data, q)
    decreases ScanLimit - i
  {
    ScanOkInRange(data, i, Backward);
    var p: nat := |data| - i;
    ScanStep(data, i, Backward);
    if !TrailerAt(data, p) {
      BackwardFound(data, i + 1);
    }
  }

  /** Stepping back from the end, the scan fails only when no trailer
      starts in its window. */
  lemma {:induction false} BackwardMissed(data: seq<byte>, i: nat)
    requires |data| < TWO_64 && i <= ScanLimit
    requires forall q: nat :: |data| - i < q <= |data| ==> !TrailerAt(data, q)
    requires ScanFrom(data, i, Backward).Err?
    ensures forall q: nat :: |data| - ScanLimit < q <= |data| ==> !TrailerAt(data, q)
    decreases ScanLimit - i
  {
    if i < ScanLimit && i <= |data| {
      BackwardMissed(data, i + 1);
    }
  }

  /** A failing backward scan reports a failed seek exactly when the stream
      is shorter than the window, so that it steps below offset 0 before
      its candidates run out. */
  lemma {:induction false} BackwardError(data: seq<byte>, i: nat)
    requires |data| < TWO_64 && i <= ScanLimit && i <= |data| + 1
    requires ScanFrom(data, i, Backward).Err?
    ensures ScanFrom(data, i, Backward).error == SeekFailed <==> |data| + 1 < ScanLimit
    decreases ScanLimit - i
  {
    if i < ScanLimit && i <= |data| {
      BackwardError(data, i + 1);
    }
  }

  /** The corrected scan finds the last trailer carrying MAGIC that starts
      within ScanLimit bytes of the end: what it returns is such a trailer,
      none starts after it, and when one exists it returns one. */
  lemma BackwardScanFindsLast(data: seq<byte>)
    requires 0 < |data| < TWO_64
    ensures LastTrailer(data, Backward).Ok? ==> LastTrailer(data, Backward).value.Some?
    ensures LastTrailer(data, Backward).Ok? ==>
      var (t, p) := LastTrailer(data, Backward).value.value;
      && t.magic == MAGIC
      && ReadAs(data, p, TrailerKind).Decoded?
      && ReadAs(data, p, TrailerKind).cmd == TrailerRecord(t)
      && |data| - p < ScanLimit
      && forall q: nat :: p < q < |data| ==> !TrailerAt(data, q)
    ensures (exists q: nat :: |data| - ScanLimit < q < |data| && TrailerAt(data, q)) <==> LastTrailer(data, Backward).Ok?
    ensures LastTrailer(data, Backward) == Err(SeekFailed) <==> !LastTrailer(data, Backward).Ok? && |data| + 1 < ScanLimit
  {
    if ScanFrom(data, 0, Backward).Ok? {
      ScanFound(data, 0, Backward);
      BackwardFound(data, 0);
    } else {
      BackwardMissed(data, 0);
      BackwardError(data, 0);
    }
  }

  /** A stream holding one committed trailer and nothing else: the scan as
      written reports that there is no trailer, while the corrected scan
      returns it. */
  lemma SoleTrailerMissed()
    ensures var t := Trailer(MAGIC, None, None);
      && var data := Encode(TrailerRecord(t));
      && TrailerAt(data, 0)
      && LastTrailer(data, Forward) == Err(NotFound)
      && LastTrailer(data, Backward) == Ok(Some((t, 0)))
  {
    var t := Trailer(MAGIC, None, None);
    var data := Encode(TrailerRecord(t));
    assert data[0..|Encode(TrailerRecord(t))|] == Encode(TrailerRecord(t));
    ReadAsEncoded(TrailerRecord(t), data, 0, TrailerKind);
    ForwardScanNeverFinds(data);
    BackwardScanFindsLast(data);
    SoleTrailerOnly();
    assert TrailerAt(data, 0);
    var found := LastTrailer(data, Backward).value.value;
    assert TrailerAt(data, found.1);
  }

  /** In that stream no trailer starts after offset 0: none of the other
      bytes is the trailer tag. */
  lemma SoleTrailerOnly()
    ensures var data := Encode(TrailerRecord(Trailer(MAGIC, None, None)));
      forall q: nat :: 0 < q ==> !TrailerAt(data, q)
  {
    var data := Encode(TrailerRecord(Trailer(MAGIC, None, None)));
    MagicBytes();
    assert data == [10, 0xf8, 0x33, 0x77, 0x41, 0x4c, 0x4f, 0x12, 0x84, 0, 0];
    forall q: nat | 0 < q
      ensures !TrailerAt(data, q)
    {
      if TrailerAt(data, q) {
        TrailerTag(data, q);
      }
    }
  }

  /** The eight little-endian bytes of MAGIC. */
  lemma MagicBytes()
    ensures EncodeU64(MAGIC) == [0xf8, 0x33, 0x77, 0x41, 0x4c, 0x4f, 0x12, 0x84]
  {
    var x := MAGIC;
    assert LittleEndian.ToBytes(x / 0x100000000000000, 1) == [0x84];
    assert LittleEndian.ToBytes(x / 0x1000000000000, 2) == [0x12, 0x84];
    assert LittleEndian.ToBytes(x / 0x10000000000, 3) == [0x4f, 0x12, 0x84];
    assert LittleEndian.ToBytes(x / 0x100000000, 4) == [0x4c, 0x4f, 0x12, 0x84];
    assert LittleEndian.ToBytes(x / 0x1000000, 5) == [0x41, 0x4c, 0x4f, 0x12, 0x84];
    assert LittleEndian.ToBytes(x / 0x10000, 6) == [0x77, 0x41, 0x4c, 0x4f, 0x12, 0x84];
    assert LittleEndian.ToBytes(x / 0x100, 7) == [0x33, 0x77, 0x41, 0x4c, 0x4f, 0x12, 0x84];
  }
}
