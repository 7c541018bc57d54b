/** The records of the stream (src/scmd.rs, src/dcmd.rs and the Stitch and
    Trailer of src/meta.rs) and their byte framing.

    The source writes each record as serde_json text. Here each record is a
    tag byte followed by its fields:
    - u64 values are eight little-endian bytes;
    - strings are a u64 length and then the bytes;
    - options are a marker byte, 0 for None or 1 for Some, then the value.

    This framing has the properties the stitching relies on: records are
    self-delimiting, and a record can be read back at the offset where it
    starts. It also has properties serde_json text lacks. In this framing,
    and not in the source's text, a record's size depends only on the sizes
    of its strings, so both boolean records have the same size. */
module Wire {
  import opened Primitives
  import opened Meta
  import LittleEndian

  /** One record of the stream. The first eight are the commands the
      serializer emits, one per call from the value traversal. */
  datatype Command =
    | SerializeBool(flag: bool)
    | SerializeU8(v: byte)
    | SerializeTuple(len: u64)
    | SerializeTupleElement
    | SerializeTupleEnd
    | SerializeStruct(name: Str, len: u64)
    | SerializeStructField(key: Str)
    | SerializeStructEnd
    | StitchRecord(stitch: FixedSizeStitch)
    | TrailerRecord(trailer: Trailer)

  /** The Rust type a record is read as (`read::<T>()`). */
  datatype Kind =
    | BoolKind | U8Kind | TupleKind | TupleElementKind | TupleEndKind
    | StructKind | StructFieldKind | StructEndKind | StitchKind | TrailerKind

  function KindOf(c: Command): Kind
  {
    match c
    case SerializeBool(_) => BoolKind
    case SerializeU8(_) => U8Kind
    case SerializeTuple(_) => TupleKind
    case SerializeTupleElement => TupleElementKind
    case SerializeTupleEnd => TupleEndKind
    case SerializeStruct(_, _) => StructKind
    case SerializeStructField(_) => StructFieldKind
    case SerializeStructEnd => StructEndKind
    case StitchRecord(_) => StitchKind
    case TrailerRecord(_) => TrailerKind
  }

  function Tag(k: Kind): byte
  {
    match k
    case BoolKind => 1
    case U8Kind => 2
    case TupleKind => 3
    case TupleElementKind => 4
    case TupleEndKind => 5
    case StructKind => 6
    case StructFieldKind => 7
    case StructEndKind => 8
    case StitchKind => 9
    case TrailerKind => 10
  }

  /** The outcome of reading one record: the record and its size, the end
      of the data (`cmd_eof()`), or bytes that are not a record of the
      expected type. */
  datatype ReadResult = Decoded(cmd: Command, len: nat) | Eof | Malformed

  function EncodeU64(x: u64): seq<byte>
  {
    LittleEndian.WriteU64(x)
  }

  function EncodeStr(s: Str): seq<byte>
  {
    EncodeU64(|s|) + s
  }

  function EncodeOpt(o: Option<u64>): seq<byte>
  {
    match o
    case None => [0]
    case Some(x) => [1] + EncodeU64(x)
  }

  function Payload(c: Command): seq<byte>
  {
    match c
    case SerializeBool(flag) => [if flag then 1 else 0]
    case SerializeU8(v) => [v]
    case SerializeTuple(len) => EncodeU64(len)
    case SerializeTupleElement => []
    case SerializeTupleEnd => []
    case SerializeStruct(name, len) => EncodeStr(name) + EncodeU64(len)
    case SerializeStructField(key) => EncodeStr(key)
    case SerializeStructEnd => []
    case StitchRecord(f) => EncodeStr(f.oldPos) + EncodeStr(f.newPos) + EncodeStr(f.nextStitchPos)
    case TrailerRecord(t) => EncodeU64(t.magic) + EncodeOpt(t.firstStitch) + EncodeOpt(t.prevTrailerPos)
  }

  /** The bytes `write` appends for a record. */
  function Encode(c: Command): (b: seq<byte>)
    ensures |b| > 0 && b[0] == Tag(KindOf(c))
  {
    [Tag(KindOf(c))] + Payload(c)
  }

  /** The bytes of a whole sequence of records, one after another. */
  function EncodeAll(cs: seq<Command>): (b: seq<byte>)
    ensures |b| >= |cs|
  {
    if cs == [] then [] else Encode(cs[0]) + EncodeAll(cs[1..])
  }

  /** Size of every encoded stitch record: a tag and three length-prefixed
      sixteen-character fields. */
  const StitchFrameLen: nat := 1 + 3 * (8 + FieldWidth)

  /** Size of an encoded SerializeBool record. */
  const BoolFrameLen: nat := 2

  /** Upper bound on the size of an encoded trailer record. */
  const TrailerFrameMax: nat := 1 + 8 + 9 + 9

  lemma StitchFrameWidth(s: Stitch)
    ensures |Encode(StitchRecord(EncodeStitch(s)))| == StitchFrameLen
  {
  }

  lemma TrailerFrameBound(t: Trailer)
    ensures |Encode(TrailerRecord(t))| <= TrailerFrameMax
  {
  }

  function ParseU64(buf: seq<byte>, at: nat): (r: Option<(u64, nat)>)
    ensures r.Some? ==> r.value.1 == at + 8 <= |buf|
  {
    if at + 8 <= |buf| then Some((LittleEndian.ReadU64(buf[at..at + 8]), at + 8)) else None
  }

  function ParseStr(buf: seq<byte>, at: nat): (r: Option<(Str, nat)>)
    ensures r.Some? ==> at + 8 <= r.value.1 <= |buf|
  {
    match ParseU64(buf, at)
    case None => None
    case Some((n, p)) => if p + n <= |buf| then Some((buf[p..p + n], p + n)) else None
  }

  function ParseOpt(buf: seq<byte>, at: nat): (r: Option<(Option<u64>, nat)>)
    ensures r.Some? ==> at < r.value.1 <= |buf|
  {
    if at >= |buf| then None
    else if buf[at] == 0 then Some((None, at + 1))
    else if buf[at] == 1 then
      (match ParseU64(buf, at + 1)
       case None => None
       case Some((x, p)) => Some((Some(x), p)))
    else None
  }

  function ParseTuple(buf: seq<byte>, at: nat): (r: Option<(Command, nat)>)
    ensures r.Some? ==> at <= r.value.1 <= |buf| && r.value.0.SerializeTuple?
  {
    match ParseU64(buf, at)
    case None => None
    case Some((n, p)) => Some((SerializeTuple(n), p))
  }

  function ParseField(buf: seq<byte>, at: nat): (r: Option<(Command, nat)>)
    ensures r.Some? ==> at <= r.value.1 <= |buf| && r.value.0.SerializeStructField?
  {
    match ParseStr(buf, at)
    case None => None
    case Some((key, p)) => Some((SerializeStructField(key), p))
  }

  function ParseStruct(buf: seq<byte>, at: nat): (r: Option<(Command, nat)>)
    ensures r.Some? ==> at <= r.value.1 <= |buf| && r.value.0.SerializeStruct?
  {
    match ParseStr(buf, at)
    case None => None
    case Some((name, p)) =>
      match ParseU64(buf, p)
      case None => None
      case Some((n, q)) => Some((SerializeStruct(name, n), q))
  }

  function ParseStitch(buf: seq<byte>, at: nat): (r: Option<(Command, nat)>)
    ensures r.Some? ==> at <= r.value.1 <= |buf| && r.value.0.StitchRecord?
  {
    match ParseStr(buf, at)
    case None => None
    case Some((a, p)) =>
      match ParseStr(buf, p)
      case None => None
      case Some((b, q)) =>
        match ParseStr(buf, q)
        case None => None
        case Some((c, e)) => Some((StitchRecord(FixedSizeStitch(a, b, c)), e))
  }

  function ParseTrailer(buf: seq<byte>, at: nat): (r: Option<(Command, nat)>)
    ensures r.Some? ==> at <= r.value.1 <= |buf| && r.value.0.TrailerRecord?
  {
    match ParseU64(buf, at)
    case None => None
    case Some((magic, p)) =>
      match ParseOpt(buf, p)
      case None => None
      case Some((first, q)) =>
        match ParseOpt(buf, q)
        case None => None
        case Some((prev, e)) => Some((TrailerRecord(Trailer(magic, first, prev)), e))
  }

  /** The fields of a record of kind k that start at at, and the offset just past them. */
  function ParsePayload(buf: seq<byte>, k: Kind, at: nat): (r: Option<(Command, nat)>)
    requires at <= |buf|
    ensures r.Some? ==> at <= r.value.1 <= |buf| && KindOf(r.value.0) == k
  {
    match k
    case BoolKind => if at < |buf| && buf[at] < 2 then Some((SerializeBool(buf[at] == 1), at + 1)) else None
    case U8Kind => if at < |buf| then Some((SerializeU8(buf[at]), at + 1)) else None
    case TupleKind => ParseTuple(buf, at)
    case TupleElementKind => Some((SerializeTupleElement, at))
    case TupleEndKind => Some((SerializeTupleEnd, at))
    case StructKind => ParseStruct(buf, at)
    case StructFieldKind => ParseField(buf, at)
    case StructEndKind => Some((SerializeStructEnd, at))
    case StitchKind => ParseStitch(buf, at)
    case TrailerKind => ParseTrailer(buf, at)
  }

  /** `read::<T>()` at pos, for the type of kind k: end of data, or the
      record if the tag announces type k and its fields parse; a record of
      another type is a read error like any other. */
  function ReadAs(buf: seq<byte>, pos: nat, k: Kind): (r: ReadResult)
    ensures r.Decoded? ==> KindOf(r.cmd) == k && 0 < r.len && pos + r.len <= |buf|
    ensures r.Eof? <==> pos >= |buf|
  {
    if pos >= |buf| then Eof
    else if buf[pos] != Tag(k) then Malformed
    else
      match ParsePayload(buf, k, pos + 1)
      case None => Malformed
      case Some((c, e)) => Decoded(c, e - pos)
  }

  lemma SliceSplit(buf: seq<byte>, at: nat, a: seq<byte>, b: seq<byte>)
    requires at + |a| + |b| <= |buf| && buf[at..at + |a| + |b|] == a + b
    ensures buf[at..at + |a|] == a && buf[at + |a|..at + |a| + |b|] == b
  {
    assert buf[at..at + |a|] == buf[at..at + |a| + |b|][..|a|];
    assert buf[at + |a|..at + |a| + |b|] == buf[at..at + |a| + |b|][|a|..];
  }

  lemma ParseU64Of(buf: seq<byte>, at: nat, x: u64)
    requires at + 8 <= |buf| && buf[at..at + 8] == EncodeU64(x)
    ensures ParseU64(buf, at) == Some((x, at + 8))
  {
    LittleEndian.ReadWriteU64(x);
  }

  lemma ParseStrOf(buf: seq<byte>, at: nat, s: Str)
    requires at + |EncodeStr(s)| <= |buf| && buf[at..at + |EncodeStr(s)|] == EncodeStr(s)
    ensures ParseStr(buf, at) == Some((s, at + |EncodeStr(s)|))
  {
    SliceSplit(buf, at, EncodeU64(|s|), s);
    ParseU64Of(buf, at, |s|);
  }

  lemma ParseOptOf(buf: seq<byte>, at: nat, o: Option<u64>)
    requires at + |EncodeOpt(o)| <= |buf| && buf[at..at + |EncodeOpt(o)|] == EncodeOpt(o)
    ensures ParseOpt(buf, at) == Some((o, at + |EncodeOpt(o)|))
  {
    assert buf[at] == EncodeOpt(o)[0];
    if o.Some? {
      SliceSplit(buf, at, [1], EncodeU64(o.value));
      ParseU64Of(buf, at + 1, o.value);
    }
  }

  lemma ParseStructOf(buf: seq<byte>, at: nat, name: Str, len: u64)
    requires at + |EncodeStr(name) + EncodeU64(len)| <= |buf|
    requires buf[at..at + |EncodeStr(name) + EncodeU64(len)|] == EncodeStr(name) + EncodeU64(len)
    ensures ParseStruct(buf, at) == Some((SerializeStruct(name, len), at + |EncodeStr(name) + EncodeU64(len)|))
  {
    SliceSplit(buf, at, EncodeStr(name), EncodeU64(len));
    ParseStrOf(buf, at, name);
    ParseU64Of(buf, at + |EncodeStr(name)|, len);
  }

  lemma SliceSplit3(buf: seq<byte>, at: nat, a: seq<byte>, b: seq<byte>, d: seq<byte>)
    requires at + |a| + |b| + |d| <= |buf| && buf[at..at + |a| + |b| + |d|] == a + b + d
    ensures buf[at..at + |a|] == a
    ensures buf[at + |a|..at + |a| + |b|] == b
    ensures buf[at + |a| + |b|..at + |a| + |b| + |d|] == d
  {
    SliceSplit(buf, at, a + b, d);
    SliceSplit(buf, at, a, b);
  }

  lemma ParseStitchOf(buf: seq<byte>, at: nat, f: FixedSizeStitch)
    requires at + |Payload(StitchRecord(f))| <= |buf|
    requires buf[at..at + |Payload(StitchRecord(f))|] == Payload(StitchRecord(f))
    ensures ParseStitch(buf, at) == Some((StitchRecord(f), at + |Payload(StitchRecord(f))|))
  {
    var a, b, d := EncodeStr(f.oldPos), EncodeStr(f.newPos), EncodeStr(f.nextStitchPos);
    assert Payload(StitchRecord(f)) == a + b + d;
    var p := at + |a|;
    var q := p + |b|;
    SliceSplit3(buf, at, a, b, d);
    ParseStrOf(buf, at, f.oldPos);
    ParseStrOf(buf, p, f.newPos);
    ParseStrOf(buf, q, f.nextStitchPos);
  }

  lemma ParseTrailerOf(buf: seq<byte>, at: nat, t: Trailer)
    requires at + |Payload(TrailerRecord(t))| <= |buf|
    requires buf[at..at + |Payload(TrailerRecord(t))|] == Payload(TrailerRecord(t))
    ensures ParseTrailer(buf, at) == Some((TrailerRecord(t), at + |Payload(TrailerRecord(t))|))
  {
    var a, b, d := EncodeU64(t.magic), EncodeOpt(t.firstStitch), EncodeOpt(t.prevTrailerPos);
    SliceSplit(buf, at, a + b, d);
    SliceSplit(buf, at, a, b);
    ParseU64Of(buf, at, t.magic);
    ParseOptOf(buf, at + |a|, t.firstStitch);
    ParseOptOf(buf, at + |a| + |b|, t.prevTrailerPos);
  }

  lemma ParsePayloadOf(buf: seq<byte>, at: nat, c: Command)
    requires at + |Payload(c)| <= |buf| && buf[at..at + |Payload(c)|] == Payload(c)
    ensures ParsePayload(buf, KindOf(c), at) == Some((c, at + |Payload(c)|))
  {
    if c.StitchRecord? {
      StitchPayloadOf(buf, at, c);
    } else if c.TrailerRecord? {
      TrailerPayloadOf(buf, at, c);
    } else if c.SerializeStruct? {
      StructPayloadOf(buf, at, c);
    } else if c.SerializeTuple? || c.SerializeStructField? {
      ParseOneFieldOf(buf, at, c);
    } else {
      ParseByteOf(buf, at, c);
    }
  }

  lemma StitchPayloadOf(buf: seq<byte>, at: nat, c: Command)
    requires c.StitchRecord?
    requires at + |Payload(c)| <= |buf| && buf[at..at + |Payload(c)|] == Payload(c)
    ensures ParsePayload(buf, KindOf(c), at) == Some((c, at + |Payload(c)|))
  {
    ParseStitchOf(buf, at, c.stitch);
  }

  lemma TrailerPayloadOf(buf: seq<byte>, at: nat, c: Command)
    requires c.TrailerRecord?
    requires at + |Payload(c)| <= |buf| && buf[at..at + |Payload(c)|] == Payload(c)
    ensures ParsePayload(buf, KindOf(c), at) == Some((c, at + |Payload(c)|))
  {
    ParseTrailerOf(buf, at, c.trailer);
  }

  lemma StructPayloadOf(buf: seq<byte>, at: nat, c: Command)
    requires c.SerializeStruct?
    requires at + |Payload(c)| <= |buf| && buf[at..at + |Payload(c)|] == Payload(c)
    ensures ParsePayload(buf, KindOf(c), at) == Some((c, at + |Payload(c)|))
  {
    ParseStructOf(buf, at, c.name, c.len);
  }

  /** ParsePayloadOf for the records with one length or one string. */
  lemma ParseOneFieldOf(buf: seq<byte>, at: nat, c: Command)
    requires c.SerializeTuple? || c.SerializeStructField?
    requires at + |Payload(c)| <= |buf| && buf[at..at + |Payload(c)|] == Payload(c)
    ensures ParsePayload(buf, KindOf(c), at) == Some((c, at + |Payload(c)|))
  {
    if c.SerializeTuple? {
      ParseU64Of(buf, at, c.len);
    } else {
      ParseStrOf(buf, at, c.key);
    }
  }

  /** ParsePayloadOf for the records with at most one byte of payload. */
  lemma ParseByteOf(buf: seq<byte>, at: nat, c: Command)
    requires c.SerializeBool? || c.SerializeU8? || c.SerializeTupleElement? || c.SerializeTupleEnd? || c.SerializeStructEnd?
    requires at + |Payload(c)| <= |buf| && buf[at..at + |Payload(c)|] == Payload(c)
    ensures ParsePayload(buf, KindOf(c), at) == Some((c, at + |Payload(c)|))
  {
    if c.SerializeBool? || c.SerializeU8? {
      assert buf[at] == Payload(c)[0];
    }
  }

  /** Round trip: wherever the bytes of a record sit in a buffer, reading
      at their first byte as the record's own type gives back the record and
      its exact size; reading as any other type is a read error. */
  lemma ReadAsEncoded(c: Command, buf: seq<byte>, pos: nat, k: Kind)
    requires pos + |Encode(c)| <= |buf| && buf[pos..pos + |Encode(c)|] == Encode(c)
    ensures ReadAs(buf, pos, k) == if k == KindOf(c) then Decoded(c, |Encode(c)|) else Malformed
  {
    SliceSplit(buf, pos, [Tag(KindOf(c))], Payload(c));
    assert buf[pos] == Encode(c)[0];
    TagInjective(k, KindOf(c));
    if k == KindOf(c) {
      ParsePayloadOf(buf, pos + 1, c);
    }
  }

  lemma TagInjective(k: Kind, l: Kind)
    ensures Tag(k) == Tag(l) <==> k == l
  {
  }

  /** The same, for a record placed between a prefix and a suffix. */
  lemma ReadAsBetween(prefix: seq<byte>, c: Command, suffix: seq<byte>)
    ensures ReadAs(prefix + Encode(c) + suffix, |prefix|, KindOf(c)) == Decoded(c, |Encode(c)|)
  {
    var buf := prefix + Encode(c) + suffix;
    assert buf[|prefix|..|prefix| + |Encode(c)|] == Encode(c);
    ReadAsEncoded(c, buf, |prefix|, KindOf(c));
  }

  /** Distinct records have distinct encodings. */
  lemma EncodeInjective(a: Command, b: Command)
    requires Encode(a) == Encode(b)
    ensures a == b
  {
    var buf := Encode(a);
    assert buf[0..|Encode(a)|] == Encode(a);
    TagInjective(KindOf(a), KindOf(b));
    ReadAsEncoded(a, buf, 0, KindOf(a));
    ReadAsEncoded(b, buf, 0, KindOf(a));
  }
}
