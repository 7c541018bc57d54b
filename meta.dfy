/** The stream's metadata records (src/meta.rs): the Stitch forwarding
    record with its fixed-width text form, and the commit Trailer. */
module Meta {
  import opened Primitives
  import LittleEndian
  import Hex

  /** A forwarding record: the command at oldPos is replaced by the one at
      newPos, and sequential reading resumes at nextStitchPos. */
  datatype Stitch = Stitch(oldPos: u64, newPos: u64, nextStitchPos: u64)

  /** The form a Stitch takes in the stream: each offset as the hex text of
      its eight little-endian bytes. */
  datatype FixedSizeStitch = FixedSizeStitch(oldPos: Str, newPos: Str, nextStitchPos: Str)

  /** Why `FixedSizeStitch::decode` fails: a field that is not hex text, or
      one that decodes to fewer than eight bytes (a panic in `read_u64`). */
  datatype StitchError = InvalidHex | TooShort

  /** Number of hex characters in every encoded offset. */
  const FieldWidth: nat := 16

  const MAGIC: u64 := 0x84124f4c417733f8

  /** The commit marker appended by `finalize`. */
  datatype Trailer = Trailer(magic: u64, firstStitch: Option<u64>, prevTrailerPos: Option<u64>)

  function EncodeField(x: u64): (h: Str)
    ensures |h| == FieldWidth
  {
    Hex.Encode(LittleEndian.WriteU64(x))
  }

  /** `Stitch::encode`. Every field is exactly FieldWidth characters whatever
      the offsets, so any two encoded stitches have the same size. */
  function EncodeStitch(s: Stitch): (f: FixedSizeStitch)
    ensures |f.oldPos| == FieldWidth && |f.newPos| == FieldWidth && |f.nextStitchPos| == FieldWidth
  {
    FixedSizeStitch(EncodeField(s.oldPos), EncodeField(s.newPos), EncodeField(s.nextStitchPos))
  }

  function DecodeField(h: Str): Result<u64, StitchError>
  {
    match Hex.Decode(h)
    case None => Err(InvalidHex)
    case Some(b) => if |b| < 8 then Err(TooShort) else Ok(LittleEndian.ReadU64(b))
  }

  /** `FixedSizeStitch::decode`: the fields are decoded in order and the
      first failure is returned. */
  function DecodeStitch(f: FixedSizeStitch): Result<Stitch, StitchError>
  {
    match DecodeField(f.oldPos)
    case Err(e) => Err(e)
    case Ok(oldPos) =>
      match DecodeField(f.newPos)
      case Err(e) => Err(e)
      case Ok(newPos) =>
        match DecodeField(f.nextStitchPos)
        case Err(e) => Err(e)
        case Ok(nextStitchPos) => Ok(Stitch(oldPos, newPos, nextStitchPos))
  }

  /** A field `decode` accepts: hex text of even length naming at least eight bytes. */
  ghost predicate HexField(h: seq<byte>)
  {
    |h| >= FieldWidth && |h| % 2 == 0 && forall i :: 0 <= i < |h| ==> Hex.Value(h[i]).Some?
  }

  lemma DecodeEncodeField(x: u64)
    ensures DecodeField(EncodeField(x)) == Ok(x)
  {
    Hex.DecodeEncode(LittleEndian.WriteU64(x));
    LittleEndian.ReadWriteU64(x);
  }

  /** Round trip: decoding an encoded stitch gives back its three offsets. */
  lemma DecodeEncodeStitch(s: Stitch)
    ensures DecodeStitch(EncodeStitch(s)) == Ok(s)
  {
    DecodeEncodeField(s.oldPos);
    DecodeEncodeField(s.newPos);
    DecodeEncodeField(s.nextStitchPos);
  }

  lemma {:induction false} PairsAccepts(s: seq<byte>)
    requires |s| % 2 == 0 && forall i :: 0 <= i < |s| ==> Hex.Value(s[i]).Some?
    ensures Hex.Pairs(s).Some?
  {
    if s != [] {
      PairsAccepts(s[2..]);
    }
  }

  lemma DecodeFieldOk(h: Str)
    ensures DecodeField(h).Ok? <==> HexField(h)
  {
    if HexField(h) {
      PairsAccepts(h);
    } else if |h| % 2 == 0 && exists i :: 0 <= i < |h| && Hex.Value(h[i]).None? {
      var i :| 0 <= i < |h| && Hex.Value(h[i]).None?;
      Hex.DecodeRejects(h, i);
    }
  }

  /** `decode` succeeds exactly when all three fields are hex text of at
      least sixteen characters; a non-hex byte anywhere makes it fail. */
  lemma DecodeStitchOk(f: FixedSizeStitch)
    ensures DecodeStitch(f).Ok? <==> HexField(f.oldPos) && HexField(f.newPos) && HexField(f.nextStitchPos)
  {
    DecodeFieldOk(f.oldPos);
    DecodeFieldOk(f.newPos);
    DecodeFieldOk(f.nextStitchPos);
  }
}
