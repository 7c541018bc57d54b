/** The seekable byte buffer a session owns (the `Buffer` of src/state.rs),
    with the behaviour of an in-memory `std::io::Cursor<Vec<u8>>`: a byte
    sequence and a cursor that may stand anywhere, even past the end. */
module State {
  import opened Primitives
  import opened Wire

  /** The stream after writing bytes at offset at: the bytes before at are
      kept, the written range is replaced, any bytes after it are kept, and a
      gap between the old end and at is filled with zeros. */
  function Overwrite(data: seq<byte>, at: nat, bytes: seq<byte>): (r: seq<byte>)
    ensures |r| == if at + |bytes| > |data| then at + |bytes| else |data|
    ensures r[at..at + |bytes|] == bytes
    ensures forall i :: 0 <= i < |r| && !(at <= i < at + |bytes|) ==> r[i] == if i < |data| then data[i] else 0
  {
    if at <= |data| then
      data[..at] + bytes + (if at + |bytes| < |data| then data[at + |bytes|..] else [])
    else
      data + seq(at - |data|, _ => 0) + bytes
  }

  /** Writing at the end of the data appends. */
  lemma OverwriteAtEnd(data: seq<byte>, bytes: seq<byte>)
    ensures Overwrite(data, |data|, bytes) == data + bytes
  {
    var r := Overwrite(data, |data|, bytes);
    forall i | 0 <= i < |r|
      ensures r[i] == (data + bytes)[i]
    {
      if i >= |data| {
        assert r[i] == r[|data|..|data| + |bytes|][i - |data|];
      }
    }
  }

  /** Writing the bytes that are already there changes nothing. */
  lemma OverwriteSame(data: seq<byte>, at: nat, bytes: seq<byte>)
    requires at + |bytes| <= |data| && data[at..at + |bytes|] == bytes
    ensures Overwrite(data, at, bytes) == data
  {
    var r := Overwrite(data, at, bytes);
    forall i | 0 <= i < |r|
      ensures r[i] == data[i]
    {
      if at <= i < at + |bytes| {
        assert r[i] == r[at..at + |bytes|][i - at];
        assert data[i] == data[at..at + |bytes|][i - at];
      }
    }
  }

  /** Overwriting a block with another of the same size, in place, leaves
      everything around it as it was: the backpatch of a placeholder. */
  lemma Backpatch(before: seq<byte>, placeholder: seq<byte>, after: seq<byte>, patch: seq<byte>)
    requires |placeholder| == |patch|
    ensures Overwrite(before + placeholder + after, |before|, patch) == before + patch + after
  {
    var d := before + placeholder + after;
    var r := Overwrite(d, |before|, patch);
    var e := before + patch + after;
    forall i | 0 <= i < |r|
      ensures r[i] == e[i]
    {
      if |before| <= i < |before| + |patch| {
        assert r[i] == r[|before|..|before| + |patch|][i - |before|];
      }
    }
  }

  datatype SeekError = InvalidSeek

  class Buffer {
    var data: seq<byte>
    var cursor: nat

    ghost predicate Valid()
      reads this
    {
      |data| < TWO_64 && cursor < TWO_64
    }

    constructor (init: seq<byte>)
      requires |init| < TWO_64
      ensures Valid() && data == init && cursor == 0
    {
      data := init;
      cursor := 0;
    }

    /** `seek(SeekFrom::Current(0))`: the cursor. */
    method Position() returns (p: nat)
      ensures p == cursor
    {
      p := cursor;
    }

    /** `seek(SeekFrom::Start(p))`. */
    method SeekStart(p: u64)
      modifies this`cursor
      ensures cursor == p
    {
      cursor := p;
    }

    /** `seek(SeekFrom::End(offset))`: fails, leaving the cursor where it
        was, when the target is negative or does not fit in 64 bits. */
    method SeekEnd(offset: int) returns (r: Result<nat, SeekError>)
      requires Valid()
      modifies this`cursor
      ensures Valid()
      ensures r == if 0 <= |data| + offset < TWO_64 then Ok(|data| + offset) else Err(InvalidSeek)
      ensures cursor == if r.Ok? then r.value else old(cursor)
    {
      var target := |data| + offset;
      if 0 <= target < TWO_64 {
        cursor := target;
        r := Ok(target);
      } else {
        r := Err(InvalidSeek);
      }
    }

    /** Deserialize one record of type k at the cursor. On success the
        cursor moves past the record; on failure it stays where it was. */
    method Read(k: Kind) returns (r: ReadResult)
      requires Valid()
      modifies this`cursor
      ensures Valid()
      ensures r == ReadAs(data, old(cursor), k)
      ensures cursor == if r.Decoded? then old(cursor) + r.len else old(cursor)
    {
      r := ReadAs(data, cursor, k);
      if r.Decoded? {
        cursor := cursor + r.len;
      }
    }

    /** Write bytes at the cursor, which ends just past them. */
    method Write(bytes: seq<byte>)
      requires Valid() && cursor + |bytes| < TWO_64
      modifies this
      ensures Valid()
      ensures data == Overwrite(old(data), old(cursor), bytes)
      ensures cursor == old(cursor) + |bytes|
    {
      data := Overwrite(data, cursor, bytes);
      cursor := cursor + |bytes|;
    }
  }
}
