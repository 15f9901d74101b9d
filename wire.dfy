/**
 * The Protocol Buffers wire primitives that `Thing`'s message code calls in
 * prost: field keys, length-delimited string fields ("Length-Delimited
 * Records" of the Protocol Buffers encoding guide) and an append-only output
 * buffer.
 */
module Wire {
  import opened Bytes
  import opened Wrappers
  import opened Utf8
  import Varint

  /** The six wire types and their three-bit codes; prost's `Varint` is `VarintWire`, apart from the module `Varint`. */
  datatype WireType = VarintWire | SixtyFourBit | LengthDelimited | StartGroup | EndGroup | ThirtyTwoBit

  function Code(wt: WireType): (c: nat)
    ensures c < 8
  {
    match wt
    case VarintWire => 0
    case SixtyFourBit => 1
    case LengthDelimited => 2
    case StartGroup => 3
    case EndGroup => 4
    case ThirtyTwoBit => 5
  }

  /** Why decoding a field failed. */
  datatype DecodeError =
    | InvalidVarint                       // a length varint that is cut short, too long or over 64 bits
    | BufferUnderflow                     // a length larger than what is left in the buffer
    | InvalidUtf8                         // a string payload that is not well-formed UTF-8
    | InvalidWireType(found: WireType)    // a field read with a wire type it does not have

  /** A field key: the varint `(tag << 3) | wire type`. */
  function Key(tag: nat, wt: WireType): seq<byte> {
    Varint.Encode(tag * 8 + Code(wt))
  }

  /** prost's `key_len`, sized from `tag << 3` alone. */
  function KeyLen(tag: nat): (n: nat)
    ensures n == |Key(tag, LengthDelimited)|
  {
    Varint.LenIgnoresLowBits(tag, Code(LengthDelimited));
    Varint.Len(tag * 8)
  }

  /** Field 1 of wire type LengthDelimited has the single key byte 0x0A. */
  lemma Field1Key()
    ensures Key(1, LengthDelimited) == [0x0A]
  {
  }

  /** prost's `string::encode`: the key, the payload's byte length as a varint, the payload. */
  function EncodeString(tag: nat, s: Text): seq<byte> {
    Key(tag, LengthDelimited) + Varint.Encode(|s|) + s
  }

  /** prost's `string::encoded_len`, computed without encoding. */
  function StringEncodedLen(tag: nat, s: Text): (n: nat)
    ensures n == |EncodeString(tag, s)|
  {
    KeyLen(tag) + Varint.Len(|s|) + |s|
  }

  /**
   * prost's `string::merge` for a field whose wire type is LengthDelimited:
   * a varint length, that many bytes, and a UTF-8 check. On success, the
   * payload and the bytes after it.
   */
  function ReadString(buf: seq<byte>): (r: Result<(Text, seq<byte>), DecodeError>)
    ensures r.Ok? ==> ValidUtf8(r.value.0)
    ensures r.Ok? ==> |r.value.0| + |r.value.1| < |buf| && buf[|buf| - |r.value.0| - |r.value.1|..] == r.value.0 + r.value.1
    ensures r.Err? ==> r.error == InvalidVarint || r.error == BufferUnderflow || r.error == InvalidUtf8
  {
    match Varint.Decode(buf)
    case None => Err(InvalidVarint)
    case Some((len, n)) =>
      if len > |buf| - n then Err(BufferUnderflow)
      else
        var payload, rest := buf[n..n + len], buf[n + len..];
        if ValidUtf8(payload) then
          assert |buf| - |payload| - |rest| == n;
          assert buf[n..] == payload + rest;
          Ok((payload, rest))
        else Err(InvalidUtf8)
  }

  /** Reading back a length-delimited string that `EncodeString` wrote (after its key) gives the string and the bytes after it. */
  lemma {:induction false} ReadEncodedString(s: Text, rest: seq<byte>)
    requires ValidUtf8(s) && |s| < Varint.Limit
    ensures ReadString(Varint.Encode(|s|) + s + rest) == Ok((s, rest))
  {
    var prefix := Varint.Encode(|s|);
    var buf := prefix + s + rest;
    assert buf == prefix + (s + rest);
    Varint.DecodeEncode(|s|, s + rest);
    var n := |prefix|;
    assert Varint.Decode(buf) == Some((|s|, n));
    assert buf[n..n + |s|] == s;
    assert buf[n + |s|..] == rest;
    var r := ReadString(buf);
    assert r.Ok? && r.value.0 == s && r.value.1 == rest;
  }

  /** A `bytes::BufMut` that encoders append to; what it already holds is never touched. */
  class WriteBuffer {
    var bytes: seq<byte>

    constructor ()
      ensures bytes == []
    {
      bytes := [];
    }

    method PutU8(b: byte)
      modifies this
      ensures bytes == old(bytes) + [b]
    {
      bytes := bytes + [b];
    }

    method PutSlice(s: seq<byte>)
      modifies this
      ensures bytes == old(bytes) + s
    {
      bytes := bytes + s;
    }

    /** prost's `encode_varint`: seven low bits at a time, high bit set while more follow. */
    method PutVarint(v: nat)
      modifies this
      ensures bytes == old(bytes) + Varint.Encode(v)
    {
      var value := v;
      while value >= 0x80
        invariant bytes + Varint.Encode(value) == old(bytes) + Varint.Encode(v)
        decreases value
      {
        PutU8((value % 0x80 + 0x80) as byte);
        value := value / 0x80;
      }
      PutU8(value as byte);
    }

    /** prost's `encode_key`. */
    method PutKey(tag: nat, wt: WireType)
      modifies this
      ensures bytes == old(bytes) + Key(tag, wt)
    {
      PutVarint(tag * 8 + Code(wt));
    }

    /** prost's `string::encode`. */
    method PutString(tag: nat, s: Text)
      modifies this
      ensures bytes == old(bytes) + EncodeString(tag, s)
    {
      PutKey(tag, LengthDelimited);
      PutVarint(|s|);
      PutSlice(s);
    }
  }
}
