/**
 * `impl prost::Message for Thing`: a `Thing` held in place, with
 * `encode_raw` appending to an output buffer, `merge_field` and `clear`
 * assigning its two fields, and `encoded_len` sizing the encoding.
 */
module ThingMessage {
  import opened Bytes
  import opened Wrappers
  import opened Utf8
  import Varint
  import opened Wire
  import opened Things

  class ThingMessage {
    var tb: Text
    var id: Id

    /** The table name is a Rust `String`, so it is always well-formed UTF-8. */
    ghost predicate Valid()
      reads this
    {
      ValidUtf8(tb)
    }

    /** The value currently held. */
    function Value(): Thing
      reads this
    {
      Thing(tb, id)
    }

    constructor (t: Thing)
      requires ValidUtf8(t.tb)
      ensures Valid() && Value() == t
    {
      tb := t.tb;
      id := t.id;
    }

    /**
     * `encode_raw`: appends string field 1 holding `tb:id`; what `buf` held
     * before stays as it was, and the bytes after the key read back as the
     * payload when the id's text is well-formed and the length fits a varint.
     */
    method EncodeRaw(buf: WriteBuffer, render: Render)
      requires Valid()
      modifies buf
      ensures buf.bytes == old(buf.bytes) + Encode(Value(), render)
      ensures buf.bytes[..|old(buf.bytes)|] == old(buf.bytes)
      ensures buf.bytes[|old(buf.bytes)|..] ==
              [0x0A] + Varint.Encode(|Payload(Value(), render)|) + Payload(Value(), render)
      ensures ValidUtf8(render(id)) && |Payload(Value(), render)| < Varint.Limit ==>
              ReadString(buf.bytes[|old(buf.bytes)| + 1..]) == Ok((Payload(Value(), render), []))
    {
      var str := Payload(Value(), render);
      buf.PutString(1, str);
      if ValidUtf8(render(id)) && |str| < Varint.Limit {
        EncodedFieldReads(Value(), render, []);
        assert buf.bytes[|old(buf.bytes)| + 1..] == Encode(Value(), render)[1..] + [];
      }
    }

    /** `encoded_len`: the number of bytes `EncodeRaw` appends, computed without encoding. */
    function EncodedLen(render: Render): (n: nat)
      reads this
      ensures n == |Encode(Value(), render)|
      ensures n == 1 + Varint.Len(|Payload(Value(), render)|) + |Payload(Value(), render)|
    {
      StringEncodedLen(1, Payload(Value(), render))
    }

    /**
     * `merge_field`: field 1 sent LengthDelimited replaces both parts with
     * the pieces of its payload around the first colon; anything else leaves
     * the value alone. If the payload has no colon, `tb` has already been
     * replaced when `values[1]` panics.
     */
    method MergeField(tag: nat, wt: WireType, buf: seq<byte>, skip: SkipField) returns (outcome: Outcome, rest: seq<byte>)
      requires Valid()
      modifies this
      ensures Valid()
      ensures Merged(Value(), outcome, rest) == Things.MergeField(old(Value()), tag, wt, buf, skip)
    {
      if tag == 1 {
        if wt == LengthDelimited {
          var read := ReadString(buf);
          if read.Err? {
            return Failed(read.error), buf;
          }
          var value := read.value.0;
          rest := read.value.1;
          var values := Split(value);
          SplitKeepsUtf8(value);
          tb := values[0];
          if |values| < 2 {
            return Panicked, rest;
          }
          id := String(values[1]);
          outcome := Done;
        } else {
          outcome, rest := Failed(InvalidWireType(wt)), buf;
        }
      } else {
        var skipped := skip(wt, tag, buf);
        if skipped.Ok? {
          outcome, rest := Done, skipped.value;
        } else {
          outcome, rest := Failed(skipped.error), buf;
        }
      }
    }

    /** `clear`: back to `Thing::default()`. */
    method Clear(idDefault: Id)
      modifies this
      ensures Valid()
      ensures tb == [] && id == idDefault
      ensures Value() == Default(idDefault)
    {
      tb := [];
      id := idDefault;
    }
  }
}
