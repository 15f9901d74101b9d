/**
 * The record id `Thing` (a table name and an id) as a value, and the
 * behaviour of its hand-written prost `Message` implementation stated on
 * values: the bytes `encode_raw` writes and the effect of `merge_field`.
 * The class in module ThingMessage runs these steps in place.
 */
module Things {
  import opened Bytes
  import opened Wrappers
  import opened Utf8
  import Varint
  import opened Wire

  /** The separator between table and id in the wire payload, ASCII ':'. */
  const Colon: byte := 0x3A

  /**
   * The id part. Only `String` is built by this core; the other variants of
   * the source (numbers, arrays, objects, generated ids) stand here as
   * `Number` and `Other`, whose structure is not part of this model.
   */
  datatype Id = Number(n: int) | String(s: Text) | Other(key: nat)

  /** `Thing { tb, id }`: equality is field by field, as derived. */
  datatype Thing = Thing(tb: Text, id: Id)

  /** `id.to_string()`: the id's Display text, which is not part of this model. */
  type Render = Id -> Text

  /** `Id::from` on text, which is not part of this model. */
  type IdFrom = Text -> Id

  /** `Thing::default()`: an empty table name and `Id`'s own default. */
  function Default(idDefault: Id): (r: Thing)
    ensures r.tb == [] && r.id == idDefault
  {
    Thing([], idDefault)
  }

  /**
   * `From<(&str, Id)>` and `From<(String, Id)>`: both parts kept as given,
   * with no check of the table name (it may be empty or hold a ':').
   */
  function FromParts(tb: Text, id: Id): (r: Thing)
    ensures r.tb == tb && r.id == id
  {
    Thing(tb, id)
  }

  /**
   * `From<(String, String)>` and `From<(&str, &str)>`: the table name kept
   * as given, the id text passed through `Id::from`.
   */
  function FromText(tb: Text, id: Text, idFrom: IdFrom): (r: Thing)
    ensures r.tb == tb && r.id == idFrom(id)
  {
    FromParts(tb, idFrom(id))
  }

  /** The position of the first ':' in `s`. */
  function FirstColon(s: Text): (i: nat)
    requires Colon in s
    ensures i < |s| && s[i] == Colon && Colon !in s[..i]
    decreases |s|
  {
    if s[0] == Colon then 0
    else
      var j := FirstColon(s[1..]);
      assert s[..j + 1] == [s[0]] + s[1..][..j];
      j + 1
  }

  /** Puts the pieces back together with a ':' between neighbours. */
  function Join(parts: seq<Text>): Text
    requires |parts| >= 1
    decreases |parts|
  {
    if |parts| == 1 then parts[0] else parts[0] + [Colon] + Join(parts[1..])
  }

  /**
   * `value.split(':').collect()`: the pieces between the colons, one more
   * than there are colons, none containing a colon, and joining them back
   * gives the text that was split.
   */
  function Split(s: Text): (parts: seq<Text>)
    ensures |parts| >= 1
    ensures forall k :: 0 <= k < |parts| ==> Colon !in parts[k]
    ensures Join(parts) == s
    decreases |s|
  {
    if Colon !in s then [s]
    else
      var i := FirstColon(s);
      var tail := Split(s[i + 1..]);
      assert ([s[..i]] + tail)[1..] == tail;
      assert s == s[..i] + [Colon] + s[i + 1..];
      [s[..i]] + tail
  }

  /** The first colon of `a + [':'] + b` is the one after `a` when `a` has none. */
  lemma FirstColonAfter(a: Text, b: Text)
    requires Colon !in a
    ensures Colon in a + [Colon] + b && FirstColon(a + [Colon] + b) == |a|
  {
    var s := a + [Colon] + b;
    assert s[|a|] == Colon;
  }

  /** When `a` has a colon, the first colon of `a + b` is `a`'s first. */
  lemma FirstColonWithin(a: Text, b: Text)
    requires Colon in a
    ensures Colon in a + b && FirstColon(a + b) == FirstColon(a)
  {
    var s := a + b;
    assert s[FirstColon(a)] == Colon;
  }

  /** Splitting undoes joining colon-free pieces. */
  lemma {:induction false} SplitJoin(parts: seq<Text>)
    requires |parts| >= 1
    requires forall k :: 0 <= k < |parts| ==> Colon !in parts[k]
    ensures Split(Join(parts)) == parts
    decreases |parts|
  {
    if |parts| > 1 {
      var tail := Join(parts[1..]);
      FirstColonAfter(parts[0], tail);
      var s := parts[0] + [Colon] + tail;
      assert s[..|parts[0]|] == parts[0];
      assert s[|parts[0]| + 1..] == tail;
      SplitJoin(parts[1..]);
    }
  }

  /** Every piece of well-formed text split at its colons is well-formed text. */
  lemma {:induction false} SplitKeepsUtf8(s: Text)
    requires ValidUtf8(s)
    ensures forall k :: 0 <= k < |Split(s)| ==> ValidUtf8(Split(s)[k])
    decreases |s|
  {
    if Colon in s {
      var i := FirstColon(s);
      SplitAtAscii(s, i);
      SplitKeepsUtf8(s[i + 1..]);
      assert Split(s) == [s[..i]] + Split(s[i + 1..]);
    }
  }

  /** The first two pieces of `Split`: the text before the first colon, and the text from there up to the next colon or the end. */
  lemma FirstTwoPieces(s: Text)
    requires Colon in s
    ensures |Split(s)| >= 2
    ensures Split(s)[0] == s[..FirstColon(s)]
    ensures var after := s[FirstColon(s) + 1..];
            Split(s)[1] == if Colon in after then after[..FirstColon(after)] else after
  {
  }

  /**
   * `format!("{}:{}", tb, id)`: the text that goes on the wire, the table
   * name unescaped, then a ':', then the id's text.
   */
  function Payload(t: Thing, render: Render): (p: Text)
    ensures |p| == |t.tb| + 1 + |render(t.id)|
    ensures p[..|t.tb|] == t.tb && p[|t.tb|] == Colon && p[|t.tb| + 1..] == render(t.id)
  {
    t.tb + [Colon] + render(t.id)
  }

  /**
   * The bytes `encode_raw` appends: the payload as string field 1, that is
   * the key byte 0x0A followed by the length-delimited payload.
   */
  function Encode(t: Thing, render: Render): (r: seq<byte>)
    ensures r == [0x0A] + Varint.Encode(|Payload(t, render)|) + Payload(t, render)
  {
    Field1Key();
    EncodeString(1, Payload(t, render))
  }

  /** How `merge_field` ends: `Ok(())`, an error, or the panic of `values[1]` out of bounds. */
  datatype Outcome = Done | Failed(error: DecodeError) | Panicked

  /** The value after `merge_field`, how it ended, and the bytes left to read. */
  datatype Merged = Merged(thing: Thing, outcome: Outcome, rest: seq<byte>)

  /** prost's `skip_field`, whose byte-level work is not part of this model: the bytes after the field, or an error. */
  type SkipField = (WireType, nat, seq<byte>) -> Result<seq<byte>, DecodeError>

  /**
   * `merge_field(tag, wire_type, buf)` applied to `t`. On a failure the
   * position in `buf` is not modelled and `rest` is `buf`. The value can
   * change only for field 1 sent LengthDelimited with a well-formed string,
   * and a well-formed table name stays well-formed.
   */
  function MergeField(t: Thing, tag: nat, wt: WireType, buf: seq<byte>, skip: SkipField): (m: Merged)
    ensures m.thing != t ==> tag == 1 && wt == LengthDelimited && ReadString(buf).Ok?
    ensures ValidUtf8(t.tb) ==> ValidUtf8(m.thing.tb)
  {
    if tag == 1 then
      if wt == LengthDelimited then
        match ReadString(buf)
        case Err(e) => Merged(t, Failed(e), buf)
        case Ok((value, rest)) =>
          var values := Split(value);
          SplitKeepsUtf8(value);
          if |values| < 2 then Merged(Thing(values[0], t.id), Panicked, rest)
          else Merged(Thing(values[0], String(values[1])), Done, rest)
      else Merged(t, Failed(InvalidWireType(wt)), buf)
    else
      match skip(wt, tag, buf)
      case Ok(rest) => Merged(t, Done, rest)
      case Err(e) => Merged(t, Failed(e), buf)
  }

  /**
   * Decoding field 1: when the payload has no colon, `values[1]` does not
   * exist and the decode panics, after `tb` has already been set to the
   * whole payload; otherwise `tb` is the text before the first colon and
   * the id is the `String` of the text up to the next colon or the end, and
   * whatever follows a second colon is dropped.
   */
  lemma {:induction false} FieldOneDecode(t: Thing, buf: seq<byte>, skip: SkipField, value: Text, rest: seq<byte>)
    requires ReadString(buf) == Ok((value, rest))
    ensures Colon !in value ==>
              MergeField(t, 1, LengthDelimited, buf, skip) == Merged(Thing(value, t.id), Panicked, rest)
    ensures Colon in value ==>
              var i := FirstColon(value);
              var after := value[i + 1..];
              var idText := if Colon in after then after[..FirstColon(after)] else after;
              MergeField(t, 1, LengthDelimited, buf, skip) == Merged(Thing(value[..i], String(idText)), Done, rest)
  {
    if Colon in value {
      FirstTwoPieces(value);
    }
  }

  /** The table name that field 1 decodes to, when the payload has a colon. */
  lemma {:induction false} FieldOneTable(t: Thing, buf: seq<byte>, skip: SkipField, value: Text, rest: seq<byte>)
    requires ReadString(buf) == Ok((value, rest)) && Colon in value
    ensures MergeField(t, 1, LengthDelimited, buf, skip).outcome == Done
    ensures MergeField(t, 1, LengthDelimited, buf, skip).thing.tb == value[..FirstColon(value)]
  {
    FirstTwoPieces(value);
  }

  /** The first two pieces of `a:b:c` are `a` and `b` when neither has a colon. */
  lemma {:induction false} SplitTwoColons(a: Text, b: Text, c: Text)
    requires Colon !in a && Colon !in b
    ensures var parts := Split(a + [Colon] + b + [Colon] + c);
            |parts| >= 2 && parts[0] == a && parts[1] == b
  {
    var after := b + [Colon] + c;
    var s := a + [Colon] + after;
    assert s == a + [Colon] + b + [Colon] + c;
    FirstColonAfter(a, after);
    assert s[..|a|] == a;
    assert s[|a| + 1..] == after;
    FirstColonAfter(b, c);
    assert after[..|b|] == b;
    FirstTwoPieces(s);
  }

  /**
   * A payload with a second colon, `a:b:c`, decodes to table `a` and id
   * `String(b)`: everything from the second colon on is dropped.
   */
  lemma {:induction false} SecondColonDropped(t: Thing, buf: seq<byte>, skip: SkipField, a: Text, b: Text, c: Text, rest: seq<byte>)
    requires ReadString(buf) == Ok((a + [Colon] + b + [Colon] + c, rest))
    requires Colon !in a && Colon !in b
    ensures MergeField(t, 1, LengthDelimited, buf, skip) == Merged(Thing(a, String(b)), Done, rest)
  {
    SplitTwoColons(a, b, c);
  }

  /** The payload of a value whose parts are well-formed text is well-formed text. */
  lemma PayloadUtf8(t: Thing, render: Render)
    requires ValidUtf8(t.tb) && ValidUtf8(render(t.id))
    ensures ValidUtf8(Payload(t, render))
  {
    assert ValidUtf8([Colon]) by {
      assert [Colon][1..] == [];
    }
    ConcatValid(t.tb, [Colon]);
    ConcatValid(t.tb + [Colon], render(t.id));
  }

  /**
   * The lossy round trip: when neither the table name nor the id's text
   * has a colon, reading back what `encode_raw` wrote (after its key byte)
   * restores the table name and gives the id as `String` of its text,
   * whatever the value held before and whatever variant the id had; a
   * non-`String` id therefore never comes back as itself.
   */
  lemma {:induction false} LossyRoundTrip(t: Thing, render: Render, prior: Thing, rest: seq<byte>, skip: SkipField)
    requires ValidUtf8(t.tb) && ValidUtf8(render(t.id))
    requires Colon !in t.tb && Colon !in render(t.id)
    requires |Payload(t, render)| < Varint.Limit
    ensures Encode(t, render)[..1] == [0x0A]
    ensures var m := MergeField(prior, 1, LengthDelimited, Encode(t, render)[1..] + rest, skip);
            m == Merged(Thing(t.tb, String(render(t.id))), Done, rest)
    ensures !t.id.String? ==>
              MergeField(prior, 1, LengthDelimited, Encode(t, render)[1..] + rest, skip).thing != t
  {
    var p := Payload(t, render);
    EncodedFieldReads(t, render, rest);
    SplitJoin([t.tb, render(t.id)]);
    assert Join([t.tb, render(t.id)]) == p;
  }

  /** A colon in the table name is the first colon of the payload. */
  lemma PayloadFirstColon(t: Thing, render: Render)
    requires Colon in t.tb
    ensures Colon in Payload(t, render) && FirstColon(Payload(t, render)) == FirstColon(t.tb)
  {
    FirstColonWithin(t.tb, [Colon] + render(t.id));
    assert Payload(t, render) == t.tb + ([Colon] + render(t.id));
  }

  /** What `encode_raw` wrote after its key byte reads back as the payload, when both parts are well-formed text. */
  lemma {:induction false} EncodedFieldReads(t: Thing, render: Render, rest: seq<byte>)
    requires ValidUtf8(t.tb) && ValidUtf8(render(t.id))
    requires |Payload(t, render)| < Varint.Limit
    ensures ReadString(Encode(t, render)[1..] + rest) == Ok((Payload(t, render), rest))
  {
    var p := Payload(t, render);
    assert Encode(t, render)[1..] == Varint.Encode(|p|) + p;
    PayloadUtf8(t, render);
    ReadEncodedString(p, rest);
  }

  /**
   * The table name goes on the wire unescaped, so a table name with a colon
   * in it does not survive: it comes back cut at its first colon.
   */
  lemma {:induction false} UnescapedTableMisSplits(t: Thing, render: Render, prior: Thing, rest: seq<byte>, skip: SkipField)
    requires ValidUtf8(t.tb) && ValidUtf8(render(t.id))
    requires Colon in t.tb
    requires |Payload(t, render)| < Varint.Limit
    ensures var m := MergeField(prior, 1, LengthDelimited, Encode(t, render)[1..] + rest, skip);
            m.outcome == Done && m.thing.tb == t.tb[..FirstColon(t.tb)] && m.thing.tb != t.tb
  {
    var p := Payload(t, render);
    var buf := Encode(t, render)[1..] + rest;
    var i := FirstColon(t.tb);
    assert ReadString(buf) == Ok((p, rest)) by {
      EncodedFieldReads(t, render, rest);
    }
    PayloadFirstColon(t, render);
    assert p[..i] == t.tb[..i];
    FieldOneTable(prior, buf, skip, p, rest);
    assert |t.tb[..i]| < |t.tb|;
  }

  /**
   * A successful field 1 overwrites both parts, so the result does not
   * depend on the value before it: a later field 1 wins over an earlier one.
   */
  lemma {:induction false} FieldOneOverwrites(t1: Thing, t2: Thing, buf: seq<byte>, skip: SkipField)
    requires MergeField(t1, 1, LengthDelimited, buf, skip).outcome == Done
    ensures MergeField(t2, 1, LengthDelimited, buf, skip) == MergeField(t1, 1, LengthDelimited, buf, skip)
  {
  }

  /**
   * The error paths and the skipped fields leave the value as it was:
   * field 1 with another wire type is an invalid-wire-type error, a failed
   * string read returns its error before any assignment, and any other
   * field is handed to `skip_field`.
   */
  lemma {:induction false} MergeFieldOtherwiseUnchanged(t: Thing, tag: nat, wt: WireType, buf: seq<byte>, skip: SkipField)
    ensures tag == 1 && wt != LengthDelimited ==>
              MergeField(t, tag, wt, buf, skip) == Merged(t, Failed(InvalidWireType(wt)), buf)
    ensures tag == 1 && wt == LengthDelimited && ReadString(buf).Err? ==>
              MergeField(t, tag, wt, buf, skip) == Merged(t, Failed(ReadString(buf).error), buf)
    ensures tag != 1 ==>
              MergeField(t, tag, wt, buf, skip).thing == t &&
              MergeField(t, tag, wt, buf, skip).outcome ==
                (if skip(wt, tag, buf).Ok? then Done else Failed(skip(wt, tag, buf).error))
  {
  }

  /** A field that is skipped before field 1 makes no difference to what field 1 gives. */
  lemma {:induction false} SkippedFieldFirst(t: Thing, tag: nat, wt: WireType, buf: seq<byte>, skip: SkipField)
    requires tag != 1 && skip(wt, tag, buf).Ok?
    ensures var m := MergeField(t, tag, wt, buf, skip);
            MergeField(m.thing, 1, LengthDelimited, m.rest, skip) ==
            MergeField(t, 1, LengthDelimited, skip(wt, tag, buf).value, skip)
  {
  }

  /** `person:tobie` on the wire: key 0x0A, length 12, then the twelve payload bytes. */
  lemma PersonTobie(render: Render)
    requires render(String([0x74, 0x6F, 0x62, 0x69, 0x65])) == [0x74, 0x6F, 0x62, 0x69, 0x65]
    ensures Encode(Thing([0x70, 0x65, 0x72, 0x73, 0x6F, 0x6E], String([0x74, 0x6F, 0x62, 0x69, 0x65])), render) ==
            [0x0A, 0x0C, 0x70, 0x65, 0x72, 0x73, 0x6F, 0x6E, 0x3A, 0x74, 0x6F, 0x62, 0x69, 0x65]
  {
  }
}
