# Record id `Thing`: its protobuf message codec, in Dafny

A `Thing` is a record id of the database: a table name `tb` and an id `id`.
`lib/src/sql/thing.rs` gives it a hand-written prost `Message`
implementation that packs the pair into one length-delimited string field,
number 1, holding `tb:id`. Decoding splits that text at its colons and always
rebuilds the id as `Id::String`. This model states that codec exactly:

- the bytes `encode_raw` appends: key byte `0x0A`, then the payload length as a base 128 varint, then the payload;
- the count `encoded_len` predicts;
- every outcome of `merge_field`: a decoded value, a decode error, a skipped field, or the panic on a payload with no colon;
- `clear`, `Default`, the `From` constructors and the derived ordering.

It also proves the properties that follow from these. The round trip is lossy,
and the model proves where: the id variant is lost, text after a second colon is
dropped, and a table name containing a colon is cut short. The byte layout
follows the "Base 128 Varints" and "Length-Delimited Records" sections of the
Protocol Buffers encoding guide. String validity follows RFC 3629, section 4.

Modules:

- `Bytes`: bytes, and `Text`, the UTF-8 bytes of a Rust string.
- `Wrappers`: `Option` and `Result`.
- `Utf8`: well-formed UTF-8. Joining two well-formed texts gives a well-formed text. An ASCII byte always stands alone, so cutting well-formed text at `:` (0x3A) gives well-formed pieces. That is why splitting bytes here matches Rust's `str::split(':')`.
- `Varint`: the varint encoder, its length, and prost's bounded decoder, with the decode-after-encode round trip.
- `Wire`: wire types, decode errors, field keys, prost's `string::encode`, `string::encoded_len` and `string::merge`. It also holds `WriteBuffer`, an append-only output buffer whose varint writer is a loop.
- `Things`: the value `Thing`, `Default`, the `From` constructors, the split at colons, the payload and its encoding, and `MergeField`, the effect of `merge_field` stated on values. The lemmas about all of these are here too.
- `ThingOrder`: the derived `Ord`.
- `ThingMessage`: class `ThingMessage`, a `Thing` held in place. Its methods `EncodeRaw`, `MergeField` and `Clear` change state, and its function `EncodedLen` does not. Each is proved against the value-level definitions in `Things`.

The id's own code lives in `lib/src/sql/id.rs`, which is not part of this
model. Whatever the codec needs from it is a parameter:

- its display text `render` (`id.to_string()`);
- its default `idDefault`;
- `Id::from` on text (`idFrom`);
- its ordering `idCmp`.

prost's `skip_field` is a parameter `skip` too. Lemmas hold for every choice of
these parameters.

Where the code and a plain reading of its purpose differ, the model follows the code:

- The decode does not split on the first `:` and keep the rest as the id. It splits on every `:` and keeps only pieces 0 and 1, so text after a second colon is lost (`FieldOneDecode`).
- A field-1 payload with no `:` is not a decode error. Indexing `values[1]` panics. By then `tb` already holds the whole payload, because line 72 runs before line 73 (`Outcome.Panicked`).
- Nothing checks that the table name is non-empty or free of `:` (`FromParts`, `FromText`, `UnescapedTableMisSplits`).

## Model

| member | source | states |
|---|---|---|
| `Things.MergeField` | lib/src/sql/thing.rs:46-86 | `merge_field` on a value. The value changes only for tag 1, wire type LengthDelimited and a successful string read. A well-formed table name stays well-formed. |
| `Things.FieldOneDecode` | lib/src/sql/thing.rs:62-74 | For a field-1 payload with no colon: outcome Panicked, `tb` set to the whole payload, `id` unchanged. Otherwise: `tb` is the text before the first colon, `id` is `String` of the text up to the next colon or the end, outcome Done, and the bytes after the field are left to read. |
| `Things.FieldOneTable` | lib/src/sql/thing.rs:70-72 | When the payload has a colon, the decode succeeds and `tb` is the text before the first colon. |
| `Things.LossyRoundTrip` | lib/src/sql/thing.rs:42-73 | Suppose neither the table name nor the id's text has a colon. The encoding starts with 0x0A. Decoding the rest, whatever the prior value, gives `Thing(tb, String(idText))`, outcome Done, and exactly the bytes that followed. An id that is not a `String` never comes back as itself. |
| `Things.UnescapedTableMisSplits` | lib/src/sql/thing.rs:42-72 | A table name containing a colon is written unescaped and decodes cut at its first colon, so it differs from the original. |
| `Things.FieldOneOverwrites` | lib/src/sql/thing.rs:72-73 | A successful field 1 gives the same result from any prior value, so a later field 1 wins. |
| `Things.MergeFieldOtherwiseUnchanged` | lib/src/sql/thing.rs:62-85 | Each of these leaves the value unchanged: a wrong wire type for field 1 (error InvalidWireType), a failed string read (its error is returned), any other tag (the outcome is `skip_field`'s). |
| `Things.SkippedFieldFirst` | lib/src/sql/thing.rs:84 | A skipped unknown field before field 1 makes no difference to what field 1 decodes to. |
| `Things.Payload` | lib/src/sql/thing.rs:42 | The text `format!("{}:{}", tb, id)` builds (again at line 89): the table name unescaped as its prefix, a colon right after it, then the id's text; its length is the sum of the parts plus one. |
| `Things.Encode` | lib/src/sql/thing.rs:42-43 | The encoding is `[0x0A]`, then the varint of the payload's length, then the payload `tb ++ ":" ++ idText`. |
| `Things.EncodedFieldReads` | lib/src/sql/thing.rs:42-67 | Reading back the bytes after the key gives the payload and the bytes that follow, when both parts are well-formed text and the payload length fits in 64 bits. |
| `Things.PayloadUtf8` | lib/src/sql/thing.rs:42 | The formatted payload of well-formed parts is well-formed text. |
| `Things.PayloadFirstColon` | lib/src/sql/thing.rs:42 | A colon in the table name is the payload's first colon. |
| `Things.PersonTobie` | lib/src/sql/thing.rs:42-43 | `person:tobie` encodes to 0x0A, 0x0C and the twelve payload bytes. |
| `Things.Split` | lib/src/sql/thing.rs:70 | `split(':')` returns at least one piece, and no piece contains a colon. Joining the pieces with colons gives the text back. |
| `Things.SplitJoin` | lib/src/sql/thing.rs:70 | Splitting undoes joining colon-free pieces. |
| `Things.FirstTwoPieces` | lib/src/sql/thing.rs:70-73 | With a colon present there are at least two pieces. Piece 0 is the text before the first colon. Piece 1 runs from there to the next colon or the end. |
| `Things.FirstColon` | lib/src/sql/thing.rs:70 | The position of the first colon: a colon, with none before it. |
| `Things.FirstColonAfter` | lib/src/sql/thing.rs:70 | In `a ++ ":" ++ b` with `a` colon-free, the first colon is at `|a|`. |
| `Things.SplitTwoColons` | lib/src/sql/thing.rs:70 | The first two pieces of `a:b:c` are `a` and `b` when neither has a colon. |
| `Things.SecondColonDropped` | lib/src/sql/thing.rs:70-73 | A field-1 payload `a:b:c` with `a` and `b` colon-free decodes to table `a` and id `String(b)`, outcome Done: everything from the second colon on is lost. |
| `Things.FirstColonWithin` | lib/src/sql/thing.rs:70 | A colon in `a` is the first colon of `a ++ b`. |
| `Things.SplitKeepsUtf8` | lib/src/sql/thing.rs:70-73 | Every piece of well-formed text split at colons is well-formed, as the `&str` pieces are. |
| `Things.Default` | lib/src/sql/thing.rs:29-33 | `Thing::default()` has an empty table name and `Id`'s default as its id. |
| `Things.FromParts` | lib/src/sql/thing.rs:99-115 | `From<(&str, Id)>` and `From<(String, Id)>` store the table name and id unchanged, with no validation. |
| `Things.FromText` | lib/src/sql/thing.rs:117-127 | `From<(String, String)>` and `From<(&str, &str)>` store the table name unchanged and the id as `Id::from` of its text. |
| `ThingOrder.CompareEqual` | lib/src/sql/thing.rs:19-26 | Two things compare Equal exactly when they are equal, given the same holds for ids. |
| `ThingOrder.CompareReverse` | lib/src/sql/thing.rs:19-26 | Swapping the operands reverses the ordering, given it does for ids. |
| `ThingOrder.CompareTransitive` | lib/src/sql/thing.rs:19-26 | Less is transitive, given it is for ids. |
| `ThingOrder.Compare` | lib/src/sql/thing.rs:19 | The derived `cmp`: different table names decide the order (never Equal), whatever the ids; on equal table names the ids' ordering decides. |
| `ThingOrder.CompareText` | lib/src/sql/thing.rs:25 | String comparison gives Equal exactly for equal strings. |
| `ThingOrder.CompareTextReverse` | lib/src/sql/thing.rs:25 | String comparison is antisymmetric. |
| `ThingOrder.CompareTextTransitive` | lib/src/sql/thing.rs:25 | String Less is transitive. |
| `ThingMessage.ThingMessage.EncodeRaw` | lib/src/sql/thing.rs:38-44 | Appends exactly `Encode(value)`, that is `[0x0A] ++ varint(len) ++ payload`. The existing buffer prefix is untouched. When the id's text is well-formed and the length fits in 64 bits, the appended bytes after the key read back as exactly the payload. |
| `ThingMessage.ThingMessage.EncodedLen` | lib/src/sql/thing.rs:88-91 | Equals the number of bytes `EncodeRaw` appends, `1 + varintLen(len) + len`, computed without encoding. |
| `ThingMessage.ThingMessage.MergeField` | lib/src/sql/thing.rs:46-86 | The new value, outcome and remaining bytes are those of `Things.MergeField` on the old value. The table name stays well-formed UTF-8. |
| `ThingMessage.ThingMessage.Clear` | lib/src/sql/thing.rs:93-96 | Sets `tb` to empty and `id` to `Id`'s default, which equals `Thing::default()` (lines 29-33). |
| `ThingMessage.ThingMessage.constructor` | lib/src/sql/thing.rs:23-27 | Holds the given value, with a well-formed table name. |
| `Wire.ReadString` | lib/src/sql/thing.rs:66-68 | `string::merge`: on success, a well-formed UTF-8 payload and the bytes after it, together a suffix of the input. On failure: invalid varint, buffer underflow or invalid UTF-8. |
| `Wire.ReadEncodedString` | lib/src/sql/thing.rs:67 | Reading a varint length, then the string, then any rest gives the string and the rest. |
| `Wire.StringEncodedLen` | lib/src/sql/thing.rs:90 | `string::encoded_len` equals the length of `string::encode`'s output. |
| `Wire.KeyLen` | lib/src/sql/thing.rs:90 | The key length sized from `tag << 3` equals the length of the key written. |
| `Wire.Field1Key` | lib/src/sql/thing.rs:43 | The key of field 1, LengthDelimited, is the single byte 0x0A. |
| `Wire.WriteBuffer.PutString` | lib/src/sql/thing.rs:43 | Appends key, varint length and payload. |
| `Wire.WriteBuffer.PutVarint` | lib/src/sql/thing.rs:43 | The varint loop appends exactly `Varint.Encode(v)`. |
| `Varint.Len` | lib/src/sql/thing.rs:90 | The varint length count equals the length of the encoding, and is at least 1. |
| `Varint.DecodeEncode` | lib/src/sql/thing.rs:67 | A 64-bit value encoded then decoded comes back and consumes exactly its bytes. |
| `Varint.LenOf64Bit` | lib/src/sql/thing.rs:67 | A 64-bit value takes at most ten bytes, so the decoder's ten-byte bound never rejects one. |
| `Varint.LenIgnoresLowBits` | lib/src/sql/thing.rs:90 | The wire-type bits do not change a key's varint length. |
| `Utf8.ConcatValid` | lib/src/sql/thing.rs:42 | Joining well-formed texts (what `format!` does) gives well-formed text. |
| `Utf8.SplitAtAscii` | lib/src/sql/thing.rs:70 | Cutting well-formed text at an ASCII byte such as `:` gives well-formed pieces. |

## Left out

- `Display` and `to_raw` (lines 160-171): they depend on `escape_rid` and `Id`'s Display, neither of which is part of this model. The wire payload uses the unescaped `tb`, which is modelled, so the model does not need them.
- `FromStr` and `TryFrom<&str | String | Strand>` (lines 129-158): they hand the text to the query-language parser `syn::thing`, which is not part of this model, and only reduce its error to `()`.
- `compute` (lines 173-187): an async call into `Id::compute` over the execution context, options, transaction and document, none of which is part of this model. It carries `tb` through unchanged.
- The internals of `Id` (`lib/src/sql/id.rs` is not part of this model): its variants beyond `String` (here `Number` and `Other`), its display text, its default, `Id::from` and its ordering are parameters. Derived equality on `Id` is taken to be structural equality.
- `Things.FromText`: `From<(String, String)>` and `From<(&str, &str)>` both use one parameter `idFrom` for `Id::from`. The model assumes the `String` and `&str` conversions agree.
- `Things.MergeField`: after a failure, the buffer position is not modelled, and `rest` is the input. prost's `DecodeContext` recursion limit and the `err_ctx` message text are not modelled.
- `Things.MergeField`: `skip_field`'s byte-level work is a parameter. The model states only that skipping leaves the value unchanged and passes on its outcome.
- prost's outer message loop, which reads keys and calls `merge_field`, is not part of this model. The round trip is stated from the byte after the key.
- `Wire.ReadString`: prost's decode errors are reduced to the four kinds the codec can meet. The UTF-8 check is RFC 3629 well-formedness, which is what Rust's `from_utf8` accepts.
- `Wire.StringEncodedLen`: prost's closed-form `encoded_len_varint`, ((63 − the leading zeros of `value | 1`) × 9 + 73) / 64, is replaced by its recursive definition. The model does not prove the closed form equal to it.
- Integer widths: tags (`u32`) and lengths (`usize`, `u64` on the wire) are unbounded naturals. A Rust string cannot reach 2^64 bytes, so the varint writer is never asked for a longer length. Only the decoder's 64-bit bound is modelled.
- serde, `revisioned`, `Store`, `Reflect`, `Hash` and `arbitrary` derives, and the `TOKEN` constant: they are library glue, not codec behaviour.
- `PartialOrd`: the derived `partial_cmp` compares `tb` and then `id`, each with its own `partial_cmp`. The model assumes `Id`'s `partial_cmp` agrees with its `cmp` (it is `Some(cmp)`), so that `Thing`'s `partial_cmp` is `Some` of the derived `cmp`; only `cmp` is modelled.
