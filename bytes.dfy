/** Bytes and the byte form of Rust text. */
module Bytes {

  /** One octet, as written to a `bytes::BufMut` or read from a `bytes::Buf`. */
  newtype byte = x: int | 0 <= x < 256

  /** The UTF-8 bytes of a Rust `String` or `&str`. */
  type Text = seq<byte>
}
