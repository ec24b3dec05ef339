/** The stream cipher that hides the opaque segment: ChaCha20 (RFC 8439,
    section 2.4) under one fixed key and nonce. The keystream generator itself
    is a parameter; what the codec relies on is that the cipher XORs the data
    with that keystream, so applying it twice restores the data. */
module Keystream {
  import opened Bytes
  import Bits

  /** The key and nonce every token is encrypted under. */
  const KEY: seq<byte> := seq(32, _ => 0x42)
  const NONCE: seq<byte> := seq(12, _ => 0x24)

  /** A keystream generator: byte `i` of the stream for a key and a nonce,
      counted from the first byte of a freshly constructed cipher. */
  type Generator = (seq<byte>, seq<byte>, nat) -> byte

  /** What `apply_keystream` leaves in a slice that held `data`, for a cipher
      freshly constructed from `KEY` and `NONCE`. */
  function Apply(chacha: Generator, data: seq<byte>): (r: seq<byte>)
    ensures |r| == |data|
  {
    seq<byte>(|data|, i requires 0 <= i < |data| => XorByte(data[i], chacha(KEY, NONCE, i)))
  }

  /** The cipher is its own inverse: decrypting is encrypting again. */
  lemma ApplyInvolution(chacha: Generator, data: seq<byte>)
    ensures Apply(chacha, Apply(chacha, data)) == data
  {
    var once := Apply(chacha, data);
    var twice := Apply(chacha, once);
    forall i | 0 <= i < |data|
      ensures twice[i] == data[i]
    {
      Bits.XorInvolution(data[i], chacha(KEY, NONCE, i));
    }
  }

  /** Equal inputs of the cipher give equal outputs, and distinct ones distinct:
      the cipher never merges two plaintexts. */
  lemma ApplyInjective(chacha: Generator, a: seq<byte>, b: seq<byte>)
    ensures Apply(chacha, a) == Apply(chacha, b) <==> a == b
  {
    if Apply(chacha, a) == Apply(chacha, b) {
      ApplyInvolution(chacha, a);
      ApplyInvolution(chacha, b);
    }
  }

  /** A fresh cipher applied in place to `buf[from..]`, byte by byte, as
      `cipher.apply_keystream(&mut buf[from..])` does; `buf[..from]` is left
      as it was. */
  method ApplyFrom(chacha: Generator, buf: seq<byte>, from: nat) returns (out: seq<byte>)
    requires from <= |buf|
    ensures out == buf[..from] + Apply(chacha, buf[from..])
  {
    out := buf;
    var i := 0;
    while i < |buf| - from
      invariant 0 <= i <= |buf| - from
      invariant |out| == |buf|
      invariant out[..from] == buf[..from]
      invariant forall k :: 0 <= k < i ==> out[from + k] == XorByte(buf[from + k], chacha(KEY, NONCE, k))
      invariant out[from + i..] == buf[from + i..]
    {
      out := out[from + i := XorByte(out[from + i], chacha(KEY, NONCE, i))];
      i := i + 1;
    }
    assert out == buf[..from] + Apply(chacha, buf[from..]) by {
      var want := buf[..from] + Apply(chacha, buf[from..]);
      assert |out| == |want|;
      forall j | 0 <= j < |out|
        ensures out[j] == want[j]
      {
        if j >= from {
          assert out[from + (j - from)] == XorByte(buf[from + (j - from)], chacha(KEY, NONCE, j - from));
        } else {
          assert out[..from][j] == buf[..from][j];
        }
      }
    }
  }
}
