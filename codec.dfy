/** The session-token codec: `to_str` turns a token into its transport string
    and `from_str` turns a transport string back into a token.

    Wire format (before base64url, RFC 4648 section 5):
      LE16(|visible|) ++ LE16(|opaque|) ++ visible ++ ChaCha20(opaque) ++ Ed25519 signature
    where the signature (RFC 8032) covers `visible ++ ChaCha20(opaque)`.

    The signature scheme, the keystream generator and the base64 engine are
    parameters. What the codec needs of them is stated as hypotheses
    (`Verifies`, `RoundTrips`) on the lemmas that need them. */
module Codec {
  import opened Outcomes
  import opened Bytes
  import Keystream

  /** `DecodeTokenError`; the source spells the second variant `InalidSignature`. */
  datatype DecodeTokenError<+E> = InvalidBase64 | InvalidSignature | Other(error: E)

  /** `EncodeTokenError`: only a writer error. */
  datatype EncodeTokenError<+E> = Other(error: E)

  /** The two byte segments a token writer splits a token into. */
  datatype Segments = Segments(visible: seq<byte>, opaqueBytes: seq<byte>)

  /** `TokenWriter::bytes`, for any token type and writer error type. */
  type TokenWriter<-T, E> = T -> Result<Segments, E>

  /** `TokenReader::build_token`: given the visible and the decrypted opaque
      bytes, it returns a token or an error, or panics. */
  type TokenReader<T, E> = (seq<byte>, seq<byte>) -> Completion<Result<T, E>>

  /** `Ed25519KeyPair::sign` under the issuer's private key. */
  type Signer = seq<byte> -> seq<byte>

  /** `UnparsedPublicKey::verify(message, signature)` under a public key. */
  type Verifier = (seq<byte>, seq<byte>) -> bool

  /** The `BASE64_URL_SAFE` engine: `encode`, and `decode_slice` into a buffer
      of `decoded_len_estimate` bytes, which is always large enough. */
  datatype Base64Engine = Base64Engine(encode: seq<byte> -> string, decode: string -> Option<seq<byte>>)

  /** `verify` is the public counterpart of `sign`: it accepts every signature `sign` makes. */
  ghost predicate Verifies(verify: Verifier, sign: Signer)
  {
    forall m :: verify(m, sign(m))
  }

  /** Decoding gives back whatever was encoded. */
  ghost predicate RoundTrips(engine: Base64Engine)
  {
    forall b :: engine.decode(engine.encode(b)) == Some(b)
  }

  // ---------------------------------------------------------------------------
  // Encoding

  /** The wire token: the 4-byte header of the two segment lengths, the
      visible bytes, the ciphertext and the signature. */
  function Frame(visible: seq<byte>, ciphertext: seq<byte>, signature: seq<byte>): (wire: seq<byte>)
    requires FitsU16(|visible|) && FitsU16(|ciphertext|)
    ensures |wire| == 4 + |visible| + |ciphertext| + |signature|
  {
    ToLeBytes(|visible|) + ToLeBytes(|ciphertext|) + (visible + ciphertext + signature)
  }

  /** What `to_str` produces: a writer error is passed on as `Other`, a segment
      longer than 65535 bytes panics in `u16::try_from(..).unwrap()`, and
      otherwise the result is the base64url text of the framed wire token. A
      segment of exactly 65535 bytes is accepted. */
  function Encode<T, E>(writer: TokenWriter<T, E>, token: T, sign: Signer,
                        chacha: Keystream.Generator, engine: Base64Engine)
    : (r: Completion<Result<string, EncodeTokenError<E>>>)
    ensures writer(token).Err? ==> r == Returned(Err(EncodeTokenError.Other(writer(token).error)))
    ensures writer(token).Ok? ==>
              var v, o := writer(token).value.visible, writer(token).value.opaqueBytes;
              && (r.Panicked? <==> |v| > 0xFFFF || |o| > 0xFFFF)
              && (r.Panicked? ==> r.fault == UnwrapFailed)
              && (r.Returned? ==> r.value.Ok?)
  {
    match writer(token)
    case Err(e) => Returned(Err(EncodeTokenError.Other(e)))
    case Ok(segments) =>
      var ciphertext := Keystream.Apply(chacha, segments.opaqueBytes);
      var signature := sign(segments.visible + ciphertext);
      if FitsU16(|segments.visible|) && FitsU16(|segments.opaqueBytes|) then
        Returned(Ok(engine.encode(Frame(segments.visible, ciphertext, signature))))
      else
        Panicked(UnwrapFailed)
  }

  /** `message.copy_within(..n, dest)`: the first `n` bytes move to `dest`,
      copied from the back so that overlapping ranges are handled as `memmove`
      does; bytes outside `dest..dest + n` keep their values. */
  method CopyWithin(buf: seq<byte>, n: nat, dest: nat) returns (out: seq<byte>)
    requires n + dest <= |buf|
    ensures out == buf[..dest] + buf[..n] + buf[dest + n..]
  {
    out := buf;
    var i := n;
    while i > 0
      invariant 0 <= i <= n
      invariant |out| == |buf|
      invariant forall j :: 0 <= j < dest + i ==> out[j] == buf[j]
      invariant forall k :: i <= k < n ==> out[dest + k] == buf[k]
      invariant forall j :: dest + n <= j < |buf| ==> out[j] == buf[j]
    {
      i := i - 1;
      out := out[dest + i := out[i]];
    }
    var want := buf[..dest] + buf[..n] + buf[dest + n..];
    assert |out| == |want|;
    forall j | 0 <= j < |out|
      ensures out[j] == want[j]
    {
      if j < dest {
        assert want[j] == buf[j];
      } else if j < dest + n {
        assert want[j] == buf[j - dest];
        assert out[dest + (j - dest)] == buf[j - dest];
      } else {
        assert want[j] == buf[j];
      }
    }
  }

  /** Four bytes written one by one in front of an unchanged tail. */
  lemma HeaderWritten(m: seq<byte>, a: seq<byte>, b: seq<byte>)
    requires |m| >= 4 && |a| == 2 && |b| == 2
    requires m[0] == a[0] && m[1] == a[1] && m[2] == b[0] && m[3] == b[1]
    ensures m == a + b + m[4..]
  {
    assert m == m[..4] + m[4..];
    assert m[..4] == a + b;
  }

  /** The end of `to_str`: the signed message is shifted right by four
      bytes and the two lengths are written in front of it, each through
      `u16::try_from(..).unwrap()`, which panics on a length past 65535. */
  method PrependHeader(message: seq<byte>, visibleLen: nat, opaqueLen: nat)
    returns (r: Completion<seq<byte>>)
    ensures FitsU16(visibleLen) && FitsU16(opaqueLen) ==>
              r == Returned(ToLeBytes(visibleLen) + ToLeBytes(opaqueLen) + message)
    ensures !(FitsU16(visibleLen) && FitsU16(opaqueLen)) ==> r == Panicked(UnwrapFailed)
  {
    var buf := message;
    var previousLen := |buf|;
    buf := buf + [0, 0, 0, 0];
    buf := CopyWithin(buf, previousLen, 4);
    assert buf[4..] == message by {
      assert buf == buf[..4] + message + [];
    }

    if !FitsU16(visibleLen) {
      return Panicked(UnwrapFailed);
    }
    var a := ToLeBytes(visibleLen);
    buf := buf[0 := a[0]];
    buf := buf[1 := a[1]];

    if !FitsU16(opaqueLen) {
      return Panicked(UnwrapFailed);
    }
    var b := ToLeBytes(opaqueLen);
    buf := buf[2 := b[0]];
    buf := buf[3 := b[1]];

    assert buf[4..] == message;
    HeaderWritten(buf, a, b);
    return Returned(buf);
  }

  /** `to_str`: the message buffer is grown, encrypted in place past the
      visible bytes, signed, extended by the signature, shifted right by four
      bytes, and given its header. */
  method ToStr<T, E>(writer: TokenWriter<T, E>, token: T, sign: Signer,
                     chacha: Keystream.Generator, engine: Base64Engine)
    returns (r: Completion<Result<string, EncodeTokenError<E>>>)
    ensures r == Encode(writer, token, sign, chacha, engine)
  {
    var written := writer(token);
    if written.Err? {
      return Returned(Err(EncodeTokenError.Other(written.error)));
    }
    var visible, opaqueBytes := written.value.visible, written.value.opaqueBytes;

    var message: seq<byte> := [];
    message := message + visible;
    message := message + opaqueBytes;
    assert message[..|visible|] == visible && message[|visible|..] == opaqueBytes;
    message := Keystream.ApplyFrom(chacha, message, |visible|);
    ghost var ciphertext := Keystream.Apply(chacha, opaqueBytes);
    assert message == visible + ciphertext;

    var sig := sign(message);
    message := message + sig;
    assert message == visible + ciphertext + sig;

    var framed := PrependHeader(message, |visible|, |opaqueBytes|);
    if framed.Panicked? {
      return Panicked(framed.fault);
    }
    return Returned(Ok(engine.encode(framed.value)));
  }

  // ---------------------------------------------------------------------------
  // Decoding

  /** The header's visible and opaque segment lengths. */
  function VisibleSize(wire: seq<byte>): u16
    requires |wire| >= 4
  {
    FromLeBytes(wire[0], wire[1])
  }

  function OpaqueSize(wire: seq<byte>): u16
    requires |wire| >= 4
  {
    FromLeBytes(wire[2], wire[3])
  }

  /** How `from_str` passes on what the reader returns: its errors become
      `Other`, its panics stay panics. */
  function ReaderOutcome<T, E>(built: Completion<Result<T, E>>): Completion<Result<T, DecodeTokenError<E>>>
  {
    match built
    case Panicked(f) => Panicked(f)
    case Returned(Ok(token)) => Returned(Ok(token))
    case Returned(Err(e)) => Returned(Err(DecodeTokenError.Other(e)))
  }

  /** The part of `from_str` after the header: the `body` that follows it is
      split at `total` into message and signature, the signature is checked,
      and only then is the message split at `visibleSize`, its opaque part
      decrypted and the reader called. */
  function Unframe<T, E>(reader: TokenReader<T, E>, verify: Verifier, chacha: Keystream.Generator,
                         body: seq<byte>, visibleSize: nat, total: nat)
    : (r: Completion<Result<T, DecodeTokenError<E>>>)
    ensures total > |body| ==> r == Panicked(SplitOutOfBounds)
    ensures total <= |body| ==>
              (r == Returned(Err(InvalidSignature)) <==> !verify(body[..total], body[total..]))
    ensures r.Returned? && r.value.Ok? ==>
              && visibleSize <= total <= |body|
              && verify(body[..total], body[total..])
  {
    if total > |body| then Panicked(SplitOutOfBounds)
    else
      var message, signature := body[..total], body[total..];
      if !verify(message, signature) then Returned(Err(InvalidSignature))
      else if visibleSize > total then Panicked(SplitOutOfBounds)
      else ReaderOutcome(reader(message[..visibleSize], Keystream.Apply(chacha, message[visibleSize..])))
  }

  /** What `from_str` returns, as written: the header total is the `u16` sum
      of the two lengths, which wraps past 65535 (in a build with overflow
      checks it panics instead; the decode fails either way). Input shorter
      than the 4-byte header panics on the indexing. */
  function Decode<T, E>(reader: TokenReader<T, E>, s: string, verify: Verifier,
                        chacha: Keystream.Generator, engine: Base64Engine)
    : (r: Completion<Result<T, DecodeTokenError<E>>>)
    ensures engine.decode(s).None? ==> r == Returned(Err(InvalidBase64))
    ensures engine.decode(s).Some? ==>
              var wire := engine.decode(s).value;
              && (|wire| < 4 ==> r == Panicked(IndexOutOfBounds))
              && (|wire| >= 4 && 4 + WrappingAdd(VisibleSize(wire), OpaqueSize(wire)) > |wire| ==>
                    r == Panicked(SplitOutOfBounds))
  {
    match engine.decode(s)
    case None => Returned(Err(InvalidBase64))
    case Some(wire) =>
      if |wire| < 4 then Panicked(IndexOutOfBounds)
      else Unframe(reader, verify, chacha, wire[4..], VisibleSize(wire),
                   WrappingAdd(VisibleSize(wire), OpaqueSize(wire)))
  }

  /** `from_str` with the header total computed without overflow
      (`usize::from(visible_size) + usize::from(opaque_size)`); otherwise
      identical to `Decode`, and equal to it whenever the sum does not wrap. */
  function DecodeFixed<T, E>(reader: TokenReader<T, E>, s: string, verify: Verifier,
                             chacha: Keystream.Generator, engine: Base64Engine)
    : (r: Completion<Result<T, DecodeTokenError<E>>>)
    ensures engine.decode(s).None? ==> r == Returned(Err(InvalidBase64))
    ensures engine.decode(s).Some? ==>
              var wire := engine.decode(s).value;
              && (|wire| < 4 ==> r == Panicked(IndexOutOfBounds))
              && (|wire| >= 4 && 4 + VisibleSize(wire) + OpaqueSize(wire) > |wire| ==>
                    r == Panicked(SplitOutOfBounds))
              && (|wire| >= 4 && VisibleSize(wire) + OpaqueSize(wire) <= 0xFFFF ==>
                    r == Decode(reader, s, verify, chacha, engine))
  {
    match engine.decode(s)
    case None => Returned(Err(InvalidBase64))
    case Some(wire) =>
      if |wire| < 4 then Panicked(IndexOutOfBounds)
      else Unframe(reader, verify, chacha, wire[4..], VisibleSize(wire),
                   VisibleSize(wire) + OpaqueSize(wire))
  }

  /** `from_str`: decode into a buffer, read the header, split off the
      signature, verify, split the message, decrypt the opaque part in place
      and hand both parts to the reader. */
  method FromStr<T, E>(reader: TokenReader<T, E>, s: string, verify: Verifier,
                       chacha: Keystream.Generator, engine: Base64Engine)
    returns (r: Completion<Result<T, DecodeTokenError<E>>>)
    ensures r == Decode(reader, s, verify, chacha, engine)
  {
    var decoded := engine.decode(s);
    if decoded.None? {
      return Returned(Err(InvalidBase64));
    }
    var decodedToken := decoded.value;
    if |decodedToken| < 4 {
      return Panicked(IndexOutOfBounds);
    }
    var visibleSize := FromLeBytes(decodedToken[0], decodedToken[1]);
    var opaqueSize := FromLeBytes(decodedToken[2], decodedToken[3]);
    decodedToken := decodedToken[4..];

    var totalSize := WrappingAdd(visibleSize, opaqueSize);
    if totalSize > |decodedToken| {
      return Panicked(SplitOutOfBounds);
    }
    var message, signature := decodedToken[..totalSize], decodedToken[totalSize..];
    if !verify(message, signature) {
      return Returned(Err(InvalidSignature));
    }

    if visibleSize > |message| {
      return Panicked(SplitOutOfBounds);
    }
    ghost var sent := message;
    message := Keystream.ApplyFrom(chacha, message, visibleSize);
    var visible, decrypted := message[..visibleSize], message[visibleSize..];
    assert visible == sent[..visibleSize];
    assert decrypted == Keystream.Apply(chacha, sent[visibleSize..]);

    var built := reader(visible, decrypted);
    r := ReaderOutcome(built);
  }

  // ---------------------------------------------------------------------------
  // Properties

  /** The transport string of a token decodes to the framed wire token, whose
      header holds the two segment lengths; the visible bytes are carried
      unchanged, only the opaque ones are encrypted, and the signature is made
      over the visible bytes and the ciphertext. */
  lemma EncodedLayout<T, E>(writer: TokenWriter<T, E>, token: T, sign: Signer,
                            chacha: Keystream.Generator, engine: Base64Engine, s: string)
    requires RoundTrips(engine)
    requires Encode(writer, token, sign, chacha, engine) == Returned(Ok(s))
    ensures writer(token).Ok?
    ensures var v, o := writer(token).value.visible, writer(token).value.opaqueBytes;
            && FitsU16(|v|) && FitsU16(|o|)
            && engine.decode(s).Some?
            && var wire := engine.decode(s).value;
            && 4 + |v| + |o| <= |wire|
            && VisibleSize(wire) == |v| && OpaqueSize(wire) == |o|
            && wire[4..4 + |v|] == v
            && wire[4 + |v|..4 + |v| + |o|] == Keystream.Apply(chacha, o)
            && wire[4 + |v| + |o|..] == sign(wire[4..4 + |v| + |o|])
  {
    var v, o := writer(token).value.visible, writer(token).value.opaqueBytes;
    var c := Keystream.Apply(chacha, o);
    var wire := Frame(v, c, sign(v + c));
    assert engine.decode(s) == Some(wire);
    LeBytesRoundTrip(|v|, 0, 0);
    LeBytesRoundTrip(|o|, 0, 0);
    assert wire[4..] == v + c + sign(v + c);
    assert wire[4..4 + |v|] == v;
    assert wire[4 + |v|..4 + |v| + |o|] == c;
    assert wire[4..4 + |v| + |o|] == v + c;
  }

  /** Decoding the output of encoding hands the reader exactly the writer's
      segments, provided the two lengths add up to at most 65535 (the `u16`
      sum of the header). */
  lemma {:induction false} RoundTrip<T, E, F>(writer: TokenWriter<T, E>, reader: TokenReader<T, F>, token: T,
                                sign: Signer, verify: Verifier,
                                chacha: Keystream.Generator, engine: Base64Engine)
    requires Verifies(verify, sign) && RoundTrips(engine)
    requires writer(token).Ok?
    requires |writer(token).value.visible| + |writer(token).value.opaqueBytes| <= 0xFFFF
    ensures Encode(writer, token, sign, chacha, engine).Returned?
    ensures Encode(writer, token, sign, chacha, engine).value.Ok?
    ensures var s := Encode(writer, token, sign, chacha, engine).value.value;
            var segments := writer(token).value;
            Decode(reader, s, verify, chacha, engine) == ReaderOutcome(reader(segments.visible, segments.opaqueBytes))
  {
    var s := Encode(writer, token, sign, chacha, engine).value.value;
    var v, o := writer(token).value.visible, writer(token).value.opaqueBytes;
    EncodedLayout(writer, token, sign, chacha, engine, s);
    var wire := engine.decode(s).value;
    assert WrappingAdd(VisibleSize(wire), OpaqueSize(wire)) == |v| + |o|;
    UnframeOfFrame(reader, sign, verify, chacha, wire, v, o);
  }

  /** The same round trip for the corrected decoder, which needs only each
      segment to fit its 16-bit length field. */
  lemma {:induction false} RoundTripFixed<T, E, F>(writer: TokenWriter<T, E>, reader: TokenReader<T, F>, token: T,
                                     sign: Signer, verify: Verifier,
                                     chacha: Keystream.Generator, engine: Base64Engine)
    requires Verifies(verify, sign) && RoundTrips(engine)
    requires writer(token).Ok?
    requires FitsU16(|writer(token).value.visible|) && FitsU16(|writer(token).value.opaqueBytes|)
    ensures Encode(writer, token, sign, chacha, engine).Returned?
    ensures Encode(writer, token, sign, chacha, engine).value.Ok?
    ensures var s := Encode(writer, token, sign, chacha, engine).value.value;
            var segments := writer(token).value;
            DecodeFixed(reader, s, verify, chacha, engine) == ReaderOutcome(reader(segments.visible, segments.opaqueBytes))
  {
    var s := Encode(writer, token, sign, chacha, engine).value.value;
    var v, o := writer(token).value.visible, writer(token).value.opaqueBytes;
    EncodedLayout(writer, token, sign, chacha, engine, s);
    var wire := engine.decode(s).value;
    UnframeOfFrame(reader, sign, verify, chacha, wire, v, o);
  }

  /** The step both round trips share: a wire token laid out by `Encode`,
      split at the right total, passes verification and gives the reader the
      original segments. */
  lemma {:induction false} UnframeOfFrame<T, F>(reader: TokenReader<T, F>, sign: Signer, verify: Verifier,
                                 chacha: Keystream.Generator, wire: seq<byte>, v: seq<byte>, o: seq<byte>)
    requires Verifies(verify, sign)
    requires 4 + |v| + |o| <= |wire|
    requires VisibleSize(wire) == |v|
    requires wire[4..4 + |v|] == v
    requires wire[4 + |v|..4 + |v| + |o|] == Keystream.Apply(chacha, o)
    requires wire[4 + |v| + |o|..] == sign(wire[4..4 + |v| + |o|])
    ensures Unframe(reader, verify, chacha, wire[4..], VisibleSize(wire), |v| + |o|) == ReaderOutcome(reader(v, o))
  {
    var body := wire[4..];
    var total := |v| + |o|;
    var message := body[..total];
    assert message == wire[4..4 + total];
    assert body[total..] == wire[4 + total..];
    assert verify(message, body[total..]);
    assert message[..|v|] == v;
    assert message[|v|..] == Keystream.Apply(chacha, o);
    Keystream.ApplyInvolution(chacha, o);
  }

  /** As written, a token whose two segments each fit 16 bits but together
      exceed 65535 bytes is encoded, but its transport string never decodes
      to what the reader would build: the wrapped total cuts the message
      short, so either the signature check fails or, should it pass, the
      visible size overruns the message and `split_at_mut` panics. */
  lemma {:induction false} SumOverflowBreaksRoundTrip<T, E, F>(writer: TokenWriter<T, E>, reader: TokenReader<T, F>, token: T,
                                                sign: Signer, verify: Verifier,
                                                chacha: Keystream.Generator, engine: Base64Engine)
    requires RoundTrips(engine)
    requires writer(token).Ok?
    requires FitsU16(|writer(token).value.visible|) && FitsU16(|writer(token).value.opaqueBytes|)
    requires |writer(token).value.visible| + |writer(token).value.opaqueBytes| > 0xFFFF
    ensures Encode(writer, token, sign, chacha, engine).Returned?
    ensures Encode(writer, token, sign, chacha, engine).value.Ok?
    ensures var s := Encode(writer, token, sign, chacha, engine).value.value;
            var d := Decode(reader, s, verify, chacha, engine);
            || d == Returned(Err(InvalidSignature))
            || d == Panicked(SplitOutOfBounds)
  {
    var s := Encode(writer, token, sign, chacha, engine).value.value;
    var v, o := writer(token).value.visible, writer(token).value.opaqueBytes;
    EncodedLayout(writer, token, sign, chacha, engine, s);
    var wire := engine.decode(s).value;
    var total := WrappingAdd(VisibleSize(wire), OpaqueSize(wire));
    assert total < |v|;
  }

  /** The signature is checked before anything else looks at the message: when
      it does not verify, decoding fails with `InvalidSignature` whatever the
      reader would have done, so the reader is never reached. */
  lemma SignatureCheckedFirst<T, E>(reader: TokenReader<T, E>, s: string, verify: Verifier,
                                   chacha: Keystream.Generator, engine: Base64Engine)
    requires engine.decode(s).Some? && |engine.decode(s).value| >= 4
    requires var wire := engine.decode(s).value;
             var total := WrappingAdd(VisibleSize(wire), OpaqueSize(wire));
             && 4 + total <= |wire|
             && !verify(wire[4..4 + total], wire[4 + total..])
    ensures Decode(reader, s, verify, chacha, engine) == Returned(Err(InvalidSignature))
  {
    var wire := engine.decode(s).value;
    var total := WrappingAdd(VisibleSize(wire), OpaqueSize(wire));
    assert wire[4..][..total] == wire[4..4 + total];
    assert wire[4..][total..] == wire[4 + total..];
  }

  /** A decode that reaches the reader was authenticated: the transport string
      decodes to a header, a message and a signature that the verifier
      accepted, and the outcome is the reader's on the visible part and the
      decrypted rest of that message. A verifier that accepts nothing (a wrong
      public key) therefore never lets a token through. */
  lemma DecodedOnlyIfVerified<T, E>(reader: TokenReader<T, E>, s: string, verify: Verifier,
                                    chacha: Keystream.Generator, engine: Base64Engine)
    requires Decode(reader, s, verify, chacha, engine).Returned?
    requires Decode(reader, s, verify, chacha, engine).value.Ok?
    ensures engine.decode(s).Some? && |engine.decode(s).value| >= 4
    ensures var wire := engine.decode(s).value;
            var vs := VisibleSize(wire);
            var total := WrappingAdd(vs, OpaqueSize(wire));
            && vs <= total && 4 + total <= |wire|
            && verify(wire[4..4 + total], wire[4 + total..])
            && Decode(reader, s, verify, chacha, engine)
               == ReaderOutcome(reader(wire[4..4 + vs], Keystream.Apply(chacha, wire[4 + vs..4 + total])))
  {
    var wire := engine.decode(s).value;
    var vs := VisibleSize(wire);
    var total := WrappingAdd(vs, OpaqueSize(wire));
    var message := wire[4..][..total];
    assert message == wire[4..4 + total];
    assert wire[4..][total..] == wire[4 + total..];
    assert message[..vs] == wire[4..4 + vs];
    assert message[vs..] == wire[4 + vs..4 + total];
  }
}
