/** The session token of the `cactuserve` server: a `User`, written by
    `Writer` as its username's UTF-8 bytes (visible) and its scope flags as a
    little-endian `u16` (opaque), and read back by `Reader`. */
module Users {
  import opened Outcomes
  import opened Bytes
  import opened Utf8
  import Bits
  import Codec
  import Keystream

  /** `anyhow::Error`, which neither `Writer` nor `Reader` ever returns. */
  datatype Error = Error(message: string)

  /** The `bitflags!` type `Scope: u16`; `bits` may hold any value, as
      `from_bits_retain` allows. */
  datatype Scope = Scope(bits: u16)

  /** The single flag, `Awesome = 1 << 0`. */
  const AWESOME: Scope := Scope(1)

  /** `Scope::all().bits()`: the union of the defined flags. */
  const ALL_BITS: u16 := 1

  /** A scope made of defined flags only. */
  predicate Defined(s: Scope)
  {
    Bits.And(s.bits, ALL_BITS) == s.bits
  }

  /** With `Awesome` the only flag, the defined scopes are 0 and 1. */
  lemma DefinedScopes(s: Scope)
    ensures Defined(s) <==> s.bits <= 1
  {
    Bits.AndOne(s.bits);
  }

  /** `Scope::from_bits_truncate`: the bits of the defined flags, here bit 0. */
  function FromBitsTruncate(b: u16): (s: Scope)
    ensures s.bits == b % 2
    ensures Defined(s)
    ensures b <= 1 ==> s.bits == b
  {
    Bits.AndOne(b);
    Bits.AndOne(b % 2);
    Scope(Bits.And(b, ALL_BITS))
  }

  /** `User { username: String, scope: Scope }`. */
  datatype User = User(username: Utf8String, scope: Scope)

  /** `Writer::bytes`: it never fails; the visible segment is the username's
      bytes and the opaque segment the two bytes the scope bits are read
      back from. */
  function WriteBytes(token: User): (r: Result<Codec.Segments, Error>)
    ensures r.Ok?
    ensures r.value.visible == token.username
    ensures |r.value.opaqueBytes| == 2
    ensures FromLeBytes(r.value.opaqueBytes[0], r.value.opaqueBytes[1]) == token.scope.bits
  {
    LeBytesRoundTrip(token.scope.bits, 0, 0);
    Ok(Codec.Segments(token.username, ToLeBytes(token.scope.bits)))
  }

  /** What `Reader::build_token` does: it never returns `Err`; it panics in
      `get_u16_le` when fewer than two opaque bytes are left, and in
      `assert_eq!` when more than two were given; otherwise the username is
      the visible bytes made valid and the scope the defined flags of the
      little-endian value of the two opaque bytes, which is bit 0 of the
      first. */
  function ReadToken(visible: seq<byte>, opaqueBytes: seq<byte>): (r: Completion<Result<User, Error>>)
    ensures r.Panicked? <==> |opaqueBytes| != 2
    ensures r.Panicked? ==> (r.fault == BufferUnderflow <==> |opaqueBytes| < 2)
    ensures r.Panicked? ==> (r.fault == AssertionFailed <==> |opaqueBytes| > 2)
    ensures r.Returned? ==> r.value.Ok? && Defined(r.value.value.scope)
    ensures r.Returned? ==> r.value.value.scope.bits == opaqueBytes[0] % 2
    ensures r.Returned? && ValidUtf8(visible) ==> r.value.value.username == visible
  {
    if |opaqueBytes| < 2 then Panicked(BufferUnderflow)
    else if |opaqueBytes| > 2 then Panicked(AssertionFailed)
    else Returned(Ok(User(FromUtf8Lossy(visible), FromBitsTruncate(FromLeBytes(opaqueBytes[0], opaqueBytes[1])))))
  }

  /** `Reader::build_token`, reading the scope through a cursor over the
      opaque bytes that `get_u16_le` advances and `assert_eq!` checks is
      used up. */
  method BuildToken(visible: seq<byte>, opaqueBytes: seq<byte>) returns (r: Completion<Result<User, Error>>)
    ensures r == ReadToken(visible, opaqueBytes)
  {
    var username := FromUtf8Lossy(visible);
    var cursor := opaqueBytes;
    if |cursor| < 2 {
      return Panicked(BufferUnderflow);
    }
    var raw := FromLeBytes(cursor[0], cursor[1]);
    cursor := cursor[2..];
    var scope := FromBitsTruncate(raw);
    if |cursor| != 0 {
      return Panicked(AssertionFailed);
    }
    return Returned(Ok(User(username, scope)));
  }

  /** Reading back what `Writer` wrote gives the same user exactly when its
      scope holds defined flags only; other bits are dropped on the way. */
  lemma {:induction false} SegmentsRoundTrip(u: User)
    ensures var segments := WriteBytes(u).value;
            ReadToken(segments.visible, segments.opaqueBytes) == Returned(Ok(u)) <==> Defined(u.scope)
  {
    var segments := WriteBytes(u).value;
    var r := ReadToken(segments.visible, segments.opaqueBytes);
    assert r.value.value.username == u.username;
    DefinedScopes(u.scope);
    if Defined(u.scope) {
      assert r.value.value.scope == u.scope;
    } else {
      assert r.value.value.scope != u.scope;
    }
  }

  /** End to end, with the corrected decoder: any user whose scope holds
      defined flags and whose username fits the 16-bit length field, the
      empty name included, is encoded into a transport string that decodes
      to the same user. */
  lemma {:induction false} TokenRoundTrip(u: User, sign: Codec.Signer, verify: Codec.Verifier,
                                          chacha: Keystream.Generator, engine: Codec.Base64Engine)
    requires Codec.Verifies(verify, sign) && Codec.RoundTrips(engine)
    requires Defined(u.scope) && FitsU16(|u.username|)
    ensures Codec.Encode(WriteBytes, u, sign, chacha, engine).Returned?
    ensures Codec.Encode(WriteBytes, u, sign, chacha, engine).value.Ok?
    ensures var s := Codec.Encode(WriteBytes, u, sign, chacha, engine).value.value;
            Codec.DecodeFixed(ReadToken, s, verify, chacha, engine) == Returned(Ok(u))
  {
    Codec.RoundTripFixed(WriteBytes, ReadToken, u, sign, verify, chacha, engine);
    SegmentsRoundTrip(u);
  }

  /** The same with the decoder as written, whose 16-bit total of the two
      lengths needs the username to leave room for the two scope bytes. */
  lemma {:induction false} TokenRoundTripAsWritten(u: User, sign: Codec.Signer, verify: Codec.Verifier,
                                                   chacha: Keystream.Generator, engine: Codec.Base64Engine)
    requires Codec.Verifies(verify, sign) && Codec.RoundTrips(engine)
    requires Defined(u.scope) && |u.username| <= 0xFFFD
    ensures Codec.Encode(WriteBytes, u, sign, chacha, engine).Returned?
    ensures Codec.Encode(WriteBytes, u, sign, chacha, engine).value.Ok?
    ensures var s := Codec.Encode(WriteBytes, u, sign, chacha, engine).value.value;
            Codec.Decode(ReadToken, s, verify, chacha, engine) == Returned(Ok(u))
  {
    Codec.RoundTrip(WriteBytes, ReadToken, u, sign, verify, chacha, engine);
    SegmentsRoundTrip(u);
  }

  /** As written, a user whose name is 65534 or 65535 bytes long is issued a
      token that never decodes: the 16-bit total wraps around. */
  lemma {:induction false} LongUsernameNeverDecodes(u: User, sign: Codec.Signer, verify: Codec.Verifier,
                                                    chacha: Keystream.Generator, engine: Codec.Base64Engine)
    requires Codec.RoundTrips(engine)
    requires 0xFFFE <= |u.username| <= 0xFFFF
    ensures Codec.Encode(WriteBytes, u, sign, chacha, engine).Returned?
    ensures Codec.Encode(WriteBytes, u, sign, chacha, engine).value.Ok?
    ensures var s := Codec.Encode(WriteBytes, u, sign, chacha, engine).value.value;
            !Codec.Decode(ReadToken, s, verify, chacha, engine).Returned? ||
            Codec.Decode(ReadToken, s, verify, chacha, engine).value == Err(Codec.InvalidSignature)
  {
    Codec.SumOverflowBreaksRoundTrip(WriteBytes, ReadToken, u, sign, verify, chacha, engine);
  }

  /** A concrete such user: 65535 letters `a` with the `Awesome` flag. */
  lemma OverflowExample(sign: Codec.Signer, verify: Codec.Verifier,
                        chacha: Keystream.Generator, engine: Codec.Base64Engine)
    requires Codec.Verifies(verify, sign) && Codec.RoundTrips(engine)
    ensures var name: seq<byte> := seq(0xFFFF, _ => 0x61);
            && ValidUtf8(name)
            && var u := User(name, AWESOME);
               var s := Codec.Encode(WriteBytes, u, sign, chacha, engine).value.value;
               && Codec.Encode(WriteBytes, u, sign, chacha, engine).Returned?
               && Codec.Encode(WriteBytes, u, sign, chacha, engine).value.Ok?
               && Codec.Decode(ReadToken, s, verify, chacha, engine) != Returned(Ok(u))
               && Codec.DecodeFixed(ReadToken, s, verify, chacha, engine) == Returned(Ok(u))
  {
    var name: seq<byte> := seq(0xFFFF, _ => 0x61);
    AsciiIsValid(name);
    var u := User(name, AWESOME);
    LongUsernameNeverDecodes(u, sign, verify, chacha, engine);
    TokenRoundTrip(u, sign, verify, chacha, engine);
  }
}
