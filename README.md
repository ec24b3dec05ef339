# cactuserve session tokens in Dafny

This project models how the cactuserve web server issues and checks session
tokens, and proves properties of that model.

A token type is split by a *token writer* into a visible and an opaque byte
segment. `to_str` turns the segments into a transport string:

1. it encrypts the opaque segment with ChaCha20 (RFC 8439, section 2.4) under a fixed key and nonce;
2. it signs the visible bytes and the ciphertext with Ed25519 (RFC 8032);
3. it prefixes a 4-byte header of the two segment lengths, each a little-endian `u16`;
4. it encodes the whole with base64url (RFC 4648, section 5).

`from_str` undoes these steps. It checks the signature before it decrypts and
before the *token reader* rebuilds the token.

The Rocket request guard takes the transport string from the `Authorization:
Bearer …` header or, failing that, from the `cactuserve-session` cookie. It
answers 401 when neither is present and 400 for anything malformed.

The server's own token is a `User`. Its visible segment is the username's
UTF-8 bytes. Its opaque segment is its `Scope` flags as two little-endian
bytes. The site's `ScopeList` is a separate set of scopes packed into a
`u32` bitmask.

Modules, one file each:

- `Outcomes` (outcomes.dfy): `Option`, `Result`, and `Completion`, which is either a returned value or a panic with its cause. The modelled code panics in several places, and every panic is modelled as a value.
- `Bits` (bits.dfy): `&`, `|` and `^` on non-negative integers, defined bit by bit, with what each does to bit `k` (`AndBit`, `OrBit`, `XorBit`).
- `Bytes` (bytes.dfy): `u8`, `u16`, `to_le_bytes`/`from_le_bytes`, the wrapping `u16` addition, and XOR on bytes.
- `Keystream` (keystream.dfy): the stream cipher applied to a buffer, as an XOR with a keystream that is a parameter. It includes the in-place `apply_keystream` over a slice suffix.
- `Codec` (codec.dfy): `to_str` and `from_str` as imperative methods over the growing message buffer. Each is proved equal to a specification function (`Encode`, `Decode`). The round trips, the wire layout and the order of the checks are proved about those functions.
- `RequestAuth` (auth.dfy): `from_request` as a pure function of the optional header value, the optional cookie value and the decoder.
- `Utf8` (utf8.dfy): well-formed UTF-8 (Table 3-7 of the Unicode Standard) and `String::from_utf8_lossy`, which replaces each maximal ill-formed subpart with U+FFFD, as Rust's `Utf8Chunks` does.
- `Users` (users.dfy): `User`, its `Scope` bitflags, `Writer::bytes` and `Reader::build_token`, with end-to-end round trips through the codec.
- `Scopes` (scopes.dfy): the `ScopeList` bitmask algebra.

The signature scheme, the keystream generator and the base64 engine are
parameters of the codec, not definitions. What the proofs need of them is
stated as hypotheses:

- `Codec.Verifies(verify, sign)`: the verifier accepts every signature the signer makes.
- `Codec.RoundTrips(engine)`: base64 decoding gives back what was encoded.

The cipher is modelled as an XOR with a keystream, so it preserves length and
is its own inverse. These are proved, not assumed.

The source names the signature error `InalidSignature`. The model calls it
`InvalidSignature`.

## Model

| member | source | states |
|---|---|---|
| `Bytes.ToLeBytes` | crates/cactuserve_sessions/src/web.rs:148-152 | `to_le_bytes` gives two bytes, low byte first, whose value is the number written |
| `Bytes.FromLeBytes` | crates/cactuserve_sessions/src/web.rs:90-91 | `from_le_bytes([lo, hi])` is the number whose low byte is `lo` and high byte `hi` |
| `Bytes.LeBytesRoundTrip` | crates/cactuserve_sessions/src/web.rs:148-154 | the two header bytes written for a length read back as that length, and any two bytes are the encoding of the value they are read as |
| `Bytes.WrappingAdd` | crates/cactuserve_sessions/src/web.rs:97 | the `u16` sum of the two header lengths is the true sum when it is below 65536, and otherwise the sum minus 65536, smaller than either operand |
| `Keystream.Apply` | crates/cactuserve_sessions/src/web.rs:103-107 | the cipher leaves the length of the buffer unchanged |
| `Keystream.ApplyInvolution` | crates/cactuserve_sessions/src/web.rs:103-107 | decrypting with the same key and nonce restores the plaintext, since the cipher is its own inverse |
| `Keystream.ApplyInjective` | crates/cactuserve_sessions/src/web.rs:139-140 | two plaintexts encrypt to the same ciphertext exactly when they are equal |
| `Keystream.ApplyFrom` | crates/cactuserve_sessions/src/web.rs:133-140 | `apply_keystream` on the suffix from `from` leaves the bytes before `from` unchanged and replaces the suffix by its encryption |
| `Codec.Encode` | crates/cactuserve_sessions/src/web.rs:114-157 | a writer error becomes `EncodeTokenError::Other`; encoding panics (in `unwrap`) exactly when a segment exceeds 65535 bytes; otherwise it returns a string |
| `Codec.Frame` | crates/cactuserve_sessions/src/web.rs:145-154 | the framed token is 4 header bytes longer than the visible bytes, the ciphertext and the signature together |
| `Codec.CopyWithin` | crates/cactuserve_sessions/src/web.rs:145-147 | after `copy_within(..n, dest)`, the first `n` bytes appear at `dest`; the bytes before `dest` and after `dest + n` are unchanged |
| `Codec.PrependHeader` | crates/cactuserve_sessions/src/web.rs:145-154 | after the shift and the four header writes the buffer is the two little-endian lengths followed by the old message; a length past 65535 panics |
| `Codec.ToStr` | crates/cactuserve_sessions/src/web.rs:114-157 | the buffer-building encoder returns exactly the specification `Encode`, including its panic and its writer error |
| `Codec.EncodedLayout` | crates/cactuserve_sessions/src/web.rs:133-156 | a token's transport string decodes to the two length fields, then the visible bytes unchanged, then the encrypted opaque bytes, then the signature over visible plus ciphertext |
| `Codec.Unframe` | crates/cactuserve_sessions/src/web.rs:97-111 | a total past the remaining bytes panics; otherwise the result is `InvalidSignature` exactly when the signature fails; a token is returned only after verification and with the visible size within the total |
| `Codec.Decode` | crates/cactuserve_sessions/src/web.rs:73-112 | bad base64 gives `InvalidBase64`; fewer than 4 bytes panic on indexing; a wrapped total longer than the rest panics in `split_at_mut` |
| `Codec.DecodeFixed` | crates/cactuserve_sessions/src/web.rs:97-98 | the corrected decoder has the same input checks with the total taken without overflow, and agrees with `Decode` whenever the sum fits 16 bits |
| `Codec.FromStr` | crates/cactuserve_sessions/src/web.rs:73-112 | the slice-splitting decoder returns exactly the specification `Decode`, including each panic and each error |
| `Codec.UnframeOfFrame` | crates/cactuserve_sessions/src/web.rs:97-111 | a correctly framed and signed message, split at the true total, passes verification and hands the reader the original segments |
| `Codec.RoundTrip` | crates/cactuserve_sessions/src/web.rs:89-156 | with the source's `u16` total, decoding an encoded token gives the reader exactly the writer's segments when the two lengths add up to at most 65535 |
| `Codec.RoundTripFixed` | crates/cactuserve_sessions/src/web.rs:97-98 | with the total computed without overflow, the round trip holds whenever each segment fits its 16-bit length field |
| `Codec.SumOverflowBreaksRoundTrip` | crates/cactuserve_sessions/src/web.rs:97-101 | when each segment fits but the two together exceed 65535 bytes, the token is encoded but decodes only to `InvalidSignature` or a `split_at_mut` panic |
| `Codec.SignatureCheckedFirst` | crates/cactuserve_sessions/src/web.rs:97-111 | a message whose signature does not verify yields `InvalidSignature`, whatever the reader would do, so the reader is never reached |
| `Codec.DecodedOnlyIfVerified` | crates/cactuserve_sessions/src/web.rs:89-111 | any token that decodes passed the verifier, and the result is the reader's outcome on the visible bytes and the decrypted rest |
| `RequestAuth.StripPrefix` | crates/cactuserve_sessions/src/web/rocket.rs:26-28 | a prefix is stripped exactly when the header value starts with it, and the value is the prefix followed by the rest |
| `RequestAuth.TrimStart` | crates/cactuserve_sessions/src/web/rocket.rs:29 | `trim_start` removes only leading whitespace and all of it, so the result is a suffix not starting with whitespace |
| `RequestAuth.Candidate` | crates/cactuserve_sessions/src/web/rocket.rs:22-37 | a token candidate exists exactly when a header or a cookie is present; the cookie is used only without a header and as it is; a header without `Bearer` is `InvalidHeaderFormat`; otherwise the candidate is what follows `Bearer` and leading whitespace |
| `RequestAuth.Bind` | crates/cactuserve_sessions/src/web/rocket.rs:42-50 | a decoded token yields `Auth` holding exactly it; any decode error becomes `BadToken` with status 400; a panic stays a panic |
| `RequestAuth.FromRequest` | crates/cactuserve_sessions/src/web/rocket.rs:21-51 | no header and no cookie give exactly 401 `NoSession`; a failure is 401 only for `NoSession`; `UnsupportedAuthScheme` never occurs |
| `RequestAuth.HeaderBeforeCookie` | crates/cactuserve_sessions/src/web/rocket.rs:22-37 | when the `Authorization` header is present, the cookie does not affect the outcome |
| `RequestAuth.MissingSchemeRejected` | crates/cactuserve_sessions/src/web/rocket.rs:27-48 | a header not starting with `Bearer` gives 400 `InvalidHeaderFormat` |
| `RequestAuth.BearerStripped` | crates/cactuserve_sessions/src/web/rocket.rs:27-29 | after `Bearer`, any run of leading whitespace is dropped and the rest is decoded as it is |
| `RequestAuth.TrimStartPrefix` | crates/cactuserve_sessions/src/web/rocket.rs:29 | trimming whitespace followed by a string that does not start with whitespace gives that string |
| `RequestAuth.BearerWithoutSpace` | crates/cactuserve_sessions/src/web/rocket.rs:27-29 | `BearerXYZ` is accepted and decodes the token `XYZ` |
| `RequestAuth.CookieDecodedAsIs` | crates/cactuserve_sessions/src/web/rocket.rs:31-46 | without a header, the cookie value is decoded unchanged |
| `RequestAuth.BadSignatureIsBadRequest` | crates/cactuserve_sessions/src/web/rocket.rs:42-48 | with the codec's decoder, a token whose signature fails gets 400 `BadToken(InvalidSignature)`, not 401 |
| `Utf8.Chunk` | crates/cactuserve/src/users.rs:91 | each step of the lossy conversion consumes at least one byte, and whatever it keeps is one well-formed character |
| `Utf8.Lossy` | crates/cactuserve/src/users.rs:91 | `from_utf8_lossy` always yields well-formed UTF-8, empty exactly for empty input |
| `Utf8.LossyIdentity` | crates/cactuserve/src/users.rs:91 | `from_utf8_lossy` leaves its input unchanged exactly when the input is well-formed UTF-8 |
| `Utf8.FromUtf8Lossy` | crates/cactuserve/src/users.rs:91 | the username built from visible bytes is a valid `String`, equal to the bytes exactly when they are valid UTF-8 |
| `Users.DefinedScopes` | crates/cactuserve/src/users.rs:75-80 | with `Awesome = 1` the only flag, the scopes made of defined flags are exactly the values 0 and 1 |
| `Users.FromBitsTruncate` | crates/cactuserve/src/users.rs:75-92 | `from_bits_truncate` keeps bit 0 alone, always yields defined flags, and keeps a value that has only defined flags |
| `Users.WriteBytes` | crates/cactuserve/src/users.rs:105-109 | `Writer::bytes` never fails; visible is the username's bytes; opaque is two bytes holding the scope bits little-endian |
| `Users.ReadToken` | crates/cactuserve/src/users.rs:90-95 | `build_token` never returns `Err`; it panics exactly when the opaque segment is not 2 bytes (underflow below, assertion above); the scope is `from_bits_truncate` of the little-endian `u16`, which is bit 0 of the first opaque byte; a valid username is kept as it is |
| `Users.BuildToken` | crates/cactuserve/src/users.rs:90-95 | the cursor-advancing reader returns exactly `ReadToken` |
| `Users.SegmentsRoundTrip` | crates/cactuserve/src/users.rs:90-109 | reading back what the writer wrote gives the same user exactly when its scope holds defined flags only |
| `Users.TokenRoundTrip` | crates/cactuserve/src/users.rs:90-109 | through the corrected codec, every user with defined scope flags and a username of at most 65535 bytes, the empty one included, is encoded and decoded back to itself |
| `Users.TokenRoundTripAsWritten` | crates/cactuserve/src/users.rs:105-108 | through the codec as written, the same holds for usernames of at most 65533 bytes |
| `Users.LongUsernameNeverDecodes` | crates/cactuserve_sessions/src/web.rs:97-98 | as written, a user with a 65534- or 65535-byte name gets a token that never decodes to a user |
| `Users.OverflowExample` | crates/cactuserve_sessions/src/web.rs:97 | 65535 letters `a` with `Awesome` form a valid user; its token does not decode as written, and decodes to the same user when corrected |
| `Scopes.Scope.Discriminant` | src/scopes.rs:25-31 | a scope's discriminant selects one of the 32 bits of a `u32` |
| `Scopes.Variants` | src/scopes.rs:16-20 | `variants()` lists every scope, in increasing discriminant order |
| `Scopes.Bit` | src/scopes.rs:48-50 | `1 << scope as u32` has exactly the scope's bit set |
| `Scopes.FromScope` | src/scopes.rs:48-62 | `from_scope(s)` has bit `s as u32` set and no other |
| `Scopes.AdminIsBitZero` | src/scopes.rs:29-46 | `ADMIN` is `ScopeList(1)` and contains `Admin` |
| `Scopes.Contains` | src/scopes.rs:52-54 | `contains(l, s)` holds exactly when bit `s as u32` of `l.0` is set |
| `Scopes.FromScopeContains` | src/scopes.rs:45-54 | a singleton contains its own scope and no other; `EMPTY` contains nothing |
| `Scopes.Or` | src/scopes.rs:80-86 | each bit of `a \| b` is set exactly when it is set in `a` or in `b` |
| `Scopes.OrContains` | src/scopes.rs:80-86 | `a \| b` contains a scope exactly when `a` or `b` does |
| `Scopes.OrAssign` | src/scopes.rs:88-92 | `l \|= m` leaves `l` equal to `l \| m` |
| `Scopes.OrAssignScope` | src/scopes.rs:94-98 | `l \|= s` sets bit `s`, leaves every other bit as it was, and equals `l \| from(s)` |
| `Scopes.Reduce` | src/scopes.rs:71-78 | folding singletons with `\|` onto an accumulator contains a scope exactly when the accumulator does or the scope is among the rest |
| `Scopes.Collect` | src/scopes.rs:64-78 | collecting nothing gives `EMPTY`; collecting `xs` gives a list that contains `s` exactly when `s` is in `xs` |
| `Scopes.Filter` | src/scopes.rs:102-107 | the filter keeps exactly the scopes whose bit is set, in their original order |
| `Scopes.ToVec` | src/scopes.rs:100-109 | the `Vec<Scope>` lists exactly the scopes the list contains, in `variants()` order, without duplicates |
| `Scopes.ToVecRoundTrip` | src/scopes.rs:71-109 | collecting the `Vec<Scope>` made from `l` contains the same scopes, and equals `l` masked to the bits of defined scopes |

## Left out

- Ed25519 signing and verification, the ChaCha20 block function and the base64url engine are library code. They are parameters; their required laws are hypotheses (`Codec.Verifies`, `Codec.RoundTrips`).
- The `decoded_len_estimate` buffer sizing and the unreachable `OutputSliceTooSmall` branch are not modelled. The engine's `decode` is assumed to report only genuine decode errors.
- The `MAX_SIGNATURE_SIZE` capacity hint in `to_str` only affects allocation and is not modelled.
- The `dbg!` output in `from_str` only writes to stderr and is not modelled.
- `Bytes.WrappingAdd`: models the release build, where the `u16` sum wraps. A debug build panics on the same overflow instead. Either way the round trip fails, and `Codec.SumOverflowBreaksRoundTrip` covers the release behaviour only.
- `key_pair()` and `Provider::public_key` are not modelled; they do file I/O, PEM parsing, random key generation and process-wide lazy initialisation. The verifier and signer are parameters instead.
- Rocket's request, header and cookie plumbing is not modelled. The request is reduced to the first `Authorization` value and the `cactuserve-session` cookie value, each optional. `R::default()` and `K::public_key()` are folded into the decoder parameter.
- A panic inside the request guard is kept as a panic (`Completion.Panicked`). Rocket's conversion of it into a 500 response is not modelled.
- `User::username` and `User::scope` are field reads and have no separate members.
- `From<ScopeList> for u32` is the field `ScopeList.bits` and has no separate member.
- `FromIterator<&Scope>` dereferences and delegates to `FromIterator<Scope>`, so both are modelled by `Scopes.Collect` over the scopes themselves.
- The iterators of `FromIterator` are modelled as finite sequences.
- `Scopes.OrAssign`, `Scopes.OrAssignScope`: `ScopeList` is a `Copy` value, so `|=` on `&mut self` is modelled as a method taking the old value and returning the new one. Aliasing through the mutable reference is not modelled.
- The legacy postcard-and-base64 session path of the site's `main.rs` and `sessions.rs`, and the `tokens.rs` crate (postcard, crc32), are not part of this model.
- The `TokenWriter`/`TokenReader` traits and their closure impls are function-typed parameters.

## Findings

| source | as written | input that shows it | evidently intended | confidence | as-written member | corrected member |
|---|---|---|---|---|---|---|
| crates/cactuserve_sessions/src/web.rs:97 | `from_str` adds the two header lengths as `u16` values, while `to_str` only checks that each length fits in 16 bits | a `User` whose username is 65535 letters `a`, with scope `Awesome`: the header says 65535 and 2, so the total wraps to 1, and decoding splits the message after 1 byte | the sum is taken in `usize`, so every token `to_str` issues decodes | not executed | `Users.OverflowExample` | `Codec.RoundTripFixed` |
