/** UTF-8 as Rust's `String` holds it, and `String::from_utf8_lossy`, which
    turns any bytes into valid UTF-8 by replacing each maximal ill-formed
    subpart with U+FFFD (section 3.9 of the Unicode Standard, Table 3-7). */
module Utf8 {
  import opened Bytes

  /** A continuation byte, `10xxxxxx`. */
  predicate Cont(b: byte)
  {
    0x80 <= b <= 0xBF
  }

  /** One well-formed encoded scalar value, row by row of Table 3-7. */
  predicate WellFormedChar(c: seq<byte>)
  {
    || (|c| == 1 && c[0] <= 0x7F)
    || (|c| == 2 && 0xC2 <= c[0] <= 0xDF && Cont(c[1]))
    || (|c| == 3 && Cont(c[2]) &&
         (|| (c[0] == 0xE0 && 0xA0 <= c[1] <= 0xBF)
          || (0xE1 <= c[0] <= 0xEC && Cont(c[1]))
          || (c[0] == 0xED && 0x80 <= c[1] <= 0x9F)
          || (0xEE <= c[0] <= 0xEF && Cont(c[1]))))
    || (|c| == 4 && Cont(c[2]) && Cont(c[3]) &&
         (|| (c[0] == 0xF0 && 0x90 <= c[1] <= 0xBF)
          || (0xF1 <= c[0] <= 0xF3 && Cont(c[1]))
          || (c[0] == 0xF4 && 0x80 <= c[1] <= 0x8F)))
  }

  /** `core::str::utf8_char_width`: the length a leading byte announces, 0
      for a byte that cannot start a character. */
  function CharWidth(b: byte): (w: nat)
    ensures w <= 4
  {
    if b <= 0x7F then 1
    else if 0xC2 <= b <= 0xDF then 2
    else if 0xE0 <= b <= 0xEF then 3
    else if 0xF0 <= b <= 0xF4 then 4
    else 0
  }

  /** A well-formed character is as long as its first byte announces. */
  lemma WellFormedWidth(c: seq<byte>)
    requires WellFormedChar(c)
    ensures CharWidth(c[0]) == |c|
  {
  }

  /** Well-formed UTF-8: a sequence of well-formed characters. */
  predicate ValidUtf8(s: seq<byte>)
    decreases |s|
  {
    s == [] ||
    var w := CharWidth(s[0]);
    1 <= w <= |s| && WellFormedChar(s[..w]) && ValidUtf8(s[w..])
  }

  /** Rust's `String`: bytes that are valid UTF-8. */
  type Utf8String = s: seq<byte> | ValidUtf8(s)

  /** U+FFFD REPLACEMENT CHARACTER, encoded. */
  const REPLACEMENT: seq<byte> := [0xEF, 0xBF, 0xBD]

  /** The byte at `i`, or 0 past the end, which no check accepts. */
  function At(s: seq<byte>, i: nat): byte
  {
    if i < |s| then s[i] else 0
  }

  /** The second byte a three- or four-byte lead admits. */
  predicate SecondOk(lead: byte, b: byte)
  {
    || (lead == 0xE0 && 0xA0 <= b <= 0xBF)
    || ((0xE1 <= lead <= 0xEC || 0xEE <= lead <= 0xEF) && Cont(b))
    || (lead == 0xED && 0x80 <= b <= 0x9F)
    || (lead == 0xF0 && 0x90 <= b <= 0xBF)
    || (0xF1 <= lead <= 0xF3 && Cont(b))
    || (lead == 0xF4 && 0x80 <= b <= 0x8F)
  }

  /** One step of `Utf8Chunks`: the length of the first character of `s` and
      `true`, or the length of the maximal ill-formed subpart it starts with
      and `false`. */
  function Chunk(s: seq<byte>): (r: (nat, bool))
    requires s != []
    ensures 1 <= r.0 <= |s|
    ensures r.1 ==> WellFormedChar(s[..r.0])
  {
    var lead := s[0];
    if lead <= 0x7F then (1, true)
    else match CharWidth(lead)
      case 2 => if Cont(At(s, 1)) then (2, true) else (1, false)
      case 3 =>
        if !SecondOk(lead, At(s, 1)) then (1, false)
        else if !Cont(At(s, 2)) then (2, false)
        else (3, true)
      case 4 =>
        if !SecondOk(lead, At(s, 1)) then (1, false)
        else if !Cont(At(s, 2)) then (2, false)
        else if !Cont(At(s, 3)) then (3, false)
        else (4, true)
      case _ => (1, false)
  }

  /** `String::from_utf8_lossy(bytes).into_owned()`, as bytes: each
      character of `s` is kept and each maximal ill-formed subpart becomes
      U+FFFD, so the result is always valid UTF-8, empty only for empty input. */
  function Lossy(s: seq<byte>): (r: seq<byte>)
    ensures ValidUtf8(r)
    ensures r == [] <==> s == []
    decreases |s|
  {
    if s == [] then []
    else
      var (n, ok) := Chunk(s);
      var head := if ok then s[..n] else REPLACEMENT;
      assert WellFormedChar(REPLACEMENT);
      ValidPrepend(head, Lossy(s[n..]));
      head + Lossy(s[n..])
  }

  /** A well-formed character followed by valid UTF-8 is valid UTF-8. */
  lemma ValidPrepend(c: seq<byte>, t: seq<byte>)
    requires WellFormedChar(c) && ValidUtf8(t)
    ensures ValidUtf8(c + t)
  {
    WellFormedWidth(c);
    assert (c + t)[..|c|] == c;
    assert (c + t)[|c|..] == t;
  }

  /** On a valid first character, `Chunk` takes that character whole. */
  lemma ChunkOfValid(s: seq<byte>)
    requires s != [] && ValidUtf8(s)
    ensures Chunk(s) == (CharWidth(s[0]), true)
  {
  }

  /** The lossy conversion leaves valid UTF-8 as it is, and only valid UTF-8:
      it changes every input that is not. */
  lemma {:induction false} LossyIdentity(s: seq<byte>)
    ensures Lossy(s) == s <==> ValidUtf8(s)
    decreases |s|
  {
    if s != [] && ValidUtf8(s) {
      var n := CharWidth(s[0]);
      LossyOfValidStep(s);
      LossyIdentity(s[n..]);
      assert s == s[..n] + s[n..];
    }
  }

  /** One step of the lossy conversion on valid input keeps the first
      character. */
  lemma LossyOfValidStep(s: seq<byte>)
    requires s != [] && ValidUtf8(s)
    ensures 1 <= CharWidth(s[0]) <= |s|
    ensures Lossy(s) == s[..CharWidth(s[0])] + Lossy(s[CharWidth(s[0])..])
  {
    ChunkOfValid(s);
  }

  /** `String::from_utf8_lossy(bytes).into_owned()` as a `String`. */
  function FromUtf8Lossy(s: seq<byte>): (r: Utf8String)
    ensures ValidUtf8(s) <==> r == s
  {
    LossyIdentity(s);
    Lossy(s)
  }

  /** ASCII bytes are valid UTF-8, one character each. */
  lemma {:induction false} AsciiIsValid(s: seq<byte>)
    requires forall i :: 0 <= i < |s| ==> s[i] <= 0x7F
    ensures ValidUtf8(s)
    decreases |s|
  {
    if s != [] {
      AsciiIsValid(s[1..]);
    }
  }
}
