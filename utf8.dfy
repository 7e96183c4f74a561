/**
 * Strict UTF-8 decoding, as `bytes.decode('utf-8')` performs it: only the
 * well-formed byte sequences of RFC 3629 (Table 3-7 of the Unicode Standard)
 * are accepted; an overlong form, an encoded surrogate, a value above
 * U+10FFFF or a truncated sequence raises `UnicodeDecodeError` (here None).
 */
module Utf8 {
  import opened Wrappers
  import opened Bits

  predicate IsContinuation(b: byte) {
    0x80 <= b <= 0xBF
  }

  /** The text the bytes spell when every byte is ASCII. */
  function AsciiText(bs: seq<byte>): (s: string)
    requires forall i :: 0 <= i < |bs| ==> bs[i] < 0x80
    ensures |s| == |bs| && forall i :: 0 <= i < |bs| ==> s[i] as int == bs[i]
  {
    seq(|bs|, i requires 0 <= i < |bs| => bs[i] as char)
  }

  /**
   * The scalar value that the first well-formed sequence of `bs` encodes, and
   * that sequence's length; None when `bs` does not start with one.
   */
  function DecodeFirst(bs: seq<byte>): (r: Option<(char, nat)>)
    requires |bs| > 0
    ensures r.Some? ==> 1 <= r.value.1 <= |bs| && r.value.1 <= 4
    ensures r.Some? ==> (r.value.0 as int < 0x80 <==> r.value.1 == 1)
    ensures r.Some? && r.value.1 == 1 ==> r.value.0 as int == bs[0]
    ensures bs[0] < 0x80 ==> r == Some((bs[0] as char, 1))
  {
    var b0 := bs[0] as int;
    if b0 < 0x80 then Some((b0 as char, 1))
    else if 0xC2 <= b0 <= 0xDF then
      if |bs| >= 2 && IsContinuation(bs[1])
      then Some((((b0 - 0xC0) * 0x40 + (bs[1] as int - 0x80)) as char, 2))
      else None
    else if 0xE0 <= b0 <= 0xEF then
      if |bs| >= 3
         && (if b0 == 0xE0 then 0xA0 <= bs[1] <= 0xBF
             else if b0 == 0xED then 0x80 <= bs[1] <= 0x9F
             else IsContinuation(bs[1]))
         && IsContinuation(bs[2])
      then Some((((b0 - 0xE0) * 0x1000 + (bs[1] as int - 0x80) * 0x40 + (bs[2] as int - 0x80)) as char, 3))
      else None
    else if 0xF0 <= b0 <= 0xF4 then
      if |bs| >= 4
         && (if b0 == 0xF0 then 0x90 <= bs[1] <= 0xBF
             else if b0 == 0xF4 then 0x80 <= bs[1] <= 0x8F
             else IsContinuation(bs[1]))
         && IsContinuation(bs[2]) && IsContinuation(bs[3])
      then Some((((b0 - 0xF0) * 0x40000 + (bs[1] as int - 0x80) * 0x1000
                  + (bs[2] as int - 0x80) * 0x40 + (bs[3] as int - 0x80)) as char, 4))
      else None
    else None
  }

  /** `bytes.decode('utf-8')` with strict error handling. */
  function Decode(bs: seq<byte>): Option<string>
    decreases |bs|
  {
    if bs == [] then Some([])
    else
      match DecodeFirst(bs)
      case None => None
      case Some((c, n)) =>
        match Decode(bs[n..])
        case None => None
        case Some(rest) => Some([c] + rest)
  }

  /** ASCII bytes always decode, to the characters with the same codes. */
  lemma {:induction false} DecodeAscii(bs: seq<byte>)
    requires forall i :: 0 <= i < |bs| ==> bs[i] < 0x80
    ensures Decode(bs) == Some(AsciiText(bs))
    decreases |bs|
  {
    if bs != [] {
      DecodeAscii(bs[1..]);
      assert AsciiText(bs) == [bs[0] as char] + AsciiText(bs[1..]);
    }
  }

  /**
   * Decoded text all of whose characters are ASCII came from exactly those
   * bytes: every multi-byte sequence decodes to a character at or above U+0080.
   */
  lemma {:induction false} DecodedAsciiIsBytes(bs: seq<byte>)
    requires Decode(bs).Some?
    requires forall i :: 0 <= i < |Decode(bs).value| ==> Decode(bs).value[i] as int < 0x80
    ensures |Decode(bs).value| == |bs|
    ensures forall i :: 0 <= i < |bs| ==> Decode(bs).value[i] as int == bs[i]
    decreases |bs|
  {
    if bs != [] {
      var s := Decode(bs).value;
      var n := DecodeFirst(bs).value.1;
      assert s[0] == DecodeFirst(bs).value.0;
      assert n == 1;
      var tail := Decode(bs[1..]).value;
      assert s == [s[0]] + tail;
      assert forall i :: 0 <= i < |tail| ==> tail[i] == s[i + 1];
      DecodedAsciiIsBytes(bs[1..]);
    }
  }
}
