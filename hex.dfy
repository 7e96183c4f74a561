/**
 * Hexadecimal text: Python's `bytes.fromhex` (the decoder `hex_to_base32`
 * relies on), its inverse `bytes.hex`, and ASCII lower-casing as `str.lower`
 * applies it to hex text.
 */
module Hex {
  import opened Wrappers
  import opened Bits

  predicate IsHexDigit(c: char) {
    '0' <= c <= '9' || 'a' <= c <= 'f' || 'A' <= c <= 'F'
  }

  predicate IsLowerHexDigit(c: char) {
    '0' <= c <= '9' || 'a' <= c <= 'f'
  }

  predicate IsHexString(s: string) {
    forall i :: 0 <= i < |s| ==> IsHexDigit(s[i])
  }

  predicate IsLowerHexString(s: string) {
    forall i :: 0 <= i < |s| ==> IsLowerHexDigit(s[i])
  }

  /** The ASCII whitespace `bytes.fromhex` skips between byte pairs: space, \t, \n, \v, \f, \r. */
  predicate IsAsciiSpace(c: char) {
    c == ' ' || '\t' <= c <= '\r'
  }

  function DigitValue(c: char): (v: nat)
    requires IsHexDigit(c)
    ensures v < 16
  {
    if '0' <= c <= '9' then c as int - '0' as int
    else if 'a' <= c <= 'f' then c as int - 'a' as int + 10
    else c as int - 'A' as int + 10
  }

  function LowerDigit(v: nat): (c: char)
    requires v < 16
    ensures IsLowerHexDigit(c) && DigitValue(c) == v
  {
    if v < 10 then ('0' as int + v) as char else ('a' as int + v - 10) as char
  }

  /** ASCII lower-casing of one character; every other character is left alone. */
  function LowerChar(c: char): (d: char)
    ensures 'A' <= c <= 'Z' ==> d as int == c as int + 32
    ensures !('A' <= c <= 'Z') ==> d == c
  {
    if 'A' <= c <= 'Z' then (c as int + 32) as char else c
  }

  /** `str.lower` as it acts on ASCII text. */
  function Lower(s: string): (r: string)
    ensures |r| == |s| && forall i :: 0 <= i < |s| ==> r[i] == LowerChar(s[i])
  {
    seq(|s|, i requires 0 <= i < |s| => LowerChar(s[i]))
  }

  /**
   * `bytes.fromhex`: two hex digits (either case) per byte, ASCII whitespace
   * skipped before each pair, anything else (an odd digit out, a non-hex or
   * non-ASCII character, whitespace inside a pair) raises `ValueError`, here None.
   */
  function FromHex(s: string): Option<seq<byte>>
    decreases |s|
  {
    if s == [] then Some([])
    else if IsAsciiSpace(s[0]) then FromHex(s[1..])
    else if |s| < 2 || !IsHexDigit(s[0]) || !IsHexDigit(s[1]) then None
    else
      match FromHex(s[2..])
      case None => None
      case Some(rest) => Some([16 * DigitValue(s[0]) + DigitValue(s[1])] + rest)
  }

  /** `bytes.hex`: two lower-case digits per byte. */
  function ToHex(bs: seq<byte>): (s: string)
    ensures |s| == 2 * |bs| && IsLowerHexString(s)
  {
    if bs == [] then "" else [LowerDigit(bs[0] / 16), LowerDigit(bs[0] % 16)] + ToHex(bs[1..])
  }

  /** How many characters of `s` are not whitespace. */
  function NonSpaceCount(s: string): (n: nat)
    ensures n <= |s|
  {
    if s == [] then 0 else (if IsAsciiSpace(s[0]) then 0 else 1) + NonSpaceCount(s[1..])
  }

  /** Hex-encoding and then decoding gives back the bytes. */
  lemma {:induction false} FromHexToHex(bs: seq<byte>)
    ensures FromHex(ToHex(bs)) == Some(bs)
  {
    if bs != [] {
      var s := ToHex(bs);
      assert s[2..] == ToHex(bs[1..]);
      assert !IsAsciiSpace(s[0]) && IsHexDigit(s[0]) && IsHexDigit(s[1]);
      assert 16 * DigitValue(s[0]) + DigitValue(s[1]) == bs[0];
      FromHexToHex(bs[1..]);
      assert bs == [bs[0]] + bs[1..];
    }
  }

  /**
   * Whatever `bytes.fromhex` accepts consists of hex digits and whitespace,
   * two digits for each byte it returns: a non-hex, non-whitespace character
   * or an odd number of digits is always rejected.
   */
  lemma {:induction false} FromHexAccepted(s: string)
    requires FromHex(s).Some?
    ensures forall i :: 0 <= i < |s| ==> IsHexDigit(s[i]) || IsAsciiSpace(s[i])
    ensures 2 * |FromHex(s).value| == NonSpaceCount(s)
    decreases |s|
  {
    if s != [] {
      if IsAsciiSpace(s[0]) {
        FromHexAccepted(s[1..]);
        assert forall i :: 1 <= i < |s| ==> s[i] == s[1..][i - 1];
      } else {
        FromHexAccepted(s[2..]);
        assert forall i :: 2 <= i < |s| ==> s[i] == s[2..][i - 2];
        assert s[1..][1..] == s[2..];
      }
    }
  }

  predicate HasNoSpace(s: string) {
    forall i :: 0 <= i < |s| ==> !IsAsciiSpace(s[i])
  }

  /** Both character predicates hold of a string exactly when they hold of its first two characters and the rest. */
  lemma SplitPair(s: string)
    requires |s| >= 2
    ensures IsHexString(s) <==> IsHexDigit(s[0]) && IsHexDigit(s[1]) && IsHexString(s[2..])
    ensures HasNoSpace(s) ==> HasNoSpace(s[2..])
    ensures Lower(s) == [LowerChar(s[0]), LowerChar(s[1])] + Lower(s[2..])
  {
    assert forall i :: 2 <= i < |s| ==> s[i] == s[2..][i - 2];
  }

  /** Hex-encoding the byte two digits spell gives back those digits in lower case. */
  lemma ToHexPair(c0: char, c1: char, rest: seq<byte>)
    requires IsHexDigit(c0) && IsHexDigit(c1)
    ensures 16 * DigitValue(c0) + DigitValue(c1) < 256
    ensures ToHex([16 * DigitValue(c0) + DigitValue(c1)] + rest) == [LowerChar(c0), LowerChar(c1)] + ToHex(rest)
  {
    var b := 16 * DigitValue(c0) + DigitValue(c1);
    var bs := [b] + rest;
    assert b / 16 == DigitValue(c0) && b % 16 == DigitValue(c1);
    assert LowerDigit(DigitValue(c0)) == LowerChar(c0);
    assert LowerDigit(DigitValue(c1)) == LowerChar(c1);
    assert bs[1..] == rest;
  }

  /**
   * On text without whitespace, `bytes.fromhex` succeeds exactly on an even
   * number of hex digits.
   */
  lemma {:induction false} FromHexWithoutSpaces(s: string)
    requires HasNoSpace(s)
    ensures FromHex(s).Some? <==> |s| % 2 == 0 && IsHexString(s)
    decreases |s|
  {
    if |s| >= 2 {
      SplitPair(s);
      FromHexWithoutSpaces(s[2..]);
    } else if |s| == 1 {
      assert !IsHexDigit(s[0]) ==> !IsHexString(s);
    }
  }

  /**
   * On text without whitespace, the bytes `bytes.fromhex` returns hex-encode
   * back to the text in lower case.
   */
  lemma {:induction false} ToHexFromHex(s: string)
    requires HasNoSpace(s) && FromHex(s).Some?
    ensures ToHex(FromHex(s).value) == Lower(s)
    decreases |s|
  {
    if s != [] {
      SplitPair(s);
      ToHexFromHex(s[2..]);
      ToHexPair(s[0], s[1], FromHex(s[2..]).value);
    }
  }

  /** Lower-casing a character changes neither its class nor its digit value. */
  lemma LowerCharKeeps(c: char)
    ensures IsAsciiSpace(LowerChar(c)) <==> IsAsciiSpace(c)
    ensures IsHexDigit(LowerChar(c)) <==> IsHexDigit(c)
    ensures IsHexDigit(c) ==> DigitValue(LowerChar(c)) == DigitValue(c)
  {
  }

  lemma LowerTails(s: string)
    requires s != []
    ensures Lower(s)[0] == LowerChar(s[0]) && Lower(s)[1..] == Lower(s[1..])
    ensures |s| >= 2 ==> Lower(s)[1] == LowerChar(s[1]) && Lower(s)[2..] == Lower(s[2..])
  {
  }

  /** `bytes.fromhex` does not depend on the letter case of its input. */
  lemma {:induction false} FromHexIgnoresCase(s: string)
    ensures FromHex(Lower(s)) == FromHex(s)
    decreases |s|
  {
    if s != [] {
      LowerTails(s);
      LowerCharKeeps(s[0]);
      FromHexIgnoresCase(s[1..]);
      if |s| >= 2 {
        LowerCharKeeps(s[1]);
        FromHexIgnoresCase(s[2..]);
      }
    }
  }
}
