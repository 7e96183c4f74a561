/**
 * Base32 as section 6 of RFC 4648 defines it, in the two forms the service
 * uses: `base64.b32encode` (padded with '=' to a multiple of 8 symbols) and
 * `base64.b32decode` (which the TOTP library applies to the re-padded secret).
 */
module Base32 {
  import opened Wrappers
  import opened Bits

  /** The RFC 4648 Base32 alphabet: 'A'..'Z' for 0..25, '2'..'7' for 26..31. */
  predicate IsSymbol(c: char) {
    'A' <= c <= 'Z' || '2' <= c <= '7'
  }

  predicate AllSymbols(s: string) {
    forall i :: 0 <= i < |s| ==> IsSymbol(s[i])
  }

  function Symbol(v: nat): (c: char)
    requires v < 32
    ensures IsSymbol(c)
  {
    if v < 26 then ('A' as int + v) as char else ('2' as int + v - 26) as char
  }

  function SymbolValue(c: char): (v: nat)
    requires IsSymbol(c)
    ensures v < 32 && Symbol(v) == c
  {
    if 'A' <= c <= 'Z' then c as int - 'A' as int else c as int - '2' as int + 26
  }

  /** One symbol per 5-bit group of a bit string whose length is a multiple of 5. */
  function EncodeGroups(bits: seq<bool>): (s: string)
    requires |bits| % 5 == 0
    ensures |s| == |bits| / 5 && AllSymbols(s)
  {
    if bits == [] then ""
    else
      assert Pow(2, 5) == 32;
      [Symbol(BitsToNat(bits[..5]))] + EncodeGroups(bits[5..])
  }

  /** The 5-bit groups the symbols stand for, in order. */
  function DecodeGroups(s: string): (bits: seq<bool>)
    requires AllSymbols(s)
    ensures |bits| == 5 * |s|
  {
    if s == "" then [] else NatToBits(SymbolValue(s[0]), 5) + DecodeGroups(s[1..])
  }

  lemma {:induction false} DecodeEncodeGroups(bits: seq<bool>)
    requires |bits| % 5 == 0
    ensures DecodeGroups(EncodeGroups(bits)) == bits
  {
    if bits != [] {
      var s := EncodeGroups(bits);
      assert Pow(2, 5) == 32;
      var v := BitsToNat(bits[..5]);
      assert s[0] == Symbol(v) && s[1..] == EncodeGroups(bits[5..]);
      assert SymbolValue(Symbol(v)) == v;
      BitsToNatRoundTrip(bits[..5]);
      DecodeEncodeGroups(bits[5..]);
      assert bits == bits[..5] + bits[5..];
    }
  }

  /** The zero bits b32encode appends to n bytes to complete the last 5-bit group. */
  function FillBits(n: nat): (z: nat)
    ensures z < 5
  {
    var r := n % 5;
    if r == 0 then 0 else if r == 1 then 2 else if r == 2 then 4 else if r == 3 then 1 else 3
  }

  /** The fill completes a 5-bit group, and the groups number ceil(8n/5). */
  lemma FillBitsGroups(n: nat)
    ensures (8 * n + FillBits(n)) % 5 == 0 && (8 * n + FillBits(n)) / 5 == (8 * n + 4) / 5
  {
    var r := n % 5;
    var z := FillBits(n);
    var k := 8 * (n / 5) + (if r == 0 then 0 else if r == 1 then 2 else if r == 2 then 4 else if r == 3 then 5 else 7);
    assert 8 * n + z == 5 * k;
    ModUnique(8 * n + z, 5, k, 0);
    DivUnique(8 * n + z, 5, k, 0);
    DivUnique(8 * n + 4, 5, k, 4 - z);
  }

  /** The Base32 symbols of `bs` without padding: ceil(8n/5) of them. */
  function EncodeUnpadded(bs: seq<byte>): (s: string)
    ensures |s| == (8 * |bs| + 4) / 5 && AllSymbols(s)
  {
    FillBitsGroups(|bs|);
    EncodeGroups(BytesToBits(bs) + ZeroBits(FillBits(|bs|)))
  }

  /** How many '=' complete `symbols` symbols to a multiple of 8. */
  function PadCount(symbols: nat): (p: nat)
    ensures p < 8 && (symbols + p) % 8 == 0
  {
    (8 - symbols % 8) % 8
  }

  function Padding(p: nat): (s: string)
    ensures |s| == p && forall i :: 0 <= i < p ==> s[i] == '='
  {
    seq(p, _ => '=')
  }

  /** `base64.b32encode`: the symbols, then '=' up to a multiple of 8. */
  function Encode(bs: seq<byte>): (s: string)
    ensures |s| % 8 == 0
  {
    var body := EncodeUnpadded(bs);
    body + Padding(PadCount(|body|))
  }

  /** `str.rstrip(c)` for a single character `c`. */
  function TrimRight(s: string, c: char): (r: string)
    ensures |r| <= |s|
  {
    if s != [] && s[|s| - 1] == c then TrimRight(s[..|s| - 1], c) else s
  }

  /** ASCII upper-casing, as `bytes.upper` does it for `casefold=True`. */
  function Upper(s: string): (r: string)
    ensures |r| == |s|
  {
    seq(|s|, i requires 0 <= i < |s| => if 'a' <= s[i] <= 'z' then (s[i] as int - 32) as char else s[i])
  }

  /** The bits up to the last whole byte; b32decode drops the rest. */
  function WholeBytes(bits: seq<bool>): (r: seq<bool>)
    ensures |r| % 8 == 0 && |bits| - 8 < |r| <= |bits| && r == bits[..|r|]
  {
    bits[..|bits| - |bits| % 8]
  }

  /**
   * The amounts of padding a whole number of bytes can leave after the last
   * symbol of an 8-symbol block: 0, 1, 3, 4 or 6.
   */
  predicate IsPadCount(n: int) {
    n == 0 || n == 1 || n == 3 || n == 4 || n == 6
  }

  /** The two `binascii.Error`s (a `ValueError`) `b32decode` raises, by message. */
  datatype DecodeError = IncorrectPadding | NonBase32Digit
  {
    function Message(): string {
      match this
      case IncorrectPadding => "Incorrect padding"
      case NonBase32Digit => "Non-base32 digit found"
    }
  }

  /**
   * `base64.b32decode(s, casefold)`: the length must be a multiple of 8, the
   * symbols before the trailing '=' must all be in the alphabet, the number of
   * trailing '=' must be 0, 1, 3, 4 or 6, and the bits left over after the
   * last whole byte are dropped.
   */
  function Decode(s: string, casefold: bool): Result<seq<byte>, DecodeError>
  {
    if |s| % 8 != 0 then Failure(IncorrectPadding)
    else
      var t := if casefold then Upper(s) else s;
      var body := TrimRight(t, '=');
      if !AllSymbols(body) then Failure(NonBase32Digit)
      else if !IsPadCount(|t| - |body|) then Failure(IncorrectPadding)
      else Success(BitsToBytes(WholeBytes(DecodeGroups(body))))
  }

  /** The padding b32encode adds is always a count b32decode accepts. */
  lemma PadCountOfEncoding(n: nat)
    ensures IsPadCount(PadCount((8 * n + 4) / 5))
  {
    var q, r := n / 5, n % 5;
    var t := if r == 0 then 0 else if r == 1 then 2 else if r == 2 then 4 else if r == 3 then 5 else 7;
    DivUnique(8 * n + 4, 5, 8 * q + t, 8 * r + 4 - 5 * t);
    ModUnique(8 * q + t, 8, q, t);
  }

  /** `rstrip('=')` removes exactly the padding after text that does not end in '='. */
  lemma {:induction false} TrimPadding(body: string, p: nat)
    requires body == [] || body[|body| - 1] != '='
    ensures TrimRight(body + Padding(p), '=') == body
  {
    if p > 0 {
      var s := body + Padding(p);
      assert s[..|s| - 1] == body + Padding(p - 1);
      TrimPadding(body, p - 1);
    } else {
      assert body + Padding(p) == body;
    }
  }

  /** Stripping '=' from b32encode's output leaves exactly the unpadded symbols. */
  lemma TrimEncode(bs: seq<byte>)
    ensures TrimRight(Encode(bs), '=') == EncodeUnpadded(bs)
  {
    var body := EncodeUnpadded(bs);
    TrimPadding(body, PadCount(|body|));
  }

  /** Upper-casing leaves Base32 symbols and '=' alone. */
  lemma UpperOfPadded(body: string, p: nat)
    requires AllSymbols(body)
    ensures Upper(body + Padding(p)) == body + Padding(p)
  {
    var s := body + Padding(p);
    assert forall i :: 0 <= i < |s| ==> IsSymbol(s[i]) || s[i] == '=';
  }

  /** `rstrip('=')` of symbols followed by padding leaves the symbols. */
  lemma TrimPadded(body: string, p: nat)
    requires AllSymbols(body)
    ensures TrimRight(body + Padding(p), '=') == body
  {
    if body != [] {
      assert IsSymbol(body[|body| - 1]);
    }
    TrimPadding(body, p);
  }

  /** b32decode of alphabet symbols followed by an accepted amount of padding. */
  lemma DecodePadded(body: string, p: nat, casefold: bool)
    requires AllSymbols(body) && IsPadCount(p) && (|body| + p) % 8 == 0
    ensures Decode(body + Padding(p), casefold)
         == Success(BitsToBytes(WholeBytes(DecodeGroups(body))))
  {
    var s := body + Padding(p);
    UpperOfPadded(body, p);
    TrimPadded(body, p);
    DecodeAccepted(s, casefold);
  }

  /** The success case of b32decode, given the text its checks see. */
  lemma DecodeAccepted(s: string, casefold: bool)
    requires casefold ==> Upper(s) == s
    requires |s| % 8 == 0 && AllSymbols(TrimRight(s, '=')) && IsPadCount(|s| - |TrimRight(s, '=')|)
    ensures Decode(s, casefold) == Success(BitsToBytes(WholeBytes(DecodeGroups(TrimRight(s, '=')))))
  {
  }

  /** Dropping the bits after the last whole byte removes fewer than 8 fill bits. */
  lemma WholeBytesOfFilled(bits: seq<bool>, n: nat, z: nat)
    requires |bits| == 8 * n && z < 8
    ensures WholeBytes(bits + ZeroBits(z)) == bits
  {
    var filled := bits + ZeroBits(z);
    ModUnique(|filled|, 8, n, z);
    assert filled[..|bits|] == bits;
  }

  /** b32decode of b32encode's output accepts it and decodes the unpadded symbols. */
  lemma DecodeOfEncoding(bs: seq<byte>, casefold: bool)
    ensures Decode(Encode(bs), casefold) == Success(BitsToBytes(WholeBytes(DecodeGroups(EncodeUnpadded(bs)))))
  {
    var body := EncodeUnpadded(bs);
    PadCountOfEncoding(|bs|);
    DecodePadded(body, PadCount(|body|), casefold);
  }

  /** b32decode undoes b32encode, with or without case folding. */
  lemma DecodeEncode(bs: seq<byte>, casefold: bool)
    ensures Decode(Encode(bs), casefold) == Success(bs)
  {
    var payload := BytesToBits(bs) + ZeroBits(FillBits(|bs|));
    DecodeOfEncoding(bs, casefold);
    FillBitsGroups(|bs|);
    DecodeEncodeGroups(payload);
    WholeBytesOfFilled(BytesToBits(bs), |bs|, FillBits(|bs|));
    BytesToBitsRoundTrip(bs);
  }
}
