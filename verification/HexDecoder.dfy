/** The decoder of hexadecimal text in niobeu4/liteos_m/hals/drivers/wifi_lite/esp_wifi_wpa.c. */
module HexDecoder {
  import opened Machine

  type Nibble = x: int | 0 <= x < 16

  predicate IsHex(c: char) {
    '0' <= c <= '9' || 'a' <= c <= 'f' || 'A' <= c <= 'F'
  }

  function Value(c: char): Nibble
    requires IsHex(c)
  {
    if '0' <= c <= '9' then c as int - '0' as int
    else if 'a' <= c <= 'f' then c as int - 'W' as int
    else c as int - '7' as int
  }

  predicate AllHex(hex: seq<char>) {
    forall i :: 0 <= i < |hex| ==> IsHex(hex[i])
  }

  /** The length of the longest prefix of hexadecimal digits. */
  function GoodPrefix(hex: seq<char>): (n: nat)
    ensures n <= |hex| && AllHex(hex[..n])
    ensures n < |hex| ==> !IsHex(hex[n])
  {
    if hex == [] || !IsHex(hex[0]) then 0
    else
      var n := GoodPrefix(hex[1..]);
      assert hex[..1 + n] == [hex[0]] + hex[1..][..n];
      1 + n
  }

  /** One byte for every two digits; an odd last digit is dropped. */
  function Decode(hex: seq<char>): (bytes: seq<Octet>)
    requires AllHex(hex)
    ensures |bytes| == |hex| / 2
  {
    if |hex| < 2 then [] else [16 * Value(hex[0]) + Value(hex[1])] + Decode(hex[2..])
  }

  lemma {:induction false} DecodeAt(hex: seq<char>, k: nat)
    requires AllHex(hex) && 2 * k + 1 < |hex|
    ensures Decode(hex)[k] == 16 * Value(hex[2 * k]) + Value(hex[2 * k + 1])
  {
    hide Value, IsHex;
    if k > 0 {
      DecodeAt(hex[2..], k - 1);
    }
  }

  /** 0 or -1; the decoded part of the good prefix is in `buf` and the rest of `buf` is untouched. */
  method Hexstr2bin(hex: seq<char>, buf: array<Octet>) returns (r: int)
    requires |hex| / 2 <= buf.Length
    modifies buf
    ensures r == 0 || r == -1
    ensures r == 0 <==> AllHex(hex)
    ensures var n := GoodPrefix(hex);
      buf[..] == Decode(hex[..n]) + old(buf[..])[n / 2..]
  {
    hide Decode, GoodPrefix;
    var t: Nibble := 0;
    ghost var n := GoodPrefix(hex);
    var i := 0;
    while i < |hex|
      invariant i <= |hex| && AllHex(hex[..i])
      invariant i % 2 == 1 ==> IsHex(hex[i - 1]) && t == Value(hex[i - 1])
      invariant forall k :: 0 <= k < i / 2 ==> buf[k] == Decode(hex[..i])[k]
      invariant forall k :: i / 2 <= k < buf.Length ==> buf[k] == old(buf[k])
    {
      var c: Nibble;
      if '0' <= hex[i] <= '9' {
        c := hex[i] as int - '0' as int;
      } else if 'a' <= hex[i] <= 'f' {
        c := hex[i] as int - 'W' as int;
      } else if 'A' <= hex[i] <= 'F' {
        c := hex[i] as int - '7' as int;
      } else {
        PrefixLength(hex, i);
        return -1;
      }
      assert AllHex(hex[..i + 1]);
      PrefixDecode(hex, i);
      if i % 2 == 1 {
        DecodeAt(hex[..i + 1], i / 2);
        buf[i / 2] := 16 * t + c;
      } else {
        t := c;
      }
      i := i + 1;
    }
    assert hex[..|hex|] == hex;
    PrefixLength(hex, i);
    return 0;
  }

  lemma PrefixLength(hex: seq<char>, i: nat)
    requires i <= |hex| && AllHex(hex[..i]) && (i < |hex| ==> !IsHex(hex[i]))
    ensures GoodPrefix(hex) == i
  {
    var n := GoodPrefix(hex);
    forall j | 0 <= j < i
      ensures IsHex(hex[j])
    {
      assert hex[..i][j] == hex[j];
    }
    forall j | 0 <= j < n
      ensures IsHex(hex[j])
    {
      assert hex[..n][j] == hex[j];
    }
  }

  /** A longer prefix decodes to an extension. */
  lemma PrefixDecode(hex: seq<char>, i: nat)
    requires i < |hex| && AllHex(hex[..i + 1])
    ensures AllHex(hex[..i])
    ensures forall k :: 0 <= k < i / 2 ==> Decode(hex[..i + 1])[k] == Decode(hex[..i])[k]
  {
    assert forall j :: 0 <= j < i ==> hex[..i][j] == hex[..i + 1][j];
    forall k | 0 <= k < i / 2
      ensures Decode(hex[..i + 1])[k] == Decode(hex[..i])[k]
    {
      DecodeAt(hex[..i + 1], k);
      DecodeAt(hex[..i], k);
    }
  }

  // The Base16 encoding of section 8 of RFC 4648.

  const ALPHABET: seq<char> := "0123456789ABCDEF"

  function Digit(v: Nibble): char {
    ALPHABET[v]
  }

  function Encode(bytes: seq<Octet>): (hex: seq<char>)
    ensures |hex| == 2 * |bytes|
  {
    if bytes == [] then [] else [Digit(bytes[0] / 16), Digit(bytes[0] % 16)] + Encode(bytes[1..])
  }

  lemma AlphabetValue(v: Nibble)
    ensures IsHex(Digit(v)) && Value(Digit(v)) == v
  {
  }

  lemma DecodeTwo(a: char, b: char, rest: seq<char>)
    requires IsHex(a) && IsHex(b) && AllHex(rest)
    ensures AllHex([a, b] + rest) && Decode([a, b] + rest) == [16 * Value(a) + Value(b)] + Decode(rest)
  {
    hide IsHex, Value;
    assert ([a, b] + rest)[2..] == rest;
  }

  /** Every byte string comes back from its encoding. */
  lemma {:induction false} DecodeInvertsEncode(bytes: seq<Octet>)
    ensures AllHex(Encode(bytes)) && Decode(Encode(bytes)) == bytes
  {
    if bytes != [] {
      var hi: Nibble, lo: Nibble := bytes[0] / 16, bytes[0] % 16;
      DecodeInvertsEncode(bytes[1..]);
      AlphabetValue(hi);
      AlphabetValue(lo);
      hide IsHex, Value, Digit, Decode, AllHex;
      DecodeTwo(Digit(hi), Digit(lo), Encode(bytes[1..]));
    }
  }

  /** The upper-case form of a character: the lower-case letters a to f lie 32 above the upper-case ones. */
  function ToUpper(c: char): char {
    if 'a' <= c <= 'f' then (c as int - 32) as char else c
  }

  /** The digits are those of the alphabet, in either case. */
  lemma DigitsOfAlphabet(c: char)
    ensures IsHex(c) <==> ToUpper(c) in ALPHABET
  {
    if IsHex(c) {
      assert ToUpper(c) == Digit(Value(c));
    }
  }

  /** Case is irrelevant to the value, and the encoder's digit for it is the upper-case one. */
  lemma ToUpperValue(c: char)
    requires IsHex(c)
    ensures IsHex(ToUpper(c)) && Value(ToUpper(c)) == Value(c) && Digit(Value(c)) == ToUpper(c)
  {
  }

  function Upper(hex: seq<char>): seq<char> {
    seq(|hex|, i requires 0 <= i < |hex| => ToUpper(hex[i]))
  }

  lemma UpperIsHex(hex: seq<char>)
    requires AllHex(hex)
    ensures AllHex(Upper(hex))
  {
    hide IsHex, Value, ToUpper, Digit;
    forall i | 0 <= i < |hex|
      ensures IsHex(Upper(hex)[i])
    {
      ToUpperValue(hex[i]);
    }
  }

  lemma UpperOfTwo(hex: seq<char>)
    requires |hex| >= 2
    ensures Upper(hex) == [ToUpper(hex[0]), ToUpper(hex[1])] + Upper(hex[2..])
  {
    hide ToUpper;
  }

  /** Conversely, encoding what an even number of digits decodes to gives these digits in upper case. */
  lemma {:induction false} EncodeInvertsDecode(hex: seq<char>)
    requires AllHex(hex) && |hex| % 2 == 0
    ensures Encode(Decode(hex)) == Upper(hex)
  {
    hide IsHex, Value, Upper, Encode, Digit, ToUpper;
    if hex == [] {
      EncodeNothing();
    } else {
      EncodeInvertsDecode(hex[2..]);
      UpperOfTwo(hex);
      EncodeTwo(hex[0], hex[1], Decode(hex[2..]));
    }
  }

  lemma EncodeNothing()
    ensures Encode([]) == Upper([]) == []
  {
  }

  lemma EncodeTwo(a: char, b: char, rest: seq<Octet>)
    requires IsHex(a) && IsHex(b)
    ensures Encode([16 * Value(a) + Value(b)] + rest) == [ToUpper(a), ToUpper(b)] + Encode(rest)
  {
    hide IsHex, Value, Digit, ToUpper, Encode;
    ToUpperValue(a);
    ToUpperValue(b);
    Halves(Value(a), Value(b));
    EncodeCons(16 * Value(a) + Value(b), rest);
  }

  lemma Halves(hi: Nibble, lo: Nibble)
    ensures (16 * hi + lo) / 16 == hi && (16 * hi + lo) % 16 == lo
  {
  }

  lemma EncodeCons(first: Octet, rest: seq<Octet>)
    ensures Encode([first] + rest) == [Digit(first / 16), Digit(first % 16)] + Encode(rest)
  {
    hide Digit;
    assert ([first] + rest)[1..] == rest;
  }

  /** Upper and lower case decode alike. */
  lemma {:induction false} CaseDoesNotMatter(hex: seq<char>)
    requires AllHex(hex)
    ensures AllHex(Upper(hex)) && Decode(Upper(hex)) == Decode(hex)
  {
    hide Value, Upper, IsHex, ToUpper, Digit;
    UpperIsHex(hex);
    if |hex| >= 2 {
      CaseDoesNotMatter(hex[2..]);
      UpperOfTwo(hex);
      ToUpperValue(hex[0]);
      ToUpperValue(hex[1]);
      DecodeTwo(ToUpper(hex[0]), ToUpper(hex[1]), Upper(hex[2..]));
    } else {
      UpperLength(hex);
    }
  }

  lemma UpperLength(hex: seq<char>)
    ensures |Upper(hex)| == |hex|
  {
  }
}
