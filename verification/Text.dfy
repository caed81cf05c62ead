/** ASCII text used by identifiers, digests and file names: decimal and hexadecimal numerals,
    splitting, and lower-casing. A string is the sequence of its UTF-8 bytes, one character each. */
module Text {
  import opened Outcomes

  type byte = x: nat | x < 256

  const U64_MAX: nat := 0xFFFF_FFFF_FFFF_FFFF

  predicate IsDigit(c: char) { '0' <= c <= '9' }

  predicate IsLowerLetter(c: char) { 'a' <= c <= 'z' }

  predicate IsUpperLetter(c: char) { 'A' <= c <= 'Z' }

  function LowerChar(c: char): char {
    if IsUpperLetter(c) then c - 'A' + 'a' else c
  }

  /** Case folding of file names (ASCII letters only). */
  function Lower(s: string): (r: string)
    ensures |r| == |s|
  {
    seq(|s|, i requires 0 <= i < |s| => LowerChar(s[i]))
  }

  /** Position of the last `c` in `s`. */
  /** The characters are the same, or the same letter in the two cases. */
  predicate SameLetter(a: char, b: char) {
    a == b || ('A' <= a <= 'Z' && b as int == a as int + 32) || ('A' <= b <= 'Z' && a as int == b as int + 32)
  }

  /** Two names fold to one exactly if they differ in the case of ASCII letters at most. */
  lemma SameIgnoringCase(a: string, b: string)
    ensures Lower(a) == Lower(b) <==> |a| == |b| && forall i :: 0 <= i < |a| ==> SameLetter(a[i], b[i])
  {
    if Lower(a) == Lower(b) {
      forall i | 0 <= i < |a| ensures SameLetter(a[i], b[i]) { assert Lower(a)[i] == Lower(b)[i]; }
    }
  }

  function LastIndex(s: string, c: char): (r: Option<nat>)
    ensures r.Some? ==> r.value < |s| && s[r.value] == c && c !in s[r.value + 1..]
    ensures r.None? ==> c !in s
  {
    if s == [] then None
    else if s[|s| - 1] == c then Some(|s| - 1)
    else LastIndex(s[..|s| - 1], c)
  }

  lemma {:induction false} LastIndexOfJoined(a: string, c: char, b: string)
    requires c !in b
    ensures LastIndex(a + [c] + b, c) == Some(|a|)
  {
    var s := a + [c] + b;
    if b == [] {
      assert s[|s| - 1] == c;
    } else {
      assert b[|b| - 1] in b;
      assert s[|s| - 1] == b[|b| - 1];
      assert s[..|s| - 1] == a + [c] + b[..|b| - 1];
      LastIndexOfJoined(a, c, b[..|b| - 1]);
    }
  }

  // ---- splitting --------------------------------------------------------------------------

  /** `str::split`: the pieces between separators, never empty. */
  function Split(s: string, separator: char): (r: seq<string>)
    ensures r != []
  {
    if s == "" then [""]
    else
      var rest := Split(s[1..], separator);
      if s[0] == separator then [""] + rest else [[s[0]] + rest[0]] + rest[1..]
  }

  lemma {:induction false} SplitWithoutSeparator(s: string, c: char)
    requires c !in s
    ensures Split(s, c) == [s]
  {
    if s != "" {
      SplitWithoutSeparator(s[1..], c);
      assert [s[0]] + s[1..] == s;
    }
  }

  /** One step of `Split`. */
  lemma SplitStep(s: string, c: char)
    requires s != ""
    ensures var rest := Split(s[1..], c);
      Split(s, c) == if s[0] == c then [""] + rest else [[s[0]] + rest[0]] + rest[1..]
  {}

  lemma StepOfJoined(rest: seq<string>, after: seq<string>, x: char, c: char)
    requires rest != []
    ensures (if x == c then [""] + (rest + after) else [[x] + (rest + after)[0]] + (rest + after)[1..])
         == (if x == c then [""] + rest else [[x] + rest[0]] + rest[1..]) + after
  {
    assert (rest + after)[0] == rest[0] && (rest + after)[1..] == rest[1..] + after;
  }

  /** A separator closes the last piece. */
  lemma {:induction false} SplitJoined(a: string, c: char, b: string)
    ensures Split(a + [c] + b, c) == Split(a, c) + Split(b, c)
  {
    var s := a + [c] + b;
    SplitStep(s, c);
    if a == "" {
      assert s[1..] == b;
    } else {
      SplitJoined(a[1..], c, b);
      SplitStep(a, c);
      assert s[1..] == a[1..] + [c] + b;
      StepOfJoined(Split(a[1..], c), Split(b, c), a[0], c);
    }
  }

  // ---- decimal numerals -------------------------------------------------------------------

  function DigitChar(d: nat): (c: char)
    requires d < 10
    ensures IsDigit(c)
  {
    '0' + d as char
  }

  function DigitValue(c: char): (d: nat)
    requires IsDigit(c)
    ensures d < 10 && DigitChar(d) == c
  {
    (c - '0') as nat
  }

  /** The shortest decimal numeral of `n`. */
  function Decimal(n: nat): (s: string)
    ensures s != [] && forall i :: 0 <= i < |s| ==> IsDigit(s[i])
  {
    if n < 10 then [DigitChar(n)] else Decimal(n / 10) + [DigitChar(n % 10)]
  }

  predicate AllDigits(s: string) { forall i :: 0 <= i < |s| ==> IsDigit(s[i]) }

  /** The number that a digit string denotes. */
  function DecimalValue(s: string): nat
    requires AllDigits(s)
  {
    if s == [] then 0 else 10 * DecimalValue(s[..|s| - 1]) + DigitValue(s[|s| - 1])
  }

  /** `str::parse::<u64>`: an optional plus sign, at least one digit, and a value that fits. */
  function ParseU64(s: string): (r: Option<nat>)
    ensures r.Some? ==> r.value <= U64_MAX
  {
    var digits := if s != [] && s[0] == '+' then s[1..] else s;
    if digits == [] || !AllDigits(digits) || DecimalValue(digits) > U64_MAX then None
    else Some(DecimalValue(digits))
  }

  lemma {:induction false} DecimalValueOfDecimal(n: nat)
    ensures DecimalValue(Decimal(n)) == n
  {
    if n < 10 {
      assert Decimal(n)[..0] == [];
    } else {
      DecimalValueOfDecimal(n / 10);
      assert Decimal(n)[..|Decimal(n)| - 1] == Decimal(n / 10);
    }
  }

  /** A decimal numeral of at most `k` digits is below 10^k, and conversely. */
  lemma {:induction false} DecimalLength(n: nat, k: nat)
    requires 1 <= k
    ensures |Decimal(n)| <= k <==> n < Power10(k)
  {
    if k == 1 {
      assert Power10(1) == 10 * Power10(0);
      if n >= 10 { assert |Decimal(n)| == |Decimal(n / 10)| + 1; }
    } else if n < 10 {
      Power10Positive(k - 1);
    } else {
      DecimalLength(n / 10, k - 1);
      assert Power10(k) == 10 * Power10(k - 1);
    }
  }

  function Power10(k: nat): nat { if k == 0 then 1 else 10 * Power10(k - 1) }

  lemma {:induction false} Power10Positive(k: nat)
    ensures Power10(k) >= 1
  {
    if k > 0 { Power10Positive(k - 1); }
  }

  lemma U64HasAtMostTwentyDigits(n: nat)
    requires n <= U64_MAX
    ensures |Decimal(n)| <= 20
  {
    assert Power10(4) == 10_000;
    assert Power10(8) == 100_000_000 by { assert Power10(6) == 1_000_000; }
    assert Power10(12) == 1_000_000_000_000 by { assert Power10(10) == 10_000_000_000; }
    assert Power10(16) == 10_000_000_000_000_000 by { assert Power10(14) == 100_000_000_000_000; }
    assert Power10(20) == 100_000_000_000_000_000_000 by { assert Power10(18) == 1_000_000_000_000_000_000; }
    DecimalLength(n, 20);
  }

  // ---- lower-case hexadecimal -------------------------------------------------------------

  function HexDigit(d: nat): char
    requires d < 16
  {
    if d < 10 then '0' + d as char else 'a' + (d - 10) as char
  }

  /** `hex_nibble`: lower-case digits only. */
  function HexNibble(c: char): (r: Option<nat>)
    ensures r.Some? ==> r.value < 16 && HexDigit(r.value) == c
  {
    if '0' <= c <= '9' then Some((c - '0') as nat)
    else if 'a' <= c <= 'f' then Some((c - 'a') as nat + 10)
    else None
  }

  lemma NibbleOfHexDigit(d: nat)
    requires d < 16
    ensures HexNibble(HexDigit(d)) == Some(d)
  {}

  function EncodeHex(bytes: seq<byte>): (s: string)
    ensures |s| == 2 * |bytes|
  {
    if bytes == [] then ""
    else [HexDigit(bytes[0] / 16), HexDigit(bytes[0] % 16)] + EncodeHex(bytes[1..])
  }

  predicate IsHex(s: string) { forall i :: 0 <= i < |s| ==> HexNibble(s[i]).Some? }

  function HexByte(high: nat, low: nat): (b: byte)
    requires high < 16 && low < 16
    ensures b / 16 == high && b % 16 == low
  {
    high * 16 + low
  }

  lemma EncodeHexCons(b: byte, rest: seq<byte>)
    ensures EncodeHex([b] + rest) == [HexDigit(b / 16), HexDigit(b % 16)] + EncodeHex(rest)
  {
    assert ([b] + rest)[1..] == rest;
  }

  /** The bytes that an even-length hexadecimal string denotes. */
  function HexBytes(s: string): (bytes: seq<byte>)
    requires |s| % 2 == 0 && IsHex(s)
    ensures |bytes| == |s| / 2
    ensures EncodeHex(bytes) == s
  {
    if s == "" then []
    else
      var b := HexByte(HexNibble(s[0]).value, HexNibble(s[1]).value);
      var rest := HexBytes(s[2..]);
      EncodeHexCons(b, rest);
      assert s == [s[0], s[1]] + s[2..];
      [b] + rest
  }

  lemma {:induction false} EncodeHexIsHex(bytes: seq<byte>)
    ensures IsHex(EncodeHex(bytes))
  {
    if bytes != [] {
      EncodeHexIsHex(bytes[1..]);
      NibbleOfHexDigit(bytes[0] / 16);
      NibbleOfHexDigit(bytes[0] % 16);
      var s, rest := EncodeHex(bytes), EncodeHex(bytes[1..]);
      forall i | 2 <= i < |s| ensures HexNibble(s[i]).Some? { assert s[i] == rest[i - 2]; }
    }
  }

  lemma SameHexByte(a: byte, b: byte)
    requires HexDigit(a / 16) == HexDigit(b / 16) && HexDigit(a % 16) == HexDigit(b % 16)
    ensures a == b
  {
    NibbleOfHexDigit(a / 16);
    NibbleOfHexDigit(b / 16);
    NibbleOfHexDigit(a % 16);
    NibbleOfHexDigit(b % 16);
  }

  lemma {:induction false} EncodeHexIsInjective(a: seq<byte>, b: seq<byte>)
    requires EncodeHex(a) == EncodeHex(b)
    ensures a == b
  {
    if a != [] {
      var s, t := EncodeHex(a), EncodeHex(b);
      assert s[0] == t[0] && s[1] == t[1] && s[2..] == t[2..];
      SameHexByte(a[0], b[0]);
      assert s[2..] == EncodeHex(a[1..]) && t[2..] == EncodeHex(b[1..]);
      EncodeHexIsInjective(a[1..], b[1..]);
      assert a == [a[0]] + a[1..] && b == [b[0]] + b[1..];
    }
  }

  lemma HexBytesOfEncodeHex(bytes: seq<byte>)
    ensures IsHex(EncodeHex(bytes)) && HexBytes(EncodeHex(bytes)) == bytes
  {
    EncodeHexIsHex(bytes);
    EncodeHexIsInjective(HexBytes(EncodeHex(bytes)), bytes);
  }

  lemma {:induction false} EncodeHexSnoc(bytes: seq<byte>, b: byte)
    ensures EncodeHex(bytes + [b]) == EncodeHex(bytes) + [HexDigit(b / 16), HexDigit(b % 16)]
  {
    if bytes == [] {
      assert ([] + [b])[1..] == [];
    } else {
      EncodeHexSnoc(bytes[1..], b);
      assert (bytes + [b])[1..] == bytes[1..] + [b];
    }
  }

  /** Each byte is two digits, the high one first. */
  lemma {:induction false} EncodedByte(bytes: seq<byte>, k: nat)
    requires k < |bytes|
    ensures EncodeHex(bytes)[2 * k] == "0123456789abcdef"[bytes[k] / 16]
    ensures EncodeHex(bytes)[2 * k + 1] == "0123456789abcdef"[bytes[k] % 16]
  {
    if k > 0 {
      EncodedByte(bytes[1..], k - 1);
      assert EncodeHex(bytes)[2 * k] == EncodeHex(bytes[1..])[2 * (k - 1)];
      assert EncodeHex(bytes)[2 * k + 1] == EncodeHex(bytes[1..])[2 * (k - 1) + 1];
    }
  }

  /** `decode_lower_hex::<N>` fills its array pair by pair and stops at the first bad nibble. */
  method DecodeLowerHex(value: string, n: nat) returns (r: Option<seq<byte>>)
    ensures r.Some? <==> |value| == 2 * n && IsHex(value)
    ensures r.Some? ==> |r.value| == n && EncodeHex(r.value) == value
  {
    if |value| != 2 * n { return None; }
    var decoded: seq<byte> := [];
    for i := 0 to n
      invariant forall j :: 0 <= j < 2 * i ==> HexNibble(value[j]).Some?
      invariant |decoded| == i && EncodeHex(decoded) == value[..2 * i]
    {
      var high, low := HexNibble(value[2 * i]), HexNibble(value[2 * i + 1]);
      if high.None? || low.None? { return None; }
      var b := HexByte(high.value, low.value);
      EncodeHexSnoc(decoded, b);
      assert value[..2 * (i + 1)] == value[..2 * i] + [value[2 * i], value[2 * i + 1]];
      decoded := decoded + [b];
    }
    assert value[..2 * n] == value;
    return Some(decoded);
  }
}
