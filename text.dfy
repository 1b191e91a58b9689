/** The textual conversions the encoder relies on: UTF-8 bytes of a string,
    the `0x`-prefixed hex form of a byte array, and the decimal form of a large
    unsigned integer with `_` and `,` separators. Each conversion comes with the
    inverse or reference definition it is proved against. */
module Text {
  import opened Wrappers
  import opened Scale

  // ---------------------------------------------------------------- UTF-8

  /** The UTF-8 bytes of one Unicode scalar value (one, two, three or four bytes). */
  function Utf8Char(c: char): (r: seq<Byte>)
    ensures 1 <= |r| <= 4
    ensures |r| == 1 <==> (c as int) < 0x80
  {
    var cp := c as int;
    if cp < 0x80 then [cp]
    else if cp < 0x800 then [0xC0 + cp / 0x40, 0x80 + cp % 0x40]
    else if cp < 0x1_0000 then [0xE0 + cp / 0x1000, 0x80 + (cp / 0x40) % 0x40, 0x80 + cp % 0x40]
    else [0xF0 + cp / 0x4_0000, 0x80 + (cp / 0x1000) % 0x40, 0x80 + (cp / 0x40) % 0x40, 0x80 + cp % 0x40]
  }

  /** A character takes its shortest UTF-8 form: the length follows from the
      code point's range, the lead byte is tagged with that length and every
      continuation byte is tagged `10`. */
  lemma Utf8CharShape(c: char)
    ensures var r := Utf8Char(c);
      |r| == (if c as int < 0x80 then 1 else if c as int < 0x800 then 2
              else if c as int < 0x1_0000 then 3 else 4)
    ensures var r := Utf8Char(c);
      (|r| == 2 ==> 0xC0 <= r[0] < 0xE0) &&
      (|r| == 3 ==> 0xE0 <= r[0] < 0xF0) &&
      (|r| == 4 ==> 0xF0 <= r[0] < 0xF8)
    ensures var r := Utf8Char(c);
      forall j :: 1 <= j < |r| ==> 0x80 <= r[j] < 0xC0
  {
  }

  /** Reference decoder for one UTF-8 sequence: the payload bits of the lead byte
      followed by six bits from each continuation byte. */
  function Utf8CodePoint(bs: seq<Byte>): (c: int)
    requires 1 <= |bs| <= 4
  {
    var b := seq(|bs|, i requires 0 <= i < |bs| => bs[i] as int);
    if |b| == 1 then b[0]
    else if |b| == 2 then (b[0] - 0xC0) * 0x40 + (b[1] - 0x80)
    else if |b| == 3 then (b[0] - 0xE0) * 0x1000 + (b[1] - 0x80) * 0x40 + (b[2] - 0x80)
    else (b[0] - 0xF0) * 0x4_0000 + (b[1] - 0x80) * 0x1000 + (b[2] - 0x80) * 0x40 + (b[3] - 0x80)
  }

  /** Decoding the bytes of a character gives the character back. */
  lemma Utf8CharRoundTrip(c: char)
    ensures Utf8CodePoint(Utf8Char(c)) == c as int
  {
    var cp := c as int;
    var q1, r1 := cp / 0x40, cp % 0x40;
    assert cp == q1 * 0x40 + r1;
    if cp >= 0x800 {
      var q2, r2 := q1 / 0x40, q1 % 0x40;
      assert q1 == q2 * 0x40 + r2;
      assert q2 == cp / 0x1000;
      if cp >= 0x1_0000 {
        var q3, r3 := q2 / 0x40, q2 % 0x40;
        assert q2 == q3 * 0x40 + r3;
        assert q3 == cp / 0x4_0000;
      }
    }
  }

  /** The UTF-8 bytes of a string (Rust's `str::as_bytes`). */
  function Utf8(s: string): (r: seq<Byte>)
  {
    if s == [] then [] else Utf8Char(s[0]) + Utf8(s[1..])
  }

  /** The byte length of a string lies between its character count and four times
      it, and equals the character count exactly when every character is ASCII. */
  lemma {:induction false} Utf8Length(s: string)
    ensures |s| <= |Utf8(s)| <= 4 * |s|
    ensures |Utf8(s)| == |s| <==> forall i :: 0 <= i < |s| ==> (s[i] as int) < 0x80
  {
    if s != [] {
      Utf8Length(s[1..]);
      assert forall i :: 1 <= i < |s| ==> s[i] == s[1..][i - 1];
    }
  }

  // ------------------------------------------------------------------ hex

  /** `str::trim_start_matches("0x")`: removes every leading repetition of `0x`. */
  function StripHexPrefix(s: string): (r: string)
    ensures |s| - |r| == 2 * HexPrefixCount(s)
    ensures s == ZeroX(HexPrefixCount(s)) + r
    ensures !(|r| >= 2 && r[..2] == "0x")
  {
    if |s| >= 2 && s[..2] == "0x" then
      var r := StripHexPrefix(s[2..]);
      assert ZeroX(HexPrefixCount(s)) + r == "0x" + (ZeroX(HexPrefixCount(s[2..])) + r);
      assert s == "0x" + s[2..];
      r
    else
      assert s == ZeroX(0) + s;
      s
  }

  /** How many times `0x` is repeated at the front of s. */
  ghost function HexPrefixCount(s: string): (k: nat)
  {
    if |s| >= 2 && s[..2] == "0x" then 1 + HexPrefixCount(s[2..]) else 0
  }

  /** `0x` written k times. */
  function ZeroX(k: nat): (r: string)
    ensures |r| == 2 * k
  {
    if k == 0 then "" else "0x" + ZeroX(k - 1)
  }

  /** Any number of `0x` repetitions in front of a string is trimmed, not just one. */
  lemma {:induction false} RepeatedHexPrefixStrips(k: nat, t: string)
    ensures StripHexPrefix(ZeroX(k) + t) == StripHexPrefix(t)
  {
    if k > 0 {
      var rest := ZeroX(k - 1) + t;
      ZeroXStep(k, t);
      HexPrefixStep(rest);
      RepeatedHexPrefixStrips(k - 1, t);
    } else {
      assert ZeroX(k) + t == t;
    }
  }

  lemma ZeroXStep(k: nat, t: string)
    requires k > 0
    ensures ZeroX(k) + t == "0x" + (ZeroX(k - 1) + t)
  {
  }

  lemma HexPrefixStep(rest: string)
    ensures StripHexPrefix("0x" + rest) == StripHexPrefix(rest)
  {
    var s := "0x" + rest;
    assert s[..2] == "0x" && s[2..] == rest;
  }

  /** The value of one hexadecimal digit, either case. */
  function HexDigit(c: char): (r: Option<nat>)
    ensures r.Some? ==> r.value < 16
  {
    if '0' <= c <= '9' then Some(c as int - '0' as int)
    else if 'a' <= c <= 'f' then Some(c as int - 'a' as int + 10)
    else if 'A' <= c <= 'F' then Some(c as int - 'A' as int + 10)
    else None
  }

  predicate IsHexDigit(c: char) { HexDigit(c).Some? }

  /** Both cases are accepted: a character is a hex digit exactly when its
      lower-case form is one of the sixteen lower-case digits. */
  lemma HexDigitAccepted(c: char)
    ensures IsHexDigit(c) <==> AsciiLower(c) in LowerHexDigits
  {
    if AsciiLower(c) in LowerHexDigits {
      var d :| 0 <= d < 16 && LowerHexDigits[d] == AsciiLower(c);
    }
  }

  /** ASCII lower-casing, the case `hex::encode` writes. */
  function AsciiLower(c: char): (r: char)
  {
    if 'A' <= c <= 'Z' then (c as int + 32) as char else c
  }

  /** Both cases of a hex digit have the value of the lower-case digit. */
  lemma HexDigitValue(c: char)
    requires IsHexDigit(c)
    ensures LowerHexDigits[HexDigit(c).value] == AsciiLower(c)
  {
  }

  /** Decodes pairs of hex digits, high nibble first. */
  function HexPairs(s: string): (r: Option<seq<Byte>>)
    requires |s| % 2 == 0
    ensures r.Some? ==> 2 * |r.value| == |s|
  {
    if s == [] then Some([])
    else
      var hi, lo, rest := HexDigit(s[0]), HexDigit(s[1]), HexPairs(s[2..]);
      if hi.Some? && lo.Some? && rest.Some? then Some([hi.value * 16 + lo.value] + rest.value)
      else None
  }

  /** `hex::decode`: two digits per byte. */
  function HexDecode(s: string): (r: Option<seq<Byte>>)
    ensures r.Some? ==> 2 * |r.value| == |s|
  {
    if |s| % 2 != 0 then None else HexPairs(s)
  }

  lemma {:induction false} HexPairsAccepts(s: string)
    requires |s| % 2 == 0
    ensures HexPairs(s).Some? <==> forall i :: 0 <= i < |s| ==> IsHexDigit(s[i])
  {
    if s != [] {
      HexPairsAccepts(s[2..]);
      assert forall i :: 2 <= i < |s| ==> s[i] == s[2..][i - 2];
    }
  }

  /** `hex::decode` fails exactly on odd length or on a character that is not a
      hex digit. */
  lemma HexDecodeAccepts(s: string)
    ensures HexDecode(s).Some? <==> |s| % 2 == 0 && forall i :: 0 <= i < |s| ==> IsHexDigit(s[i])
  {
    if |s| % 2 == 0 {
      HexPairsAccepts(s);
    }
  }

  const LowerHexDigits: string := "0123456789abcdef"

  /** Reference encoder: two lower-case hex digits per byte. */
  function HexEncode(bs: seq<Byte>): (r: string)
    ensures |r| == 2 * |bs| && |r| % 2 == 0
  {
    if bs == [] then "" else [LowerHexDigits[bs[0] / 16], LowerHexDigits[bs[0] % 16]] + HexEncode(bs[1..])
  }

  lemma LowerHexDigitValue(d: nat)
    requires d < 16
    ensures HexDigit(LowerHexDigits[d]) == Some(d)
  {
  }

  lemma {:induction false} HexPairsOfEncode(bs: seq<Byte>)
    ensures HexPairs(HexEncode(bs)) == Some(bs)
  {
    if bs != [] {
      var hi, lo := bs[0] / 16, bs[0] % 16;
      var rest := HexEncode(bs[1..]);
      var s := [LowerHexDigits[hi], LowerHexDigits[lo]] + rest;
      assert s == HexEncode(bs);
      HexPairsOfEncode(bs[1..]);
      LowerHexDigitValue(hi);
      LowerHexDigitValue(lo);
      assert s[0] == LowerHexDigits[hi] && s[1] == LowerHexDigits[lo] && s[2..] == rest;
      assert hi * 16 + lo == bs[0];
      assert [bs[0]] + bs[1..] == bs;
    }
  }

  /** Decoding the hex form of a byte string gives the byte string back. */
  lemma HexRoundTrip(bs: seq<Byte>)
    ensures HexDecode(HexEncode(bs)) == Some(bs)
  {
    HexPairsOfEncode(bs);
  }


  /** The hex form of a byte string never starts with `0x`, so trimming leaves it alone. */
  lemma HexHasNoPrefix(bs: seq<Byte>)
    ensures StripHexPrefix(HexEncode(bs)) == HexEncode(bs)
  {
    var h := HexEncode(bs);
    if |h| >= 2 {
      LowerHexDigitValue(bs[0] % 16);
      assert h[1] == LowerHexDigits[bs[0] % 16];
      assert h[..2] != "0x";
    }
  }

  function AsciiLowerString(s: string): (r: string)
    ensures |r| == |s|
  {
    if s == [] then "" else [AsciiLower(s[0])] + AsciiLowerString(s[1..])
  }

  lemma {:induction false} HexPairsThenEncode(s: string)
    requires |s| % 2 == 0 && HexPairs(s).Some?
    ensures HexEncode(HexPairs(s).value) == AsciiLowerString(s)
  {
    if s != [] {
      var hi, lo := HexDigit(s[0]).value, HexDigit(s[1]).value;
      var bs := HexPairs(s).value;
      HexPairsThenEncode(s[2..]);
      HexDigitValue(s[0]);
      HexDigitValue(s[1]);
      assert bs[0] == hi * 16 + lo && bs[1..] == HexPairs(s[2..]).value;
      assert bs[0] / 16 == hi && bs[0] % 16 == lo;
      assert AsciiLowerString(s) == [AsciiLower(s[0]), AsciiLower(s[1])] + AsciiLowerString(s[2..]) by {
        assert AsciiLowerString(s[1..]) == [AsciiLower(s[1])] + AsciiLowerString(s[2..]) by {
          assert s[1..][1..] == s[2..];
        }
      }
    }
  }

  /** Decoding is the inverse of encoding in the other direction too: the bytes
      a hex string decodes to, re-encoded, give the string in lower case. So the
      upper-case digits carry the same values as the lower-case ones. */
  lemma HexDecodeThenEncode(s: string)
    requires HexDecode(s).Some?
    ensures HexEncode(HexDecode(s).value) == AsciiLowerString(s)
  {
    HexPairsThenEncode(s);
  }

  /** A `0x` written in front of the hex form of a byte string is removed again:
      hex digits never contain an `x`. */
  lemma PrefixedHexStrips(bs: seq<Byte>)
    ensures StripHexPrefix("0x" + HexEncode(bs)) == HexEncode(bs)
  {
    assert ("0x" + HexEncode(bs))[2..] == HexEncode(bs);
    HexHasNoPrefix(bs);
  }


  // -------------------------------------------------------------- decimal

  predicate IsSeparator(c: char) { c == '_' || c == ',' }

  /** `s.replace(&['_', ','][..], "")`: drops every `_` and `,` and keeps the
      other characters in order. */
  function Sanitize(s: string): (r: string)
    ensures |r| <= |s|
    ensures forall i :: 0 <= i < |r| ==> !IsSeparator(r[i])
  {
    if s == [] then ""
    else
      var rest := Sanitize(s[1..]);
      if IsSeparator(s[0]) then rest else [s[0]] + rest
  }

  /** Separators can be split off anywhere: sanitising distributes over concatenation. */
  lemma {:induction false} SanitizeAppend(a: string, b: string)
    ensures Sanitize(a + b) == Sanitize(a) + Sanitize(b)
  {
    if a != [] {
      assert (a + b)[0] == a[0];
      assert (a + b)[1..] == a[1..] + b;
      SanitizeAppend(a[1..], b);
      var head: string := if IsSeparator(a[0]) then "" else [a[0]];
      assert Sanitize(a + b) == head + (Sanitize(a[1..]) + Sanitize(b));
      assert Sanitize(a) == head + Sanitize(a[1..]);
    } else {
      assert a + b == b;
    }
  }

  /** A string without separators is left as it is. */
  lemma {:induction false} SanitizeKeepsPlain(s: string)
    requires forall i :: 0 <= i < |s| ==> !IsSeparator(s[i])
    ensures Sanitize(s) == s
  {
    if s != [] {
      assert forall i :: 0 <= i < |s| - 1 ==> s[1..][i] == s[i + 1];
      SanitizeKeepsPlain(s[1..]);
    }
  }

  predicate IsDigit(c: char) { '0' <= c <= '9' }

  predicate AllDigits(s: string) { forall i :: 0 <= i < |s| ==> IsDigit(s[i]) }

  /** The value of a string of decimal digits, most significant first. */
  function DigitsValue(s: string): (r: nat)
    requires AllDigits(s)
  {
    if s == [] then 0
    else DigitsValue(s[..|s| - 1]) * 10 + (s[|s| - 1] as int - '0' as int)
  }

  /** `from_str` for an unsigned Rust integer type whose values lie below `limit`:
      an optional leading `+`, then one or more ASCII digits whose value must be
      below `limit`. Empty input, a lone `+`, any other character, or overflow fail. */
  function ParseUnsigned(s: string, limit: nat): (r: Option<nat>)
    ensures r.Some? ==> r.value < limit
  {
    var digits := UnsignedDigits(s);
    if digits == [] || !AllDigits(digits) then None
    else if DigitsValue(digits) < limit then Some(DigitsValue(digits))
    else None
  }

  /** The digits `from_str` reads: the input without one leading `+`. */
  function UnsignedDigits(s: string): (d: string)
  {
    if |s| > 0 && s[0] == '+' then s[1..] else s
  }

  /** Parsing succeeds exactly when, after an optional `+`, there is at least one
      digit, nothing but digits, and a value below the limit, and then it gives
      that value: empty input, a lone `+`, any other character and overflow are
      refused, never wrapped. */
  lemma ParseUnsignedAccepts(s: string, limit: nat)
    ensures var d := UnsignedDigits(s);
      ParseUnsigned(s, limit).Some? <==> d != [] && AllDigits(d) && DigitsValue(d) < limit
    ensures var d := UnsignedDigits(s);
      ParseUnsigned(s, limit).Some? ==> ParseUnsigned(s, limit).value == DigitsValue(d)
  {
  }

  lemma {:induction false} LeadingZeroValue(d: string)
    requires AllDigits(d)
    ensures AllDigits("0" + d) && DigitsValue("0" + d) == DigitsValue(d)
  {
    if d != [] {
      var z := "0" + d;
      assert z[..|z| - 1] == "0" + d[..|d| - 1];
      assert z[|z| - 1] == d[|d| - 1];
      LeadingZeroValue(d[..|d| - 1]);
    } else {
      assert DigitsValue("0") == DigitsValue("") + 0 by {
        assert "0"[..0] == "";
      }
    }
  }

  /** A leading zero, or a leading `+`, does not change what a digit string parses to. */
  lemma LeadingZeroOrPlus(d: string, limit: nat)
    requires AllDigits(d) && d != []
    ensures ParseUnsigned("0" + d, limit) == ParseUnsigned(d, limit)
    ensures ParseUnsigned("+" + d, limit) == ParseUnsigned(d, limit)
  {
    LeadingZeroValue(d);
    assert ("+" + d)[1..] == d;
  }

  /** Reference decimal rendering of n, without leading zeros. */
  function ShowDecimal(n: nat): (r: string)
    ensures |r| >= 1 && AllDigits(r)
  {
    var d := ['0' + (n % 10) as char];
    if n < 10 then d else ShowDecimal(n / 10) + d
  }

  lemma {:induction false} DigitsValueOfShow(n: nat)
    ensures DigitsValue(ShowDecimal(n)) == n
  {
    var s := ShowDecimal(n);
    if n >= 10 {
      DigitsValueOfShow(n / 10);
      assert s[..|s| - 1] == ShowDecimal(n / 10);
    }
  }

  /** Parsing the decimal rendering of n gives n back whenever n fits. */
  lemma ParseShowRoundTrip(n: nat, limit: nat)
    requires n < limit
    ensures ParseUnsigned(ShowDecimal(n), limit) == Some(n)
  {
    DigitsValueOfShow(n);
  }

  /** The decimal rendering of a value at or above the limit is refused. */
  lemma ParseShowOverflow(n: nat, limit: nat)
    requires n >= limit
    ensures ParseUnsigned(ShowDecimal(n), limit) == None
  {
    DigitsValueOfShow(n);
  }

  /** Digits never contain a separator, so a rendered number survives sanitising. */
  lemma SanitizeShow(n: nat)
    ensures Sanitize(ShowDecimal(n)) == ShowDecimal(n)
  {
    SanitizeKeepsPlain(ShowDecimal(n));
  }
}
