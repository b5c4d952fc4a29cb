/**
 * HexadecimalString: a value holding hexadecimal text, built either from a string
 * (separators dropped, upper-cased, validated) or from bytes, and convertible back
 * to a string and to bytes.
 */
module HexadecimalString {
  import opened Wrappers
  import Text

  type byte = b: int | 0 <= b < 256

  /**
   * The separator pattern `[\s-]`: a hyphen, or .NET regex whitespace, which is
   * \t \n \v \f \r, U+0085 and the Unicode space, line and paragraph separators.
   */
  predicate IsSeparator(c: char)
  {
    var n := c as int;
    c == '-' || (0x09 <= n <= 0x0D) || n == 0x20 || n == 0x85 || n == 0xA0 || n == 0x1680
    || (0x2000 <= n <= 0x200A) || n == 0x2028 || n == 0x2029 || n == 0x202F || n == 0x205F || n == 0x3000
  }

  /** The character class `[0-9a-fA-F]`. */
  predicate IsHexDigit(c: char)
  {
    '0' <= c <= '9' || 'a' <= c <= 'f' || 'A' <= c <= 'F'
  }

  predicate IsUpperHexDigit(c: char)
  {
    '0' <= c <= '9' || 'A' <= c <= 'F'
  }

  /** What a constructed value always holds: an even number of upper-case hex digits. */
  predicate IsNormalised(s: string)
  {
    |s| % 2 == 0 && forall i :: 0 <= i < |s| ==> IsUpperHexDigit(s[i])
  }

  type HexText = s: string | IsNormalised(s) witness ""

  datatype HexadecimalString = HexadecimalString(value: HexText)

  /** The two ArgumentExceptions of the string constructor. */
  datatype HexError = InvalidHexadecimal | OddLength

  /** `HexSeparatorRegex().Replace(value, "")`: the non-separator characters, in order. */
  function RemoveSeparators(s: string): (r: string)
    ensures |r| <= |s|
    ensures forall c :: c in r <==> c in s && !IsSeparator(c)
  {
    if |s| == 0 then ""
    else if IsSeparator(s[0]) then RemoveSeparators(s[1..])
    else [s[0]] + RemoveSeparators(s[1..])
  }

  /**
   * `\A\b[0-9a-fA-F]+\b\Z`: one or more hex digits and nothing else. (`\Z` would also
   * admit a final newline, but the separator pattern has already removed every newline.)
   */
  predicate MatchesValidHex(s: string)
  {
    |s| > 0 && forall i :: 0 <= i < |s| ==> IsHexDigit(s[i])
  }

  /** The string constructor (and the implicit conversion from string). */
  function FromString(value: string): (r: Result<HexadecimalString, HexError>)
    ensures r == Failure(InvalidHexadecimal) <==>
              RemoveSeparators(value) == "" || exists c :: c in value && !IsSeparator(c) && !IsHexDigit(c)
    ensures r == Failure(OddLength) <==>
              && RemoveSeparators(value) != ""
              && (forall c :: c in value && !IsSeparator(c) ==> IsHexDigit(c))
              && |RemoveSeparators(value)| % 2 == 1
    ensures r.Success? ==> r.value.value == Text.ToUpper(RemoveSeparators(value)) && |r.value.value| > 0
  {
    var kept := RemoveSeparators(value);
    var cleaned := Text.ToUpper(kept);
    assert MatchesValidHex(cleaned) <==> MatchesValidHex(kept) by {
      forall i | 0 <= i < |kept| ensures IsHexDigit(cleaned[i]) <==> IsHexDigit(kept[i]) {}
    }
    assert MatchesValidHex(kept) <==> kept != "" && forall c :: c in value && !IsSeparator(c) ==> IsHexDigit(c) by {
      if kept != "" && forall c :: c in value && !IsSeparator(c) ==> IsHexDigit(c) {
        forall i | 0 <= i < |kept| ensures IsHexDigit(kept[i]) { assert kept[i] in kept; }
      }
      if MatchesValidHex(kept) {
        forall c | c in value && !IsSeparator(c) ensures IsHexDigit(c) {
          assert c in kept;
          var i :| 0 <= i < |kept| && kept[i] == c;
        }
      }
    }
    if !MatchesValidHex(cleaned) then Failure(InvalidHexadecimal)
    else if |cleaned| % 2 != 0 then Failure(OddLength)
    else Success(HexadecimalString(cleaned))
  }

  /** An upper-case hex digit for a value below 16, as BitConverter writes it. */
  function HexDigitChar(n: int): (c: char)
    requires 0 <= n < 16
    ensures IsUpperHexDigit(c)
  {
    if n < 10 then ('0' as int + n) as char else ('A' as int + n - 10) as char
  }

  /** The value of one hex digit, as byte.Parse with NumberStyles.HexNumber reads it. */
  function DigitValue(c: char): (n: int)
    requires IsHexDigit(c)
    ensures 0 <= n < 16
  {
    if '0' <= c <= '9' then c as int - '0' as int
    else if 'A' <= c <= 'F' then c as int - 'A' as int + 10
    else c as int - 'a' as int + 10
  }

  /** The two digits BitConverter writes for one byte. */
  function HexPair(b: byte): string
  {
    [HexDigitChar(b / 16), HexDigitChar(b % 16)]
  }

  /** BitConverter.ToString(bytes): the digit pairs joined by "-". */
  function BitConverterToString(bytes: seq<byte>): string
  {
    Text.Join(Pairs(bytes), "-")
  }

  function Pairs(bytes: seq<byte>): (ps: seq<string>)
    ensures |ps| == |bytes|
  {
    seq(|bytes|, i requires 0 <= i < |bytes| => HexPair(bytes[i]))
  }

  /** The byte-array constructor (and the implicit conversion from byte[]). */
  function FromBytes(bytes: seq<byte>): (h: HexadecimalString)
    ensures |h.value| == 2 * |bytes|
    ensures forall k :: 0 <= k < |bytes| ==>
              h.value[2 * k] == HexDigitChar(bytes[k] / 16) && h.value[2 * k + 1] == HexDigitChar(bytes[k] % 16)
  {
    var text := Text.RemoveAll(BitConverterToString(bytes), '-');
    DashesRemoved(Pairs(bytes));
    PairsLayout(bytes);
    assert IsNormalised(text) by {
      forall i | 0 <= i < |text| ensures IsUpperHexDigit(text[i]) {
        var k := i / 2;
        assert text == Text.Concat(Pairs(bytes));
        if i == 2 * k {
          assert text[i] == HexDigitChar(bytes[k] / 16);
        } else {
          assert i == 2 * k + 1;
          assert text[i] == HexDigitChar(bytes[k] % 16);
        }
      }
    }
    HexadecimalString(text)
  }

  /** ToString() and the implicit conversion to string. */
  function ToString(h: HexadecimalString): (s: string)
    ensures IsNormalised(s)
  {
    h.value
  }

  /** The implicit conversion to byte[]: one byte per digit pair, in order. */
  function ToBytes(h: HexadecimalString): (bytes: seq<byte>)
    ensures 2 * |bytes| == |h.value|
    ensures forall k :: 0 <= k < |bytes| ==>
              bytes[k] == 16 * DigitValue(h.value[2 * k]) + DigitValue(h.value[2 * k + 1])
  {
    var v := h.value;
    seq(|v| / 2, k requires 0 <= k < |v| / 2 => 16 * DigitValue(v[2 * k]) + DigitValue(v[2 * k + 1]))
  }

  lemma {:induction false} DashesRemoved(ps: seq<string>)
    requires forall i :: 0 <= i < |ps| ==> '-' !in ps[i]
    ensures Text.RemoveAll(Text.Join(ps, "-"), '-') == Text.Concat(ps)
  {
    if |ps| == 1 {
      Text.RemoveAllAbsent(ps[0], '-');
      assert Text.Concat(ps) == ps[0] + Text.Concat([]);
    } else if |ps| > 1 {
      DashesRemoved(ps[1..]);
      Text.RemoveAllAppend(ps[0] + "-", Text.Join(ps[1..], "-"), '-');
      Text.RemoveAllAppend(ps[0], "-", '-');
      Text.RemoveAllAbsent(ps[0], '-');
      assert Text.RemoveAll("-", '-') == "";
    }
  }

  lemma {:induction false} PairsLayout(bytes: seq<byte>)
    ensures |Text.Concat(Pairs(bytes))| == 2 * |bytes|
    ensures forall k :: 0 <= k < |bytes| ==>
              Text.Concat(Pairs(bytes))[2 * k] == HexDigitChar(bytes[k] / 16)
              && Text.Concat(Pairs(bytes))[2 * k + 1] == HexDigitChar(bytes[k] % 16)
  {
    if |bytes| > 0 {
      PairsLayout(bytes[1..]);
      assert Pairs(bytes)[1..] == Pairs(bytes[1..]);
      var tail := Text.Concat(Pairs(bytes[1..]));
      assert Text.Concat(Pairs(bytes)) == HexPair(bytes[0]) + tail;
      forall k | 1 <= k < |bytes|
        ensures Text.Concat(Pairs(bytes))[2 * k] == HexDigitChar(bytes[k] / 16)
        ensures Text.Concat(Pairs(bytes))[2 * k + 1] == HexDigitChar(bytes[k] % 16)
      {
        assert bytes[1..][k - 1] == bytes[k];
      }
    }
  }

  lemma DigitRoundTrip(n: int)
    requires 0 <= n < 16
    ensures DigitValue(HexDigitChar(n)) == n
  {
  }

  /** bytes -> HexadecimalString -> byte[] gives back the bytes. */
  lemma BytesRoundTrip(bytes: seq<byte>)
    ensures ToBytes(FromBytes(bytes)) == bytes
  {
    var h := FromBytes(bytes);
    forall k | 0 <= k < |bytes| ensures ToBytes(h)[k] == bytes[k] {
      DigitRoundTrip(bytes[k] / 16);
      DigitRoundTrip(bytes[k] % 16);
    }
  }

  /** HexadecimalString -> byte[] -> HexadecimalString gives back the same normalised value. */
  lemma ValueRoundTrip(h: HexadecimalString)
    ensures FromBytes(ToBytes(h)) == h
  {
    var bytes := ToBytes(h);
    var g := FromBytes(bytes);
    forall k | 0 <= k < |bytes| ensures g.value[2 * k] == h.value[2 * k] && g.value[2 * k + 1] == h.value[2 * k + 1] {
      PairRoundTrip(h.value[2 * k], h.value[2 * k + 1]);
    }
    forall i | 0 <= i < |h.value| ensures g.value[i] == h.value[i] {
      var k := i / 2;
      assert i == 2 * k || i == 2 * k + 1;
    }
  }

  /** Two upper-case digits read as a byte are written back as the same two digits. */
  lemma PairRoundTrip(a: char, b: char)
    requires IsUpperHexDigit(a) && IsUpperHexDigit(b)
    ensures var n := 16 * DigitValue(a) + DigitValue(b);
            HexDigitChar(n / 16) == a && HexDigitChar(n % 16) == b
  {
    var hi, lo := DigitValue(a), DigitValue(b);
    assert (16 * hi + lo) / 16 == hi && (16 * hi + lo) % 16 == lo;
  }

  /**
   * Re-parsing ToString() gives back the same value; the only value that cannot be
   * re-parsed is the empty one, which only the byte-array constructor can produce.
   */
  lemma ReparseToString(h: HexadecimalString)
    ensures |h.value| > 0 ==> FromString(ToString(h)) == Success(h)
    ensures |h.value| == 0 ==> FromString(ToString(h)) == Failure(InvalidHexadecimal)
  {
    var v := h.value;
    assert forall c :: c in v ==> IsUpperHexDigit(c);
    NoSeparators(v);
    assert Text.ToUpper(v) == v;
  }

  lemma {:induction false} NoSeparators(s: string)
    requires forall c :: c in s ==> IsUpperHexDigit(c)
    ensures RemoveSeparators(s) == s
  {
    if |s| > 0 {
      assert s[0] in s;
      NoSeparators(s[1..]);
      assert s == [s[0]] + s[1..];
    }
  }

  /** The empty byte array gives a value that the string constructor rejects. */
  lemma EmptyBytesCannotBeReparsed()
    ensures FromString(ToString(FromBytes([]))) == Failure(InvalidHexadecimal)
  {
    ReparseToString(FromBytes([]));
  }
}
