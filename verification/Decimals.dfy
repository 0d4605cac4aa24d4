/** Decimal texts: the sequence numbers of ids.hpp, std::to_string and std::from_chars. */
module Decimals {
  import opened Bytes

  const UINT64_MAX: nat := 0xFFFF_FFFF_FFFF_FFFF

  predicate AllDigits(s: ByteString) {
    forall i | 0 <= i < |s| :: IsDigit(s[i])
  }

  function DigitValue(c: Byte): nat
    requires IsDigit(c)
  {
    c - DIGIT_0
  }

  // The number that a text of digits denotes.
  function DigitsValue(s: ByteString): nat
    requires AllDigits(s)
  {
    if s == [] then 0 else DigitsValue(s[..|s| - 1]) * 10 + DigitValue(s[|s| - 1])
  }

  lemma ReadDigit(s: ByteString, k: nat)
    requires k < |s| && AllDigits(s[..k]) && IsDigit(s[k])
    ensures AllDigits(s[..k + 1]) && DigitsValue(s[..k + 1]) == DigitsValue(s[..k]) * 10 + DigitValue(s[k])
  {
    assert s[..k + 1][..k] == s[..k];
  }

  function PowerOfTen(k: nat): nat { if k == 0 then 1 else 10 * PowerOfTen(k - 1) }

  // Place value: a digit before k others counts 10^k times.
  lemma {:induction false} PlaceValue(c: Byte, s: ByteString)
    requires IsDigit(c) && AllDigits(s)
    ensures DigitsValue([c] + s) == (c - 0x30) * PowerOfTen(|s|) + DigitsValue(s)
  {
    if s == [] {
      assert [c][..0] == [] && [c] + s == [c];
    } else {
      var front, last := s[..|s| - 1], s[|s| - 1];
      PlaceValue(c, front);
      assert ([c] + s)[..|s|] == [c] + front && ([c] + s)[|s|] == last;
      TenTimes(c - 0x30, PowerOfTen(|s| - 1), DigitsValue(front));
    }
  }

  lemma TenTimes(a: int, p: int, v: int)
    ensures (a * p + v) * 10 == a * (10 * p) + v * 10
  {}

  // A canonical decimal: digits only, at least one, no leading zero.
  predicate IsCanonical(s: ByteString) {
    s != [] && AllDigits(s) && (|s| > 1 ==> s[0] != DIGIT_0)
  }

  // std::to_string for an unsigned value.
  function ToDecimal(v: nat): ByteString {
    if v < 10 then [DIGIT_0 + v] else ToDecimal(v / 10) + [DIGIT_0 + v % 10]
  }

  lemma {:induction false} PrintedIsCanonical(v: nat)
    ensures IsCanonical(ToDecimal(v)) && DigitsValue(ToDecimal(v)) == v
    ensures v > 0 ==> ToDecimal(v)[0] != DIGIT_0
  {
    if v < 10 {
    } else {
      PrintedIsCanonical(v / 10);
      assert ToDecimal(v)[..|ToDecimal(v)| - 1] == ToDecimal(v / 10);
    }
  }

  lemma {:induction false} CanonicalIsPrinted(s: ByteString)
    requires IsCanonical(s)
    ensures ToDecimal(DigitsValue(s)) == s
    ensures |s| > 1 ==> DigitsValue(s) >= 10
    ensures s[0] != DIGIT_0 ==> DigitsValue(s) > 0
  {
    var front, last := s[..|s| - 1], s[|s| - 1];
    if front == [] {
      assert s == [last];
    } else {
      CanonicalIsPrinted(front);
      assert DigitsValue(s) / 10 == DigitsValue(front) && DigitsValue(s) % 10 == DigitValue(last);
      assert s == front + [last];
    }
  }

  // ---- std::from_chars, base 10, into a uint64 ----

  datatype Errc = NoError | InvalidArgument | OutOfRange

  // Reads the longest prefix of digits; an empty prefix and an overflow leave the target at 0.
  method FromChars(text: ByteString) returns (ec: Errc, ptr: nat, value: nat)
    ensures ptr <= |text| && AllDigits(text[..ptr]) && (ptr < |text| ==> !IsDigit(text[ptr]))
    ensures ec == if ptr == 0 then InvalidArgument
                  else if DigitsValue(text[..ptr]) > UINT64_MAX then OutOfRange
                  else NoError
    ensures value == if ec == NoError then DigitsValue(text[..ptr]) else 0
  {
    ptr, value := 0, 0;
    while ptr < |text| && IsDigit(text[ptr])
      invariant ptr <= |text| && AllDigits(text[..ptr]) && value == DigitsValue(text[..ptr])
    {
      ReadDigit(text, ptr);
      value := value * 10 + DigitValue(text[ptr]);
      ptr := ptr + 1;
    }
    if ptr == 0 {
      return InvalidArgument, 0, 0;
    }
    if value > UINT64_MAX {
      return OutOfRange, ptr, 0;
    }
    ec := NoError;
  }

  // DecimalSeq::parse
  method ParseSeq(text: ByteString) returns (r: Option<nat>)
    ensures r == SeqValue(text)
  {
    if text == [] || (|text| > 1 && text[0] == DIGIT_0) {
      return None;
    }
    var ec, ptr, parsed := FromChars(text);
    assert ptr == |text| ==> text[..ptr] == text;
    if ec != NoError || ptr != |text| {
      return None;
    }
    return Some(parsed);
  }

  // What a sequence number's text stands for.
  function SeqValue(text: ByteString): Option<nat> {
    if IsCanonical(text) && DigitsValue(text) <= UINT64_MAX then Some(DigitsValue(text)) else None
  }

  // Printing and parsing are inverse: a text parses to v exactly when it is the printed form of v
  // and v fits 64 bits.
  lemma SeqRoundTrip(text: ByteString, v: nat)
    ensures SeqValue(text) == Some(v) <==> text == ToDecimal(v) && v < 0x1_0000_0000_0000_0000
  {
    PrintedIsCanonical(v);
    if IsCanonical(text) {
      CanonicalIsPrinted(text);
    }
  }
}
