/** UTF-8 as sections 3 and 4 of RFC 3629 define it, and the validator of frame.hpp. */
module Utf8 {
  import opened Bits
  import opened Bytes

  // A Unicode scalar value: a code point up to U+10FFFF that is not a surrogate.
  type Scalar = v: int | 0 <= v < 0xD800 || 0xE000 <= v <= 0x10FFFF

  // The octets of one scalar value, shortest form (the table in section 3 of RFC 3629).
  function EncodeScalar(v: Scalar): ByteString {
    var (a, b, c) := (v / 0x40, v / 0x40 / 0x40, v / 0x40 / 0x40 / 0x40);
    if v < 0x80 then [v]
    else if v < 0x800 then [0xC0 + a, Trail(v)]
    else if v < 0x10000 then [0xE0 + b, Trail(a), Trail(v)]
    else [0xF0 + c, Trail(b), Trail(a), Trail(v)]
  }

  // A trailing octet: 10 followed by the low six bits.
  function Trail(bits: nat): Byte { 0x80 + bits % 0x40 }

  function Encode(vs: seq<Scalar>): ByteString {
    if vs == [] then [] else EncodeScalar(vs[0]) + Encode(vs[1..])
  }

  ghost predicate IsUtf8(text: ByteString) {
    exists vs: seq<Scalar> :: Encode(vs) == text
  }

  // ---- One character ----

  // The trailing octet 10xxxxxx, as a quotient.
  predicate IsContinuation(b: Byte) { b / 0x40 == 2 }

  // The source's mask test on a trailing octet.
  lemma ContinuationMask(b: Byte)
    ensures And(b, 0xC0) == 0x80 <==> IsContinuation(b)
  {
    hide And, Pow2;
    AndStep(b, 0x60);
    AndStep(b / 2, 0x30);
    AndStep(b / 2 / 2, 0x18);
    AndStep(b / 2 / 2 / 2, 0xC);
    AndStep(b / 2 / 2 / 2 / 2, 6);
    AndStep(b / 2 / 2 / 2 / 2 / 2, 3);
    Powers();
    AndOnes(b / 0x40, 2);
  }

  // The number of octets the first octet announces; 0 when no character starts with it.
  function AnnouncedLength(c: Byte): nat {
    if c <= 0x7F then 1
    else if 0xC2 <= c <= 0xDF then 2
    else if 0xE0 <= c <= 0xEF then 3
    else if 0xF0 <= c <= 0xF4 then 4
    else 0
  }

  // The four second-octet ranges that exclude overlong forms, surrogates and values above U+10FFFF.
  predicate SecondOctetAllowed(c: Byte, second: Byte) {
    && !(c == 0xE0 && second < 0xA0)
    && !(c == 0xED && second > 0x9F)
    && !(c == 0xF0 && second < 0x90)
    && !(c == 0xF4 && second > 0x8F)
  }

  // The validator's tests on the character that starts s.
  predicate HeadPasses(s: ByteString)
    requires s != []
  {
    var n := AnnouncedLength(s[0]);
    && 1 <= n <= |s|
    && (forall j | 1 <= j < n :: IsContinuation(s[j]))
    && (n > 1 ==> SecondOctetAllowed(s[0], s[1]))
  }

  // The value carried by the payload bits of the character that starts s.
  function HeadValue(s: ByteString): int
    requires s != [] && HeadPasses(s)
  {
    var n := AnnouncedLength(s[0]);
    var c: int := s[0];
    if n == 1 then c
    else if n == 2 then Append(c - 0xC0, s[1])
    else if n == 3 then Append(Append(c - 0xE0, s[1]), s[2])
    else Append(Append(Append(c - 0xF0, s[1]), s[2]), s[3])
  }

  // Six more payload bits on the right.
  function Append(bits: int, b: Byte): int { bits * 0x40 + Payload(b) }

  function Payload(b: Byte): int { b % 0x40 }

  lemma TrailPayload(bits: nat)
    ensures IsContinuation(Trail(bits)) && Append(bits / 0x40, Trail(bits)) == bits
  {}

  lemma AppendTrail(bits: nat, b: Byte)
    requires IsContinuation(b)
    ensures Append(bits, b) / 0x40 == bits && Trail(Append(bits, b)) == b
  {}

  // Every encoded scalar value passes the tests and is read back.
  lemma EncodedPasses(v: Scalar, s: ByteString)
    requires EncodeScalar(v) <= s
    ensures s != [] && HeadPasses(s) && AnnouncedLength(s[0]) == |EncodeScalar(v)| && HeadValue(s) == v
  {
    var e := EncodeScalar(v);
    assert forall j | 0 <= j < |e| :: s[j] == e[j];
    TrailPayload(v);
    TrailPayload(v / 0x40);
    TrailPayload(v / 0x40 / 0x40);
  }

  // What passes the tests is the encoding of the scalar value it carries.
  lemma PassingIsEncoded(s: ByteString) returns (v: Scalar)
    requires s != [] && HeadPasses(s)
    ensures v == HeadValue(s) && EncodeScalar(v) == s[..AnnouncedLength(s[0])]
  {
    var n := AnnouncedLength(s[0]);
    v := HeadValue(s);
    if n == 2 {
      TwoOctets(s[0], s[1]);
    } else if n == 3 {
      ThreeOctets(s[0], s[1], s[2]);
    } else if n == 4 {
      FourOctets(s[0], s[1], s[2], s[3]);
    }
    hide EncodeScalar, Append, SecondOctetAllowed, IsContinuation;
  }

  lemma TwoOctets(c: Byte, b1: Byte)
    requires AnnouncedLength(c) == 2 && IsContinuation(b1)
    ensures var v := Append(c - 0xC0, b1); 0 <= v < 0xD800 && EncodeScalar(v) == [c, b1]
  {
    AppendTrail(c - 0xC0, b1);
  }

  lemma ThreeOctets(c: Byte, b1: Byte, b2: Byte)
    requires AnnouncedLength(c) == 3 && IsContinuation(b1) && IsContinuation(b2) && SecondOctetAllowed(c, b1)
    ensures var v := Append(Append(c - 0xE0, b1), b2);
            && (0 <= v < 0xD800 || 0xE000 <= v <= 0x10FFFF)
            && EncodeScalar(v) == [c, b1, b2]
  {
    AppendTrail(c - 0xE0, b1);
    AppendTrail(Append(c - 0xE0, b1), b2);
  }

  lemma FourOctets(c: Byte, b1: Byte, b2: Byte, b3: Byte)
    requires AnnouncedLength(c) == 4 && IsContinuation(b1) && IsContinuation(b2) && IsContinuation(b3)
    requires SecondOctetAllowed(c, b1)
    ensures var v := Append(Append(Append(c - 0xF0, b1), b2), b3);
            && 0xE000 <= v <= 0x10FFFF
            && EncodeScalar(v) == [c, b1, b2, b3]
  {
    AppendTrail(c - 0xF0, b1);
    AppendTrail(Append(c - 0xF0, b1), b2);
    AppendTrail(Append(Append(c - 0xF0, b1), b2), b3);
  }

  predicate IsTail(b: Byte) { 0x80 <= b <= 0xBF }

  // The UTF8-char rule in section 4 of RFC 3629.
  predicate IsUtf8Char(s: ByteString) {
    match |s|
    case 1 => s[0] <= 0x7F
    case 2 => 0xC2 <= s[0] <= 0xDF && IsTail(s[1])
    case 3 =>
      && IsTail(s[2])
      && (|| (s[0] == 0xE0 && 0xA0 <= s[1] <= 0xBF)
          || (0xE1 <= s[0] <= 0xEC && IsTail(s[1]))
          || (s[0] == 0xED && 0x80 <= s[1] <= 0x9F)
          || (0xEE <= s[0] <= 0xEF && IsTail(s[1])))
    case 4 =>
      && IsTail(s[2]) && IsTail(s[3])
      && (|| (s[0] == 0xF0 && 0x90 <= s[1] <= 0xBF)
          || (0xF1 <= s[0] <= 0xF3 && IsTail(s[1]))
          || (s[0] == 0xF4 && 0x80 <= s[1] <= 0x8F))
    case _ => false
  }

  // The encodings of scalar values are exactly the characters of the grammar.
  lemma EncodingsAreChars(s: ByteString)
    ensures (exists v: Scalar :: EncodeScalar(v) == s) <==> IsUtf8Char(s)
  {
    if v: Scalar :| EncodeScalar(v) == s {
      EncodedPasses(v, s);
      HeadIsChar(s);
    }
    if IsUtf8Char(s) {
      HeadIsChar(s);
      var v := PassingIsEncoded(s);
      assert s[..|s|] == s;
    }
  }

  lemma HeadIsChar(s: ByteString)
    requires s != []
    ensures IsUtf8Char(s) <==> HeadPasses(s) && AnnouncedLength(s[0]) == |s|
  {}

  // ---- Texts ----

  // A non-empty text is UTF-8 exactly when its head passes and the rest is UTF-8.
  lemma Utf8Step(s: ByteString)
    requires s != []
    ensures IsUtf8(s) <==> HeadPasses(s) && IsUtf8(s[AnnouncedLength(s[0])..])
  {
    if IsUtf8(s) {
      var vs: seq<Scalar> :| Encode(vs) == s;
      EncodedPasses(vs[0], s);
      assert Encode(vs[1..]) == s[|EncodeScalar(vs[0])|..];
    }
    if HeadPasses(s) && IsUtf8(s[AnnouncedLength(s[0])..]) {
      var v := PassingIsEncoded(s);
      var rest: seq<Scalar> :| Encode(rest) == s[AnnouncedLength(s[0])..];
      assert ([v] + rest)[1..] == rest;
      assert Encode([v] + rest) == s;
    }
  }

  // The scalar values a UTF-8 text stands for are unique.
  lemma {:induction false} DecodingUnique(vs: seq<Scalar>, ws: seq<Scalar>)
    requires Encode(vs) == Encode(ws)
    ensures vs == ws
  {
    if vs == [] || ws == [] {
      if vs != [] { EncodedPasses(vs[0], Encode(vs)); }
      if ws != [] { EncodedPasses(ws[0], Encode(ws)); }
    } else {
      var s := Encode(vs);
      EncodedPasses(vs[0], s);
      EncodedPasses(ws[0], s);
      var n := |EncodeScalar(vs[0])|;
      assert Encode(vs[1..]) == s[n..] == Encode(ws[1..]);
      DecodingUnique(vs[1..], ws[1..]);
    }
  }

  // The empty text is UTF-8.
  lemma EmptyIsUtf8()
    ensures IsUtf8([])
  {
    assert Encode([]) == [];
  }

  lemma {:induction false} AsciiIsUtf8(text: ByteString)
    requires forall i | 0 <= i < |text| :: text[i] < 0x80
    ensures IsUtf8(text)
  {
    EmptyIsUtf8();
    if text == [] {
    } else {
      AsciiIsUtf8(text[1..]);
      Utf8Step(text);
    }
  }

  // The index loop of the source.
  method IsValidUtf8(text: ByteString) returns (valid: bool)
    ensures valid <==> IsUtf8(text)
  {
    hide And;
    var size := |text|;
    var i := 0;
    EmptyIsUtf8();
    assert text[0..] == text;
    while i < size
      invariant 0 <= i <= size
      invariant IsUtf8(text) <==> IsUtf8(text[i..])
    {
      ghost var tail := text[i..];
      Utf8Step(tail);
      var c := text[i];
      if c <= 0x7F {
        assert tail[1..] == text[i + 1..];
        i := i + 1;
        continue;
      }
      var length := 0;
      if c >= 0xC2 && c <= 0xDF {
        length := 2;
      } else if c >= 0xE0 && c <= 0xEF {
        length := 3;
      } else if c >= 0xF0 && c <= 0xF4 {
        length := 4;
      } else {
        return false;
      }
      if i + length > size {
        return false;
      }
      for j := 1 to length
        invariant forall k | 1 <= k < j :: IsContinuation(tail[k])
      {
        ContinuationMask(text[i + j]);
        if And(text[i + j], 0xC0) != 0x80 {
          assert !IsContinuation(tail[j]);
          return false;
        }
      }
      var second := text[i + 1];
      assert second == tail[1];
      if c == 0xE0 && second < 0xA0 { return false; }
      if c == 0xED && second > 0x9F { return false; }
      if c == 0xF0 && second < 0x90 { return false; }
      if c == 0xF4 && second > 0x8F { return false; }
      assert tail[length..] == text[i + length..];
      i := i + length;
    }
    assert text[i..] == [];
    return true;
  }
}
