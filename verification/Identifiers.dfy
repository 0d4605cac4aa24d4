/** Account names and UUID identifiers (ids.hpp). */
module Identifiers {
  import opened Bytes

  predicate IsUpper(c: Byte) { UPPER_A <= c <= UPPER_Z }

  predicate IsLetter(c: Byte) { IsUpper(c) || LOWER_A <= c <= LOWER_Z }

  predicate IsLowerHex(c: Byte) { IsDigit(c) || LOWER_A <= c <= LOWER_F }

  function LowerChar(c: Byte): Byte { if IsUpper(c) then c - UPPER_A + LOWER_A else c }

  // ASCII lower case, octet by octet.
  function Lower(text: ByteString): (r: ByteString)
    ensures |r| == |text|
  {
    seq(|text|, i requires 0 <= i < |text| => LowerChar(text[i]))
  }

  method ToLowerAscii(text: ByteString) returns (out: ByteString)
    ensures out == Lower(text)
  {
    out := [];
    for i := 0 to |text|
      invariant out == Lower(text)[..i]
    {
      var c := text[i];
      out := out + [if UPPER_A <= c && c <= UPPER_Z then c - UPPER_A + LOWER_A else c];
    }
  }

  // ---- Account names ----

  // 4 to 32 letters and digits, the first a letter.
  predicate IsAccountName(name: ByteString) {
    && 4 <= |name| <= 32
    && IsLetter(name[0])
    && forall i | 0 <= i < |name| :: IsLetter(name[i]) || IsDigit(name[i])
  }

  // The rule for account names, written on the characters.
  predicate IsNameLetter(c: int) { 'A' as int <= c <= 'Z' as int || 'a' as int <= c <= 'z' as int }

  predicate IsNameCharacter(c: int) { IsNameLetter(c) || '0' as int <= c <= '9' as int }

  // The first character is a letter, and 3 to 31 letters and digits follow.
  lemma AccountNameForm(name: ByteString)
    ensures IsAccountName(name) <==>
            && name != []
            && IsNameLetter(name[0])
            && 3 <= |name[1..]| <= 31
            && forall c | c in name[1..] :: IsNameCharacter(c)
  {
    if IsAccountName(name) {
      assert forall c | c in name[1..] :: c in name;
    }
    if name != [] {
      assert forall i | 1 <= i < |name| :: name[i] == name[1..][i - 1] && name[i] in name[1..];
    }
  }

  method CheckAccountName(name: ByteString) returns (valid: bool)
    ensures valid <==> IsAccountName(name)
  {
    if |name| < 4 || |name| > 32 {
      return false;
    }
    if !IsLetter(name[0]) {
      return false;
    }
    for i := 1 to |name|
      invariant forall j | 0 <= j < i :: IsLetter(name[j]) || IsDigit(name[j])
    {
      if !(IsLetter(name[i]) || IsDigit(name[i])) {
        return false;
      }
    }
    return true;
  }

  // AccountName::parse: the value is stored in lower case.
  method ParseAccountName(name: ByteString) returns (r: Option<ByteString>)
    ensures r == AccountNameValue(name)
  {
    var valid := CheckAccountName(name);
    if !valid {
      return None;
    }
    var lowered := ToLowerAscii(name);
    return Some(lowered);
  }

  function AccountNameValue(name: ByteString): Option<ByteString> {
    if IsAccountName(name) then Some(Lower(name)) else None
  }

  // Two texts of the same letters, whatever their case.
  ghost predicate SameIgnoringCase(a: ByteString, b: ByteString) {
    && |a| == |b|
    && forall i | 0 <= i < |a| ::
         || a[i] == b[i]
         || (0x41 <= a[i] <= 0x5A && b[i] == a[i] + 0x20)
         || (0x41 <= b[i] <= 0x5A && a[i] == b[i] + 0x20)
  }

  // A stored name is the name given, ignoring case; it has no upper-case letter, is again an account
  // name, and parses to itself.
  lemma AccountNameIdempotent(name: ByteString)
    requires IsAccountName(name)
    ensures var v := AccountNameValue(name).value;
            && (forall i | 0 <= i < |v| :: !IsUpper(v[i]))
            && SameIgnoringCase(name, v)
            && AccountNameValue(v) == Some(v)
  {
    var v := Lower(name);
    assert forall i | 0 <= i < |v| :: v[i] == LowerChar(name[i]);
    assert Lower(v) == v;
  }

  // Values identify names up to ASCII case, so they serve for uniqueness and lookup.
  lemma AccountNameIdentity(a: ByteString, b: ByteString)
    requires IsAccountName(a) && IsAccountName(b)
    ensures AccountNameValue(a) == AccountNameValue(b) <==> SameIgnoringCase(a, b)
  {
    if Lower(a) == Lower(b) {
      assert |a| == |b|;
      forall i | 0 <= i < |a|
        ensures a[i] == b[i] || (IsUpper(a[i]) && b[i] == a[i] + 0x20) || (IsUpper(b[i]) && a[i] == b[i] + 0x20)
      {
        assert LowerChar(a[i]) == Lower(a)[i] == Lower(b)[i] == LowerChar(b[i]);
      }
    }
    if SameIgnoringCase(a, b) {
      assert forall i | 0 <= i < |a| :: LowerChar(a[i]) == LowerChar(b[i]);
      assert Lower(a) == Lower(b);
    }
  }

  // ---- UUIDs ----

  predicate IsHyphenPosition(i: nat) { i == 8 || i == 13 || i == 18 || i == 23 }

  // The 8-4-4-4-12 layout in lower-case hexadecimal, with version and variant digits as sections
  // 4.1.1 and 4.1.3 of RFC 4122 fix them for random UUIDs.
  predicate IsUuid(id: ByteString) {
    && |id| == 36
    && (forall i | 0 <= i < 36 :: if IsHyphenPosition(i) then id[i] == HYPHEN else IsLowerHex(id[i]))
    && HexValue(id[14]) == 4
    && HexValue(id[19]) / 4 == 2
  }

  // The value of a hexadecimal digit.
  function HexValue(c: Byte): int { if IsDigit(c) then c - DIGIT_0 else c - LOWER_A + 10 }

  predicate IsHexGroup(s: ByteString, length: nat) {
    |s| == length && forall c | c in s :: 0x30 <= c <= 0x39 || 0x61 <= c <= 0x66
  }

  // Five groups of lower-case hexadecimal digits joined with hyphens; the third starts with 4 and
  // the fourth with 8, 9, a or b.
  ghost predicate AreUuidGroups(id: ByteString, a: ByteString, b: ByteString, c: ByteString, d: ByteString,
                                e: ByteString) {
    && IsHexGroup(a, 8) && IsHexGroup(b, 4) && IsHexGroup(c, 4) && IsHexGroup(d, 4) && IsHexGroup(e, 12)
    && c[0] == 0x34 && d[0] in {0x38, 0x39, 0x61, 0x62}
    && id == a + [0x2D] + b + [0x2D] + c + [0x2D] + d + [0x2D] + e
  }

  lemma UuidGroups(id: ByteString)
    ensures IsUuid(id) <==> exists a, b, c, d, e :: AreUuidGroups(id, a, b, c, d, e)
  {
    if IsUuid(id) {
      assert forall i | 0 <= i < 36 && !IsHyphenPosition(i) :: IsLowerHex(id[i]);
      assert IsHyphenPosition(8) && IsHyphenPosition(13) && IsHyphenPosition(18) && IsHyphenPosition(23);
      var (a, b, c, d, e) := (id[..8], id[9..13], id[14..18], id[19..23], id[24..]);
      assert id == a + [0x2D] + b + [0x2D] + c + [0x2D] + d + [0x2D] + e;
      assert AreUuidGroups(id, a, b, c, d, e);
    }
    if a, b, c, d, e :| AreUuidGroups(id, a, b, c, d, e) {
      GroupsAreUuid(id, a, b, c, d, e);
    }
  }

  lemma GroupsAreUuid(id: ByteString, a: ByteString, b: ByteString, c: ByteString, d: ByteString, e: ByteString)
    requires AreUuidGroups(id, a, b, c, d, e)
    ensures IsUuid(id)
  {
    assert |id| == 36;
    assert id[14] == c[0] && id[19] == d[0];
    forall i | 0 <= i < 36
      ensures if IsHyphenPosition(i) then id[i] == HYPHEN else IsLowerHex(id[i])
    {
      if !IsHyphenPosition(i) {
        assert id[i] in a || id[i] in b || id[i] in c || id[i] in d || id[i] in e by {
          if i < 8 { assert id[i] == a[i]; }
          else if i < 13 { assert id[i] == b[i - 9]; }
          else if i < 18 { assert id[i] == c[i - 14]; }
          else if i < 23 { assert id[i] == d[i - 19]; }
          else { assert id[i] == e[i - 24]; }
        }
      }
    }
  }

  method CheckUuid(id: ByteString) returns (valid: bool)
    ensures valid <==> IsUuid(id)
  {
    if |id| != 36 {
      return false;
    }
    for i := 0 to 36
      invariant forall j | 0 <= j < i :: if IsHyphenPosition(j) then id[j] == HYPHEN else IsLowerHex(id[j])
    {
      if i == 8 || i == 13 || i == 18 || i == 23 {
        if id[i] != HYPHEN {
          assert IsHyphenPosition(i);
          return false;
        }
        continue;
      }
      var hex := (id[i] >= DIGIT_0 && id[i] <= DIGIT_9) || (id[i] >= LOWER_A && id[i] <= LOWER_F);
      if !hex {
        assert !IsHyphenPosition(i);
        return false;
      }
    }
    assert !IsHyphenPosition(14) && !IsHyphenPosition(19);
    if id[14] != 0x34 {
      return false;
    }
    if id[19] != 0x38 && id[19] != 0x39 && id[19] != 0x61 && id[19] != 0x62 {
      return false;
    }
    return true;
  }

  // UuidId: empty by default, otherwise the result of a successful parse.
  type UuidId = id: ByteString | id == [] || IsUuid(id) witness []

  // The lowering step changes nothing in a text that passed the check, so a UUID's value is the
  // input itself.
  lemma UuidLoweringIsIdentity(id: ByteString)
    requires IsUuid(id)
    ensures Lower(id) == id
  {
    forall i | 0 <= i < 36
      ensures LowerChar(id[i]) == id[i]
    {
      assert IsHyphenPosition(i) || IsLowerHex(id[i]);
    }
  }

  // UuidId::parse
  method ParseUuid(id: ByteString) returns (r: Option<UuidId>)
    ensures r == if IsUuid(id) then Some(id) else None
  {
    var valid := CheckUuid(id);
    if !valid {
      return None;
    }
    var lowered := ToLowerAscii(id);
    UuidLoweringIsIdentity(id);
    return Some(lowered);
  }
}
