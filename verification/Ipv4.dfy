/** IPv4 literals: isIpv4Literal and the dotted-quad rendering of SAN entries (dev_ca.cpp). */
module Ipv4 {
  import opened Bytes
  import opened Decimals

  // Decimals joined with dots; four of them are the IPv4address of section 3.2.2 of RFC 3986.
  function Join(os: seq<Byte>): ByteString
    requires os != []
  {
    if |os| == 1 then ToDecimal(os[0]) else ToDecimal(os[0]) + [DOT] + Join(os[1..])
  }

  ghost predicate IsDotted(text: ByteString, n: int): (r: bool)
    ensures r ==> n >= 1
  {
    exists os: seq<Byte> :: os != [] && |os| == n && Join(os) == text
  }

  ghost predicate IsIpv4Address(text: ByteString) { IsDotted(text, 4) }

  // ---- One octet ----

  ghost predicate IsOctet(part: ByteString) {
    exists o: Byte :: ToDecimal(o) == part
  }

  // The source's tests on one part.
  predicate PartPasses(part: ByteString) {
    && 1 <= |part| <= 3
    && !(|part| > 1 && part[0] == DIGIT_0)
    && AllDigits(part)
    && DigitsValue(part) <= 255
  }

  lemma OctetTest(part: ByteString)
    ensures PartPasses(part) <==> IsOctet(part)
  {
    if PartPasses(part) {
      CanonicalIsPrinted(part);
      assert ToDecimal(DigitsValue(part) as Byte) == part;
    }
    if o: Byte :| ToDecimal(o) == part {
      PrintedIsCanonical(o);
      assert |ToDecimal(o / 10 / 10)| == 1;
    }
  }

  // The dec-octet rule of section 3.2.2 of RFC 3986.
  predicate IsDecOctet(s: ByteString) {
    && (forall i | 0 <= i < |s| :: 0x30 <= s[i] <= 0x39)
    && match |s|
       case 1 => true
       case 2 => s[0] != 0x30
       case 3 => s[0] == 0x31 || (s[0] == 0x32 && (s[1] <= 0x34 || (s[1] == 0x35 && s[2] <= 0x35)))
       case _ => false
  }

  lemma OctetIsDecOctet(s: ByteString)
    ensures IsOctet(s) <==> IsDecOctet(s)
  {
    OctetTest(s);
    if AllDigits(s) && 1 <= |s| <= 3 {
      ReadDigit(s, 0);
      if |s| >= 2 { ReadDigit(s, 1); }
      if |s| == 3 { ReadDigit(s, 2); }
      assert s[..|s|] == s && DigitsValue(s[..0]) == 0;
    }
    hide IsOctet, DigitsValue;
  }

  // ---- The joined text ----

  // The position of the first dot, or the length when there is none.
  function FindDot(s: ByteString): (i: nat)
    ensures i <= |s| && (forall j | 0 <= j < i :: s[j] != DOT) && (i < |s| ==> s[i] == DOT)
  {
    if s == [] || s[0] == DOT then 0 else 1 + FindDot(s[1..])
  }

  // A head without dots, then either nothing or a dot and a tail.
  lemma FindDotAfter(head: ByteString, tail: ByteString)
    requires AllDigits(head)
    ensures FindDot(head) == |head|
    ensures var text := head + [DOT] + tail;
            FindDot(text) == |head| && text[..|head|] == head && text[|head| + 1..] == tail
  {
    var text := head + [DOT] + tail;
    assert forall i | 0 <= i < |head| :: text[i] == head[i] && head[i] != DOT;
    assert text[|head|] == DOT;
  }

  // The first dot ends the first octet.
  lemma FirstDotEndsFirstOctet(os: seq<Byte>)
    requires os != []
    ensures var text := Join(os);
            var dot := FindDot(text);
            && text[..dot] == ToDecimal(os[0])
            && (|os| == 1 ==> dot == |text|)
            && (|os| > 1 ==> dot < |text| && text[dot + 1..] == Join(os[1..]))
  {
    var head := ToDecimal(os[0]);
    PrintedIsCanonical(os[0]);
    hide ToDecimal, FindDot, DigitsValue;
    if |os| == 1 {
      FindDotAfter(head, []);
      assert head[..|head|] == head;
    } else {
      FindDotAfter(head, Join(os[1..]));
    }
  }

  // What the parts mean: a text is n octets exactly when the part before its first dot is an octet
  // and what follows the dot is n - 1 octets.
  lemma DottedStep(rest: ByteString, n: int)
    ensures IsDotted(rest, n) <==> SplitsAt(rest, FindDot(rest), n)
  {
    hide ToDecimal, Join, FindDot;
    var dot := FindDot(rest);
    if IsDotted(rest, n) {
      var os: seq<Byte> :| os != [] && |os| == n && Join(os) == rest;
      SplitOctets(os);
    }
    if SplitsAt(rest, dot, n) {
      var o: Byte :| ToDecimal(o) == rest[..dot];
      if dot == |rest| {
        JoinOne(o);
        assert Join([o]) == rest;
      } else {
        var os: seq<Byte> :| os != [] && |os| == n - 1 && Join(os) == rest[dot + 1..];
        JoinCons(o, os);
        assert rest == rest[..dot] + [DOT] + rest[dot + 1..];
      }
    }
  }

  ghost predicate SplitsAt(rest: ByteString, dot: nat, n: int)
    requires dot <= |rest|
  {
    && IsOctet(rest[..dot])
    && (if dot == |rest| then n == 1 else n >= 2 && IsDotted(rest[dot + 1..], n - 1))
  }

  lemma JoinIsDotted(os: seq<Byte>)
    requires os != []
    ensures IsDotted(Join(os), |os|)
  {}

  lemma SplitOctets(os: seq<Byte>)
    requires os != []
    ensures SplitsAt(Join(os), FindDot(Join(os)), |os|)
  {
    hide ToDecimal, Join, FindDot, IsDotted;
    FirstDotEndsFirstOctet(os);
    if |os| > 1 {
      JoinIsDotted(os[1..]);
    }
  }

  lemma JoinOne(o: Byte)
    ensures Join([o]) == ToDecimal(o)
  {}

  lemma JoinCons(o: Byte, os: seq<Byte>)
    requires os != []
    ensures Join([o] + os) == ToDecimal(o) + [DOT] + Join(os)
  {
    assert ([o] + os)[1..] == os;
  }

  // The octets of a dotted text are unique.
  lemma {:induction false} JoinInjective(os: seq<Byte>, ps: seq<Byte>)
    requires os != [] && ps != [] && Join(os) == Join(ps)
    ensures os == ps
  {
    FirstDotEndsFirstOctet(os);
    FirstDotEndsFirstOctet(ps);
    PrintedIsCanonical(os[0]);
    PrintedIsCanonical(ps[0]);
    assert os[0] == ps[0];
    if |os| == 1 {
    } else {
      JoinInjective(os[1..], ps[1..]);
    }
    assert os == [os[0]] + os[1..] && ps == [ps[0]] + ps[1..];
  }

  lemma JoinFour(ip: ByteString)
    requires |ip| == 4
    ensures Join(ip) ==
            ToDecimal(ip[0]) + [DOT] + ToDecimal(ip[1]) + [DOT] + ToDecimal(ip[2]) + [DOT] + ToDecimal(ip[3])
  {
    hide ToDecimal;
    var last := [ip[3]];
    JoinCons(ip[2], last);
    JoinCons(ip[1], [ip[2]] + last);
    JoinCons(ip[0], [ip[1]] + ([ip[2]] + last));
    assert ip == [ip[0]] + ([ip[1]] + ([ip[2]] + last));
    assert Join(last) == ToDecimal(ip[3]);
    hide Join;
  }

  // The loopback address is the text 127.0.0.1.
  lemma SampleAddress()
    ensures Join([127, 0, 0, 1]) == [0x31, 0x32, 0x37, 0x2E, 0x30, 0x2E, 0x30, 0x2E, 0x31]
  {
    JoinFour([127, 0, 0, 1]);
    assert ToDecimal(12) == [0x31, 0x32] && ToDecimal(127) == [0x31, 0x32, 0x37];
    hide Join;
  }

  // Four dec-octets with dots between: the whole IPv4address rule.
  ghost predicate FourDecOctets(text: ByteString, a: ByteString, b: ByteString, c: ByteString, d: ByteString) {
    && IsDecOctet(a) && IsDecOctet(b) && IsDecOctet(c) && IsDecOctet(d)
    && text == a + [0x2E] + b + [0x2E] + c + [0x2E] + d
  }

  // The accepted texts are exactly those of the IPv4address rule in section 3.2.2 of RFC 3986.
  lemma IsIpv4AddressGrammar(text: ByteString)
    ensures IsIpv4Address(text) <==> exists a, b, c, d :: FourDecOctets(text, a, b, c, d)
  {
    hide Join, ToDecimal, IsDecOctet;
    if IsIpv4Address(text) {
      var os: seq<Byte> :| os != [] && |os| == 4 && Join(os) == text;
      JoinFour(os);
      forall o: Byte
        ensures IsDecOctet(ToDecimal(o))
      {
        OctetIsDecOctet(ToDecimal(o));
      }
      assert FourDecOctets(text, ToDecimal(os[0]), ToDecimal(os[1]), ToDecimal(os[2]), ToDecimal(os[3]));
    }
    if a, b, c, d :| FourDecOctets(text, a, b, c, d) {
      var (o0, o1, o2, o3) := (OctetOf(a), OctetOf(b), OctetOf(c), OctetOf(d));
      JoinFour([o0, o1, o2, o3]);
      JoinIsDotted([o0, o1, o2, o3]);
    }
  }

  ghost function OctetOf(s: ByteString): (o: Byte)
    requires IsDecOctet(s)
    ensures ToDecimal(o) == s
  {
    OctetIsDecOctet(s);
    var o: Byte :| ToDecimal(o) == s;
    o
  }

  // isIpv4Literal
  method IsIpv4Literal(text: ByteString) returns (valid: bool)
    ensures valid <==> IsIpv4Address(text)
  {
    hide IsDotted, IsOctet, FindDot;
    var octets := 0;
    var rest := text;
    while true
      invariant IsDotted(text, 4) <==> IsDotted(rest, 4 - octets)
      decreases |rest|
    {
      var dot := FindDot(rest);
      var octet := rest[..dot];
      DottedStep(rest, 4 - octets);
      OctetTest(octet);
      if octet == [] || |octet| > 3 { return false; }
      if |octet| > 1 && octet[0] == DIGIT_0 { return false; }
      var value := 0;
      for k := 0 to |octet|
        invariant AllDigits(octet[..k]) && value == DigitsValue(octet[..k])
      {
        if octet[k] < DIGIT_0 || octet[k] > DIGIT_9 {
          assert !AllDigits(octet);
          return false;
        }
        ReadDigit(octet, k);
        value := value * 10 + (octet[k] - DIGIT_0);
      }
      assert octet[..|octet|] == octet;
      if value > 255 { return false; }
      octets := octets + 1;
      if dot == |rest| { break; }
      rest := rest[dot + 1..];
    }
    assert IsDotted(rest, 4 - (octets - 1)) <==> octets == 4;
    return octets == 4;
  }

  // ---- SAN entries ----

  // The kinds of subject alternative name that inspectCertPem tells apart.
  datatype GeneralName = Dns | IpAddress(data: ByteString) | OtherName

  // The IPv4 entries in order, each in dotted form.
  function SanIps(names: seq<GeneralName>): seq<ByteString> {
    if names == [] then []
    else
      var front, last := SanIps(names[..|names| - 1]), names[|names| - 1];
      if last.IpAddress? && |last.data| == 4 then front + [Join(last.data)] else front
  }

  predicate IsIpv4Entry(n: GeneralName) { n.IpAddress? && |n.data| == 4 }

  // The texts are those of the IPv4 entries at the ascending positions at, and there is no other.
  ghost predicate ListsIpv4(names: seq<GeneralName>, at: seq<nat>, ips: seq<ByteString>) {
    && |at| == |ips|
    && (forall i, j | 0 <= i < j < |at| :: at[i] < at[j])
    && (forall j | 0 <= j < |at| :: at[j] < |names| && IsIpv4Entry(names[at[j]]) && ips[j] == Join(names[at[j]].data))
    && (forall k: nat | k < |names| && IsIpv4Entry(names[k]) :: k in at)
  }

  // Every IPv4 entry is listed once, in the order of the certificate, and nothing else is.
  lemma {:induction false} SanIpsListsAll(names: seq<GeneralName>) returns (at: seq<nat>)
    ensures ListsIpv4(names, at, SanIps(names))
  {
    hide Join;
    if names == [] {
      at := [];
    } else {
      var n := |names| - 1;
      at := SanIpsListsAll(names[..n]);
      if IsIpv4Entry(names[n]) {
        at := at + [n];
      }
    }
  }

  method InspectSan(names: seq<GeneralName>) returns (sanIps: seq<ByteString>, hasDns: bool, hasIpv6: bool)
    ensures sanIps == SanIps(names)
    ensures exists at :: ListsIpv4(names, at, sanIps)
    ensures hasDns <==> Dns in names
    ensures hasIpv6 <==> exists n :: n in names && n.IpAddress? && |n.data| == 16
  {
    hide Join, ToDecimal;
    sanIps, hasDns, hasIpv6 := [], false, false;
    for i := 0 to |names|
      invariant sanIps == SanIps(names[..i])
      invariant hasDns <==> Dns in names[..i]
      invariant hasIpv6 <==> exists n :: n in names[..i] && n.IpAddress? && |n.data| == 16
    {
      assert names[..i + 1][..i] == names[..i];
      match names[i]
      case Dns => hasDns := true;
      case IpAddress(ip) =>
        if |ip| == 4 {
          JoinFour(ip);
          sanIps := sanIps + [ToDecimal(ip[0]) + [DOT] + ToDecimal(ip[1]) + [DOT] +
                              ToDecimal(ip[2]) + [DOT] + ToDecimal(ip[3])];
        } else if |ip| == 16 {
          hasIpv6 := true;
        }
      case OtherName =>
    }
    assert names[..|names|] == names;
    ghost var at := SanIpsListsAll(names);
  }

  // What a certificate's SAN shows is always accepted as an IPv4 literal, and shows the very octets.
  lemma {:induction false} SanIpsAreLiterals(names: seq<GeneralName>, s: ByteString)
    requires s in SanIps(names)
    ensures IsIpv4Address(s)
    ensures exists n :: n in names && n.IpAddress? && |n.data| == 4 && Join(n.data) == s
  {
    var front, last := names[..|names| - 1], names[|names| - 1];
    if s !in SanIps(front) {
      assert last in names && s == Join(last.data);
    } else {
      SanIpsAreLiterals(front, s);
      var n :| n in front && n.IpAddress? && |n.data| == 4 && Join(n.data) == s;
      assert n in names;
    }
  }
}
