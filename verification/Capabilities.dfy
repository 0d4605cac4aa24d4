/** CapabilitySet (hello.hpp): a std::set of strings, kept and walked in lexicographic order. */
module Capabilities {
  import opened Bytes

  type CapabilitySet = set<ByteString>

  // std::string's order: lexicographic on octets.
  predicate Less(a: ByteString, b: ByteString) {
    if b == [] then false
    else if a == [] then true
    else a[0] < b[0] || (a[0] == b[0] && Less(a[1..], b[1..]))
  }

  lemma {:induction false} LessTotal(a: ByteString, b: ByteString)
    ensures a == b || Less(a, b) || Less(b, a)
    ensures !(Less(a, b) && Less(b, a)) && (Less(a, b) ==> a != b)
  {
    if a == [] || b == [] {
    } else {
      LessTotal(a[1..], b[1..]);
      assert a == [a[0]] + a[1..] && b == [b[0]] + b[1..];
    }
  }

  lemma {:induction false} LessTransitive(a: ByteString, b: ByteString, c: ByteString)
    requires Less(a, b) && Less(b, c)
    ensures Less(a, c)
  {
    if a == [] || !(a[0] == b[0] == c[0]) {
    } else {
      LessTransitive(a[1..], b[1..], c[1..]);
    }
  }

  // The first octet in which the texts differ decides; a proper prefix comes first.
  lemma {:induction false} LessMeaning(a: ByteString, b: ByteString)
    ensures Less(a, b) <==>
            exists k: nat :: k <= |a| && k < |b| && a[..k] == b[..k] && (k == |a| || a[k] < b[k])
  {
    if a == [] || b == [] || a[0] != b[0] {
      if Less(a, b) {
        assert a[..0] == b[..0];
      }
    } else {
      LessMeaning(a[1..], b[1..]);
      if k: nat :| k <= |a| && k < |b| && a[..k] == b[..k] && (k == |a| || a[k] < b[k]) {
        assert a[1..][..k - 1] == a[..k][1..] && b[1..][..k - 1] == b[..k][1..];
      }
      if k: nat :| k < |a| && k < |b| - 1 && a[1..][..k] == b[1..][..k] && (k == |a| - 1 || a[1..][k] < b[1..][k]) {
        assert a[..k + 1] == [a[0]] + a[1..][..k] && b[..k + 1] == [b[0]] + b[1..][..k];
      }
    }
  }

  predicate IsFirst(c: ByteString, s: CapabilitySet) {
    c in s && forall d | d in s :: d == c || Less(c, d)
  }

  lemma {:induction false} FirstExists(s: CapabilitySet)
    requires s != {}
    ensures exists c :: IsFirst(c, s)
  {
    var c :| c in s;
    if s == {c} {
      assert IsFirst(c, s);
    } else {
      FirstExists(s - {c});
      var d :| IsFirst(d, s - {c});
      LessTotal(c, d);
      if Less(d, c) {
        assert IsFirst(d, s);
      } else {
        forall e | e in s && e != c && e != d ensures Less(c, e) { LessTransitive(c, d, e); }
        assert IsFirst(c, s);
      }
    }
  }

  // The elements in the order in which std::set is walked.
  ghost function InOrder(s: CapabilitySet): seq<ByteString> {
    if s == {} then []
    else
      var c := First(s);
      [c] + InOrder(s - {c})
  }

  ghost function First(s: CapabilitySet): (c: ByteString)
    requires s != {}
    ensures IsFirst(c, s)
  {
    FirstExists(s);
    var c :| IsFirst(c, s);
    c
  }

  lemma InOrderFrom(c: ByteString, s: CapabilitySet)
    requires IsFirst(c, s)
    ensures InOrder(s) == [c] + InOrder(s - {c})
  {
    LessTotal(c, First(s));
  }

  // The walk visits every element once, in strictly ascending order.
  lemma {:induction false} InOrderMeaning(s: CapabilitySet)
    ensures |InOrder(s)| == |s|
    ensures forall c :: c in InOrder(s) <==> c in s
    ensures forall i, j :: 0 <= i < j < |InOrder(s)| ==> Less(InOrder(s)[i], InOrder(s)[j])
  {
    if s == {} {
    } else {
      var c := First(s);
      var (walk, rest) := (InOrder(s), InOrder(s - {c}));
      InOrderMeaning(s - {c});
      assert walk == [c] + rest;
      hide InOrder;
      forall i, j | 0 <= i < j < |walk|
        ensures Less(walk[i], walk[j])
      {
        assert walk[j] == rest[j - 1] && rest[j - 1] in rest;
        if i > 0 {
          assert walk[i] == rest[i - 1];
        }
      }
    }
  }

  // CapabilitySet::intersect
  method Intersect(a: CapabilitySet, b: CapabilitySet) returns (out: CapabilitySet)
    ensures out == a * b
  {
    out := {};
    var rest := a;
    while rest != {}
      invariant rest <= a && out == (a - rest) * b
      decreases rest
    {
      FirstExists(rest);
      var value :| IsFirst(value, rest);
      if value in b {
        out := out + {value};
      }
      rest := rest - {value};
    }
  }
}
