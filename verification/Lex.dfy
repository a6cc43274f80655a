/** Byte strings, their common prefixes and their lexicographic order. */
module Lex {

  type byte = b: int | 0 <= b < 256

  /** The length of the longest common prefix of two byte strings. */
  function Lcp(a: seq<byte>, b: seq<byte>): (l: nat)
    ensures l <= |a| && l <= |b|
    ensures forall i :: 0 <= i < l ==> a[i] == b[i]
    ensures l < |a| && l < |b| ==> a[l] != b[l]
  {
    if a == [] || b == [] || a[0] != b[0] then 0 else 1 + Lcp(a[1..], b[1..])
  }

  /** The lexicographic order: what `bytes.Compare(a, b) < 0` decides. */
  predicate Less(a: seq<byte>, b: seq<byte>)
  {
    b != [] && (a == [] || a[0] < b[0] || (a[0] == b[0] && Less(a[1..], b[1..])))
  }

  /** Two byte strings compare at the first position where they differ. */
  lemma {:induction false} LessAtLcp(a: seq<byte>, b: seq<byte>)
    ensures var l := Lcp(a, b); Less(a, b) <==> l < |b| && (l == |a| || a[l] < b[l])
  {
    if a != [] && b != [] && a[0] == b[0] {
      LessAtLcp(a[1..], b[1..]);
    }
  }

  /** The common prefix length is the only length that satisfies Lcp's contract. */
  lemma LcpUnique(a: seq<byte>, b: seq<byte>, l: nat)
    requires l <= |a| && l <= |b|
    requires forall i :: 0 <= i < l ==> a[i] == b[i]
    requires l < |a| && l < |b| ==> a[l] != b[l]
    ensures l == Lcp(a, b)
  {}

  /** Less is a strict total order. */
  lemma {:induction false} LessTotal(a: seq<byte>, b: seq<byte>)
    ensures a == b ==> !Less(a, b)
    ensures a != b ==> (Less(a, b) <==> !Less(b, a))
  {
    if a != [] && b != [] && a[0] == b[0] {
      LessTotal(a[1..], b[1..]);
      if a[1..] == b[1..] {
        assert a == [a[0]] + a[1..] == b;
      }
    }
  }

  lemma {:induction false} LessTransitive(a: seq<byte>, b: seq<byte>, c: seq<byte>)
    requires Less(a, b) && Less(b, c)
    ensures Less(a, c)
  {
    if a != [] && a[0] == b[0] && b[0] == c[0] {
      LessTransitive(a[1..], b[1..], c[1..]);
    }
  }

  /**
    In sorted order the common prefix with a fixed string only shrinks on the way
    away from it: if a comes before b and b before c, then b shares with both a and
    c at least what a and c share.
   */
  lemma {:induction false} LcpBetween(a: seq<byte>, b: seq<byte>, c: seq<byte>)
    requires (Less(a, b) || a == b) && (Less(b, c) || b == c)
    ensures Lcp(a, c) <= Lcp(b, c)
    ensures Lcp(a, c) <= Lcp(a, b)
  {
    if a != [] && c != [] && a[0] == c[0] {
      assert b != [] && b[0] == a[0] by {
        if a == b || b == c {
        } else {
          assert a[0] <= b[0] <= c[0];
        }
      }
      LcpBetween(a[1..], b[1..], c[1..]);
    }
  }
}
