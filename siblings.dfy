/** The sibling-list splice both document variants perform on insert: the new
    id goes before the first sibling whose id is not smaller under
    `String.compareTo`. */
module Siblings {
  import opened JavaStrings

  /** Ascending under `compareTo` (equal ids may sit next to each other). */
  ghost predicate Sorted(s: seq<string>)
  {
    forall i, j :: 0 <= i < j < |s| ==> LessEq(s[i], s[j])
  }

  /** Index of the first sibling that is not smaller than `x`. */
  function SpliceIndex(s: seq<string>, x: string): (i: nat)
    ensures i <= |s|
    ensures forall j :: 0 <= j < i ==> Less(s[j], x)
    ensures i < |s| ==> !Less(s[i], x)
  {
    if s == [] || !Less(s[0], x) then 0 else 1 + SpliceIndex(s[1..], x)
  }

  /** `siblings.add(pos, x)` at the splice index. */
  function Splice(s: seq<string>, x: string): seq<string>
  {
    var i := SpliceIndex(s, x);
    s[..i] + [x] + s[i..]
  }

  /** Where each element of the spliced list comes from. */
  lemma SpliceAt(s: seq<string>, x: string, k: nat)
    requires k <= |s|
    ensures |Splice(s, x)| == |s| + 1
    ensures Splice(s, x)[k] ==
      (if k < SpliceIndex(s, x) then s[k] else if k == SpliceIndex(s, x) then x else s[k - 1])
  {
  }

  /** The splice adds `x` and loses nothing. */
  lemma SpliceMembers(s: seq<string>, x: string)
    ensures forall c :: c in Splice(s, x) <==> c == x || c in s
    ensures |Splice(s, x)| == |s| + 1
  {
    var i := SpliceIndex(s, x);
    assert s == s[..i] + s[i..];
  }

  /** The splice adds exactly one copy of `x`, sorted or not. */
  lemma SpliceMultiset(s: seq<string>, x: string)
    ensures multiset(Splice(s, x)) == multiset(s) + multiset{x}
  {
    var i := SpliceIndex(s, x);
    assert s == s[..i] + s[i..];
  }

  /** The splice adds exactly `x` and keeps the list sorted. */
  lemma SpliceSorted(s: seq<string>, x: string)
    requires Sorted(s)
    ensures Sorted(Splice(s, x))
    ensures multiset(Splice(s, x)) == multiset(s) + multiset{x}
  {
    SpliceOrdered(s, x);
    SpliceMultiset(s, x);
  }

  lemma SpliceOrdered(s: seq<string>, x: string)
    requires Sorted(s)
    ensures Sorted(Splice(s, x))
  {
    var i := SpliceIndex(s, x);
    var r := Splice(s, x);
    forall p, q | 0 <= p < q < |r|
      ensures LessEq(r[p], r[q])
    {
      SpliceAt(s, x, p);
      SpliceAt(s, x, q);
      if p == i {
        LessTotal(s[i], x);
        assert LessEq(s[i], s[q - 1]);
        LessEqTransitive(x, s[i], s[q - 1]);
      } else if p < i < q {
        assert LessEq(s[p], s[q - 1]);
      } else if q > i {
        assert LessEq(s[p - 1], s[q - 1]);
      } else if q < i {
        assert LessEq(s[p], s[q]);
      }
    }
  }

  /** The first element of a non-empty sorted list is not above any other. */
  lemma SortedHeadLeast(a: seq<string>, x: string)
    requires Sorted(a) && x in multiset(a)
    ensures |a| > 0 && LessEq(a[0], x)
  {
    var k :| 0 <= k < |a| && a[k] == x;
    if k > 0 {
      assert LessEq(a[0], a[k]);
    }
  }

  lemma MultisetTails(a: seq<string>, b: seq<string>)
    requires a != [] && b != [] && a[0] == b[0]
    requires multiset(a) == multiset(b)
    ensures multiset(a[1..]) == multiset(b[1..])
  {
    assert a == [a[0]] + a[1..] && b == [b[0]] + b[1..];
    assert multiset(a[1..]) == multiset(a) - multiset([a[0]]);
    assert multiset(b[1..]) == multiset(b) - multiset([b[0]]);
  }

  /** Two sorted lists with the same elements are the same list. */
  lemma {:induction false} SortedUnique(a: seq<string>, b: seq<string>)
    requires Sorted(a) && Sorted(b)
    requires multiset(a) == multiset(b)
    ensures a == b
  {
    if a == [] {
      assert |multiset(b)| == 0;
    } else {
      assert a[0] in multiset(b) && b[0] in multiset(b);
      SortedHeadLeast(b, a[0]);
      SortedHeadLeast(a, b[0]);
      LessEqAntisymmetric(a[0], b[0]);
      MultisetTails(a, b);
      SortedUnique(a[1..], b[1..]);
      assert a == [a[0]] + a[1..] && b == [b[0]] + b[1..];
    }
  }

  /** Siblings converge: two inserts under the same parent give the same list
      whichever arrives first. */
  lemma SpliceCommutes(s: seq<string>, a: string, b: string)
    requires Sorted(s)
    ensures Splice(Splice(s, a), b) == Splice(Splice(s, b), a)
  {
    SpliceSorted(s, a);
    SpliceSorted(s, b);
    SpliceSorted(Splice(s, a), b);
    SpliceSorted(Splice(s, b), a);
    SortedUnique(Splice(Splice(s, a), b), Splice(Splice(s, b), a));
  }

  /** The `while` loop that both `insertCharacter` variants run. */
  method FindSpliceIndex(siblings: seq<string>, x: string) returns (pos: nat)
    ensures pos == SpliceIndex(siblings, x)
  {
    pos := 0;
    while pos < |siblings| && Less(siblings[pos], x)
      invariant pos <= |siblings|
      invariant forall j :: 0 <= j < pos ==> Less(siblings[j], x)
    {
      pos := pos + 1;
    }
  }
}
