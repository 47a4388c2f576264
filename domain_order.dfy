/**
  The order `getDomainIpPairs` lists the store in: `String.compareTo` on the
  domains, applied by a stable sort (`Stream.sorted` on an ordered stream
  keeps equal elements in encounter order).
 */
module DomainOrder {
  import opened Model

  /** `a.compareTo(b)`: the difference of the first pair of characters that
      differ, or else the difference of the lengths. */
  function CompareTo(a: string, b: string): int
  {
    if a == [] || b == [] then |a| - |b|
    else if a[0] != b[0] then a[0] as int - b[0] as int
    else CompareTo(a[1..], b[1..])
  }

  lemma {:induction false} CompareToAntisymmetric(a: string, b: string)
    ensures CompareTo(a, b) == -CompareTo(b, a)
    decreases |a|
  {
    if a != [] && b != [] && a[0] == b[0] {
      CompareToAntisymmetric(a[1..], b[1..]);
    }
  }

  /** `compareTo` is 0 exactly on equal strings. */
  lemma {:induction false} CompareToZero(a: string, b: string)
    ensures CompareTo(a, b) == 0 <==> a == b
    decreases |a|
  {
    if a != [] && b != [] && a[0] == b[0] {
      CompareToZero(a[1..], b[1..]);
      assert a == [a[0]] + a[1..] && b == [b[0]] + b[1..];
    }
  }

  lemma {:induction false} CompareToTransitive(a: string, b: string, c: string)
    requires CompareTo(a, b) <= 0 && CompareTo(b, c) <= 0
    ensures CompareTo(a, c) <= 0
    decreases |a|
  {
    if a != [] && b != [] && c != [] && a[0] == b[0] && b[0] == c[0] {
      CompareToTransitive(a[1..], b[1..], c[1..]);
    }
  }

  /** Ascending by domain: every pair's domain compares at most equal to the
      domain of every later pair. */
  predicate SortedByDomain(ps: seq<DomainIpPair>) {
    forall i, j :: 0 <= i < j < |ps| ==> CompareTo(ps[i].domain, ps[j].domain) <= 0
  }

  /** The pairs whose domain is `d`, in their order in `ps`. */
  function WithDomain(ps: seq<DomainIpPair>, d: string): (r: seq<DomainIpPair>)
    ensures |r| <= |ps|
  {
    if ps == [] then []
    else (if ps[0].domain == d then [ps[0]] else []) + WithDomain(ps[1..], d)
  }

  /** `p` placed before the first pair whose domain it does not follow. */
  function Insert(p: DomainIpPair, s: seq<DomainIpPair>): (r: seq<DomainIpPair>)
    ensures multiset(r) == multiset([p] + s)
  {
    if s == [] then [p]
    else if CompareTo(p.domain, s[0].domain) <= 0 then [p] + s
    else
      assert s == [s[0]] + s[1..];
      [s[0]] + Insert(p, s[1..])
  }

  /** The listing of `getDomainIpPairs`, computed as a stable insertion sort. */
  function SortByDomain(ps: seq<DomainIpPair>): (r: seq<DomainIpPair>)
    ensures multiset(r) == multiset(ps)
  {
    if ps == [] then []
    else
      assert ps == [ps[0]] + ps[1..];
      Insert(ps[0], SortByDomain(ps[1..]))
  }

  lemma {:induction false} InsertSorted(p: DomainIpPair, s: seq<DomainIpPair>)
    requires SortedByDomain(s)
    ensures SortedByDomain(Insert(p, s))
    decreases |s|
  {
    if s != [] {
      if CompareTo(p.domain, s[0].domain) <= 0 {
        forall j | 0 <= j < |s| ensures CompareTo(p.domain, s[j].domain) <= 0 {
          if j > 0 {
            CompareToTransitive(p.domain, s[0].domain, s[j].domain);
          }
        }
        var r := [p] + s;
        assert forall i :: 0 < i < |r| ==> r[i] == s[i - 1];
      } else {
        CompareToAntisymmetric(p.domain, s[0].domain);
        InsertSorted(p, s[1..]);
        var t := Insert(p, s[1..]);
        forall x | x in t ensures CompareTo(s[0].domain, x.domain) <= 0 {
          assert x in multiset(t);
          assert x == p || x in s[1..];
        }
        var r := [s[0]] + t;
        assert forall i :: 0 < i < |r| ==> r[i] == t[i - 1] && t[i - 1] in t;
      }
    }
  }

  /** The listing is ascending by domain. */
  lemma {:induction false} SortByDomainSorted(ps: seq<DomainIpPair>)
    ensures SortedByDomain(SortByDomain(ps))
    decreases |ps|
  {
    if ps != [] {
      SortByDomainSorted(ps[1..]);
      InsertSorted(ps[0], SortByDomain(ps[1..]));
    }
  }

  lemma {:induction false} WithDomainAppend(a: seq<DomainIpPair>, b: seq<DomainIpPair>, d: string)
    ensures WithDomain(a + b, d) == WithDomain(a, d) + WithDomain(b, d)
    decreases |a|
  {
    if a == [] {
      assert a + b == b;
    } else {
      var head := if a[0].domain == d then [a[0]] else [];
      assert (a + b)[0] == a[0] && (a + b)[1..] == a[1..] + b;
      assert WithDomain(a + b, d) == head + WithDomain(a[1..] + b, d);
      WithDomainAppend(a[1..], b, d);
      assert WithDomain(a, d) == head + WithDomain(a[1..], d);
    }
  }

  /** Inserting `p` puts it in front of the pairs that share its domain. */
  lemma {:induction false} InsertStable(p: DomainIpPair, s: seq<DomainIpPair>, d: string)
    ensures WithDomain(Insert(p, s), d) == WithDomain([p], d) + WithDomain(s, d)
    decreases |s|
  {
    if s == [] {
    } else if CompareTo(p.domain, s[0].domain) <= 0 {
      WithDomainAppend([p], s, d);
    } else {
      var t := Insert(p, s[1..]);
      assert Insert(p, s) == [s[0]] + t;
      InsertStable(p, s[1..], d);
      WithDomainAppend([s[0]], t, d);
      assert s == [s[0]] + s[1..];
      WithDomainAppend([s[0]], s[1..], d);
      // p sorts after s[0], so the two domains differ and at most one is d
      CompareToZero(p.domain, s[0].domain);
      WithDomainSingle(p, d);
      WithDomainSingle(s[0], d);
      SwapAroundEmpty(WithDomain([p], d), WithDomain([s[0]], d), WithDomain(s[1..], d));
    }
  }

  lemma WithDomainSingle(x: DomainIpPair, d: string)
    ensures WithDomain([x], d) == if x.domain == d then [x] else []
  {
    assert [x][1..] == [];
  }

  lemma SwapAroundEmpty(a: seq<DomainIpPair>, b: seq<DomainIpPair>, c: seq<DomainIpPair>)
    requires a == [] || b == []
    ensures b + (a + c) == a + (b + c)
  {
  }

  /** Pairs with the same domain keep their relative order in the listing. */
  lemma {:induction false} SortByDomainStable(ps: seq<DomainIpPair>, d: string)
    ensures WithDomain(SortByDomain(ps), d) == WithDomain(ps, d)
    decreases |ps|
  {
    if ps != [] {
      SortByDomainStable(ps[1..], d);
      InsertStable(ps[0], SortByDomain(ps[1..]), d);
      assert ps == [ps[0]] + ps[1..];
      WithDomainAppend([ps[0]], ps[1..], d);
    }
  }

  /** Two pairs read from a file as test.com then example.com are listed
      example.com first. */
  lemma SortExample()
    ensures var a := DomainIpPair("test.com", "10.0.0.1");
      var b := DomainIpPair("example.com", "192.168.1.1");
      SortByDomain([a, b]) == [b, a]
  {
    var a := DomainIpPair("test.com", "10.0.0.1");
    var b := DomainIpPair("example.com", "192.168.1.1");
    assert [a, b][1..] == [b];
    assert CompareTo(a.domain, b.domain) == 't' as int - 'e' as int;
  }
}
