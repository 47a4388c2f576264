/** The record type of the store: one domain bound to one IPv4 address. */
module Model {

  /** An immutable pair. The Java class sets both fields once, in its
      constructor, and has only getters; the datatype's destructors `domain`
      and `ip` are those getters. */
  datatype DomainIpPair = DomainIpPair(domain: string, ip: string)

  /** `toString()`: the pair as the console shows it. */
  function ToString(p: DomainIpPair): (r: string)
    ensures |r| == |"Domain: "| + |p.domain| + |", IP: "| + |p.ip|
    ensures r[..8] == "Domain: " && r[8..8 + |p.domain|] == p.domain
    ensures r[8 + |p.domain|..|r| - |p.ip|] == ", IP: "
    ensures r[|r| - |p.ip|..] == p.ip
  {
    "Domain: " + p.domain + ", IP: " + p.ip
  }

  /** Two pairs whose domains contain no comma print differently: the text
      before the first comma gives the domain back, the rest the ip. */
  lemma ToStringInjective(p: DomainIpPair, q: DomainIpPair)
    requires ',' !in p.domain && ',' !in q.domain
    requires ToString(p) == ToString(q)
    ensures p == q
  {
    var r := ToString(p);
    // the comma after the domain is the first comma of the text
    assert r[8 + |p.domain|] == ',' && r[8 + |q.domain|] == ',';
    assert forall k :: 0 <= k < |p.domain| ==> r[8 + k] == p.domain[k];
    assert forall k :: 0 <= k < |q.domain| ==> r[8 + k] == q.domain[k];
    assert |p.domain| == |q.domain|;
    assert p.domain == r[8..8 + |p.domain|] == q.domain;
    assert p.ip == r[|r| - |p.ip|..] == q.ip;
  }

  /** The example from the record's own unit test. */
  lemma ToStringExample()
    ensures ToString(DomainIpPair("test.com", "10.0.0.1")) == "Domain: test.com, IP: 10.0.0.1"
  {
  }
}
