/**
  The store's unit-test scenarios, stated on the model: the two-pair file
  the tests start from, and what each operation answers on it.
 */
module Scenarios {
  import opened Wrappers
  import opened JavaString
  import opened Model
  import opened JsonFormat
  import opened DomainOrder
  import opened Json
  import Cli
  import RoundTrip

  const Example := DomainIpPair("example.com", "192.168.1.1")
  const Test := DomainIpPair("test.com", "10.0.0.1")

  /** The file the tests write before each case, built as the tests build it. */
  const TestFile := "{\n" + "  \"addresses\": [\n"
    + "    {\"domain\": \"example.com\", \"ip\": \"192.168.1.1\"},\n"
    + "    {\"domain\": \"test.com\", \"ip\": \"10.0.0.1\"}\n"
    + "  ]\n}"

  lemma TestFileHeader()
    ensures "{\n" + "  \"addresses\": [\n" == Header
  {
  }

  lemma TestFileFirstEntry()
    ensures "    {\"domain\": \"example.com\", \"ip\": \"192.168.1.1\"},\n" == EntryText(Example) + ",\n"
  {
  }

  lemma TestFileLastEntry()
    ensures "    {\"domain\": \"test.com\", \"ip\": \"10.0.0.1\"}\n" + "  ]\n}" == EntryText(Test) + Footer
  {
  }

  /** The test file is exactly what `saveToFile` writes for its two pairs. */
  lemma TestFileIsSerialized()
    ensures TestFile == Serialize([Example, Test])
  {
    var ps := [Example, Test];
    assert ps[1..] == [Test];
    assert EntriesText(ps) == EntryText(Example) + ",\n" + EntryText(Test);
    TestFileHeader();
    TestFileFirstEntry();
    TestFileLastEntry();
  }

  /** The values of the test file have no character the reader cuts at. */
  lemma TestPairsClean()
    ensures RoundTrip.CleanPairs([Example, Test])
  {
    TestValuesClean();
    var ps := [Example, Test];
    assert forall k :: 0 <= k < |ps| ==> ps[k] == Example || ps[k] == Test;
  }

  lemma TestValuesClean()
    ensures RoundTrip.Clean("example.com") && RoundTrip.Clean("test.com")
    ensures RoundTrip.Clean("192.168.1.1") && RoundTrip.Clean("10.0.0.1")
  {
  }

  /** The test file loads as its two pairs, in file order, without
      duplicates. */
  lemma TestFileLoads()
    ensures Load(Some(TestFile)) == Loaded([Example, Test])
    ensures Unique([Example, Test])
  {
    TestFileIsSerialized();
    TestPairsClean();
    RoundTrip.SerializeRoundTrip([Example, Test]);
  }

  /** The listing puts example.com before test.com. */
  lemma TestListing()
    ensures SortByDomain([Example, Test]) == [Example, Test]
  {
    assert [Example, Test][1..] == [Test];
    assert CompareTo(Example.domain, Test.domain) == 'e' as int - 't' as int;
  }

  /** Lookups of a stored and an unknown domain, and of a stored and an
      unknown ip. */
  lemma TestLookups()
    ensures IpByDomain([Example, Test], "example.com") == Some("192.168.1.1")
    ensures IpByDomain([Example, Test], "nonexistent.com") == None
    ensures DomainByIp([Example, Test], "10.0.0.1") == Some("test.com")
    ensures DomainByIp([Example, Test], "1.1.1.1") == None
  {
    var ps := [Example, Test];
    assert ps[0].domain != "nonexistent.com" && ps[1].domain != "nonexistent.com";
    assert FirstWithDomain(ps, "nonexistent.com") == 2;
    assert ps[0].ip != "1.1.1.1" && ps[1].ip != "1.1.1.1";
    assert FirstWithIp(ps, "1.1.1.1") == 2;
    assert ps[0].ip != "10.0.0.1";
  }

  /** A new domain with a new valid ip is accepted and then found. */
  lemma TestAddAccepted()
    ensures Cli.IsValidIPv4(Some("172.16.0.1")) && !Conflicts([Example, Test], "new.com", "172.16.0.1")
    ensures IpByDomain([Example, Test] + [DomainIpPair("new.com", "172.16.0.1")], "new.com") == Some("172.16.0.1")
  {
    NewIpIsValid();
    NewPairDoesNotConflict();
    AddThenLookup([Example, Test], "new.com", "172.16.0.1");
  }

  lemma NewIpIsValid()
    ensures Cli.IsValidIPv4(Some("172.16.0.1"))
  {
    assert Cli.OctetPattern("172") && Cli.OctetPattern("16");
    assert Cli.OctetPattern("0") && Cli.OctetPattern("1");
    Cli.IsValidIPv4OfOctets("172", "16", "0", "1");
    assert "172.16.0.1" == "172" + "." + ("16" + "." + ("0" + "." + "1"));
  }

  lemma NewPairDoesNotConflict()
    ensures !Conflicts([Example, Test], "new.com", "172.16.0.1")
  {
    var ps := [Example, Test];
    assert |ps[0].domain| != |"new.com"| && |ps[1].domain| != |"new.com"|;
    assert |ps[0].ip| != |"172.16.0.1"| && |ps[1].ip| != |"172.16.0.1"|;
  }

  /** A stored domain or a stored ip is refused. */
  lemma TestAddRefused()
    ensures Conflicts([Example, Test], "example.com", "172.16.0.1")
    ensures Conflicts([Example, Test], "unique.com", "192.168.1.1")
  {
    assert EqualsIgnoreCase([Example, Test][0].domain, "example.com");
    assert [Example, Test][0].ip == "192.168.1.1";
  }

  /** 256.256.256.256 is not IPv4, so adding it throws. */
  lemma TestAddInvalid()
    ensures !Cli.IsValidIPv4(Some("256.256.256.256"))
  {
    Cli.OctetPatternIsOctet("256");
    Cli.RejectsFirstOctet("256", "256.256.256");
    assert "256.256.256.256" == "256" + "." + "256.256.256";
  }

  /** Removal by domain and by ip takes out the matching pair, after which
      it is not found; an unknown key matches nothing. */
  lemma TestRemoveRules()
    ensures FirstMatch([Example, Test], "example.com") == 0
    ensures IpByDomain(RemoveAt([Example, Test], 0), "example.com") == None
    ensures FirstMatch([Example, Test], "10.0.0.1") == 1
    ensures DomainByIp(RemoveAt([Example, Test], 1), "10.0.0.1") == None
    ensures FirstMatch([Example, Test], "nonexistent.com") == 2
  {
    var ps := [Example, Test];
    assert ps[1..] == [Test];
    assert RemoveAt(ps, 0) == [Test] && RemoveAt(ps, 1) == [Example];
  }
}
