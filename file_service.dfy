/**
  The record store: the list of domain/ip pairs `FileService` keeps in
  memory and the file it mirrors them to. The file is its text (`None` when
  it cannot be read); lookups, additions and removals work on the list in
  its order, and every successful change rewrites the file.
 */
module Json {
  import opened Wrappers
  import opened JavaString
  import opened Model
  import opened JsonFormat
  import opened DomainOrder
  import Cli
  import RoundTrip

  // ---------------------------------------------------------------------
  // Specification of the lookups

  /** The index of the first pair with domain `domain`, or `|ps|`. */
  function FirstWithDomain(ps: seq<DomainIpPair>, domain: string): (k: nat)
    ensures k <= |ps|
    ensures k < |ps| ==> ps[k].domain == domain
    ensures forall j :: 0 <= j < k ==> ps[j].domain != domain
  {
    if ps == [] then 0
    else if ps[0].domain == domain then 0
    else 1 + FirstWithDomain(ps[1..], domain)
  }

  /** The index of the first pair with ip `ip`, or `|ps|`. */
  function FirstWithIp(ps: seq<DomainIpPair>, ip: string): (k: nat)
    ensures k <= |ps|
    ensures k < |ps| ==> ps[k].ip == ip
    ensures forall j :: 0 <= j < k ==> ps[j].ip != ip
  {
    if ps == [] then 0
    else if ps[0].ip == ip then 0
    else 1 + FirstWithIp(ps[1..], ip)
  }

  /** The index of the first pair whose domain or ip is `key`, or `|ps|`. */
  function FirstMatch(ps: seq<DomainIpPair>, key: string): (k: nat)
    ensures k <= |ps|
    ensures k < |ps| ==> ps[k].domain == key || ps[k].ip == key
    ensures forall j :: 0 <= j < k ==> ps[j].domain != key && ps[j].ip != key
  {
    if ps == [] then 0
    else if ps[0].domain == key || ps[0].ip == key then 0
    else 1 + FirstMatch(ps[1..], key)
  }

  /** What `getIpByDomain` answers (`None` for Java's `null`). */
  function IpByDomain(ps: seq<DomainIpPair>, domain: string): (r: Option<string>)
    ensures r.Some? <==> exists k :: 0 <= k < |ps| && ps[k].domain == domain
    ensures r.Some? ==> DomainIpPair(domain, r.value) in ps
  {
    var k := FirstWithDomain(ps, domain);
    if k < |ps| then Some(ps[k].ip) else None
  }

  /** What `getDomainById` answers (`None` for Java's `null`). */
  function DomainByIp(ps: seq<DomainIpPair>, ip: string): (r: Option<string>)
    ensures r.Some? <==> exists k :: 0 <= k < |ps| && ps[k].ip == ip
    ensures r.Some? ==> DomainIpPair(r.value, ip) in ps
  {
    var k := FirstWithIp(ps, ip);
    if k < |ps| then Some(ps[k].domain) else None
  }

  /** `addDomainIpPair` refuses a pair when some stored domain equals the new
      one ignoring case, or some stored ip equals the new one. */
  predicate Conflicts(ps: seq<DomainIpPair>, domain: string, ip: string) {
    exists k :: 0 <= k < |ps| && (EqualsIgnoreCase(ps[k].domain, domain) || ps[k].ip == ip)
  }

  /** No two pairs share a domain (ignoring case) or an ip: what the
      duplicate checks of `addDomainIpPair` maintain. */
  predicate Unique(ps: seq<DomainIpPair>) {
    forall i, j :: 0 <= i < j < |ps| ==>
      !EqualsIgnoreCase(ps[i].domain, ps[j].domain) && ps[i].ip != ps[j].ip
  }

  /** The list without its `k`-th pair. */
  function RemoveAt(ps: seq<DomainIpPair>, k: nat): (r: seq<DomainIpPair>)
    requires k < |ps|
    ensures |r| == |ps| - 1
    ensures forall i :: 0 <= i < |r| ==> r[i] == if i < k then ps[i] else ps[i + 1]
    ensures multiset(r) + multiset{ps[k]} == multiset(ps)
  {
    assert ps == ps[..k] + [ps[k]] + ps[k + 1..];
    ps[..k] + ps[k + 1..]
  }

  /** How `addDomainIpPair` ends: it returns a boolean, or throws
      `IllegalArgumentException` for an ip that is not IPv4. */
  datatype AddResult = Returned(added: bool) | InvalidIPv4

  // ---------------------------------------------------------------------
  // The store

  class FileService {
    /** The pairs in memory, in file order followed by additions. */
    var data: seq<DomainIpPair>
    /** The contents of the backing file; `None` when it cannot be read. */
    var file: Option<string>

    /** The object before `loadDataFromFile` has run. */
    constructor (file: Option<string>)
      ensures this.file == file && data == []
    {
      this.file := file;
      data := [];
    }

    /** `new FileService(path)`: the file is read once. When the parse throws
        the exception `loadDataFromFile` does not catch, no object results. */
    static method Open(file: Option<string>) returns (s: FileService?)
      ensures s == null <==> Load(file).Aborted?
      ensures s != null ==> fresh(s) && s.file == file && s.data == Load(file).data
    {
      s := new FileService(file);
      var aborted := s.LoadDataFromFile();
      if aborted {
        s := null;
      }
    }

    /** `loadDataFromFile`: an unreadable file or a format error leaves the
        store empty; an index error escapes and the store is not set. */
    method LoadDataFromFile() returns (aborted: bool)
      modifies this`data
      ensures aborted <==> Load(file).Aborted?
      ensures !aborted ==> data == Load(file).data
      ensures aborted ==> data == old(data)
    {
      if file.None? {
        data := [];
        return false;
      }
      var r := ParseJsonData(file.value);
      match r
      case Parsed(pairs) =>
        data := pairs;
        aborted := false;
      case FormatError =>
        data := [];
        aborted := false;
      case IndexOutOfBounds =>
        aborted := true;
    }

    /** `parseJsonData`, loop by loop. */
    static method ParseJsonData(jsonData: string) returns (r: ParseResult)
      ensures r == Parse(jsonData)
    {
      var json := StripWhitespace(jsonData);
      if !Contains(json, Marker) {
        return FormatError;
      }
      var afterMarker := Split(json, Marker);
      if |afterMarker| < 2 {
        return IndexOutOfBounds;
      }
      var beforeClose := Split(afterMarker[1], "]");
      if |beforeClose| == 0 {
        return IndexOutOfBounds;
      }
      var entries := Split(beforeClose[0], EntrySeparator);
      var pairs: seq<DomainIpPair> := [];
      for i := 0 to |entries|
        invariant ParseEntries(entries) == Prepend(pairs, ParseEntries(entries[i..]))
      {
        EntriesAt(entries, i);
        var fields := Split(RemoveChar(RemoveChar(entries[i], '{'), '}'), ",");
        var domain: Option<string> := None;
        var ip: Option<string> := None;
        for j := 0 to |fields|
          invariant ParseEntry(entries[i]) == ScanFields(fields[j..], domain, ip)
        {
          FieldsAt(fields, j, domain, ip);
          var field := fields[j];
          if StartsWith(field, DomainPrefix) {
            var parts := Split(field, ":");
            if |parts| < 2 {
              return IndexOutOfBounds;
            }
            domain := Some(RemoveChar(parts[1], '"'));
          } else if StartsWith(field, IpPrefix) {
            var parts := Split(field, ":");
            if |parts| < 2 {
              return IndexOutOfBounds;
            }
            ip := Some(RemoveChar(parts[1], '"'));
          }
        }
        assert fields[|fields|..] == [];
        if domain.Some? && ip.Some? {
          var p := DomainIpPair(domain.value, ip.value);
          PrependStep(pairs, p, ParseEntries(entries[i + 1..]));
          pairs := pairs + [p];
        } else {
          return FormatError;
        }
      }
      assert pairs + [] == pairs;
      return Parsed(pairs);
    }

    /** `getDomainIpPairs`: the store ascending by domain, pairs with the same
        domain in store order; the store itself is not reordered. */
    function GetDomainIpPairs(): (r: seq<DomainIpPair>)
      reads this
      ensures SortedByDomain(r)
      ensures multiset(r) == multiset(data)
      ensures forall d :: WithDomain(r, d) == WithDomain(data, d)
    {
      SortByDomainSorted(data);
      assert forall d :: WithDomain(SortByDomain(data), d) == WithDomain(data, d) by {
        forall d {
          SortByDomainStable(data, d);
        }
      }
      SortByDomain(data)
    }

    /** `getIpByDomain`: the ip of the first pair with exactly this domain. */
    method GetIpByDomain(domain: string) returns (r: Option<string>)
      ensures r == IpByDomain(data, domain)
    {
      for i := 0 to |data|
        invariant forall k :: 0 <= k < i ==> data[k].domain != domain
      {
        if data[i].domain == domain {
          return Some(data[i].ip);
        }
      }
      return None;
    }

    /** `getDomainById`: the domain of the first pair with exactly this ip. */
    method GetDomainById(ip: string) returns (r: Option<string>)
      ensures r == DomainByIp(data, ip)
    {
      for i := 0 to |data|
        invariant forall k :: 0 <= k < i ==> data[k].ip != ip
      {
        if data[i].ip == ip {
          return Some(data[i].domain);
        }
      }
      return None;
    }

    /** `addDomainIpPair`: an ip that is not IPv4 throws; a domain or ip
        already present refuses the pair; otherwise the pair is appended
        and the file rewritten. */
    method AddDomainIpPair(domain: string, ip: string) returns (r: AddResult)
      modifies this
      ensures r == InvalidIPv4 <==> !Cli.IsValidIPv4(Some(ip))
      ensures r == Returned(true) <==> Cli.IsValidIPv4(Some(ip)) && !Conflicts(old(data), domain, ip)
      ensures r != Returned(true) ==> data == old(data) && file == old(file)
      ensures r == Returned(true) ==>
        data == old(data) + [DomainIpPair(domain, ip)] && file == Some(Serialize(data))
      ensures Unique(old(data)) ==> Unique(data)
    {
      if !Cli.IsValidIPv4(Some(ip)) {
        return InvalidIPv4;
      }
      for i := 0 to |data|
        invariant forall k :: 0 <= k < i ==> !EqualsIgnoreCase(data[k].domain, domain) && data[k].ip != ip
      {
        if EqualsIgnoreCase(data[i].domain, domain) {
          return Returned(false);
        }
        if data[i].ip == ip {
          return Returned(false);
        }
      }
      if Unique(data) {
        AddPreservesUnique(data, domain, ip);
      }
      data := data + [DomainIpPair(domain, ip)];
      SaveToFile();
      return Returned(true);
    }

    /** `saveToFile`: the pairs written in list order between the fixed
        header and footer. */
    method SaveToFile()
      modifies this`file
      ensures file == Some(Serialize(data))
    {
      var json := Header;
      for i := 0 to |data|
        invariant json == Header + EntriesText(data[..i]) + (if 0 < i < |data| then ",\n" else "")
      {
        SaveStep(Header, data, i);
        json := json + EntryText(data[i]);
        if i < |data| - 1 {
          json := json + ",\n";
        }
      }
      assert data[..|data|] == data;
      assert json == Header + EntriesText(data);
      json := json + Footer;
      file := Some(json);
    }

    /** `removeDomainIpPair`: the first pair whose domain or ip is the key is
        removed and the file rewritten; without one nothing changes. */
    method RemoveDomainIpPair(domainOrIp: string) returns (removed: bool)
      modifies this
      ensures removed <==> FirstMatch(old(data), domainOrIp) < |old(data)|
      ensures !removed ==> data == old(data) && file == old(file)
      ensures removed ==>
        data == RemoveAt(old(data), FirstMatch(old(data), domainOrIp)) && file == Some(Serialize(data))
      ensures Unique(old(data)) ==> Unique(data)
    {
      var i := 0;
      while i < |data|
        invariant 0 <= i <= |data|
        invariant forall k :: 0 <= k < i ==> data[k].domain != domainOrIp && data[k].ip != domainOrIp
      {
        if data[i].domain == domainOrIp || data[i].ip == domainOrIp {
          if Unique(data) {
            RemovePreservesUnique(data, i);
          }
          data := RemoveAt(data, i);
          SaveToFile();
          return true;
        }
        i := i + 1;
      }
      return false;
    }
  }

  /** One iteration of the `saveToFile` loop: the entry, then `,\n` unless
      it is the last one. */
  lemma SaveStep(h: string, ps: seq<DomainIpPair>, i: nat)
    requires i < |ps|
    ensures h + EntriesText(ps[..i]) + (if 0 < i then ",\n" else "") + EntryText(ps[i]) + (if i < |ps| - 1 then ",\n" else "")
      == h + EntriesText(ps[..i + 1]) + (if i + 1 < |ps| then ",\n" else "")
  {
    assert ps[..i + 1] == ps[..i] + [ps[i]];
    EntriesTextSnoc(ps[..i], ps[i]);
  }

  /** One step of the inner parse loop: the fields from `j` on. */
  lemma FieldsAt(fields: seq<string>, j: nat, domain: Option<string>, ip: Option<string>)
    requires j < |fields|
    ensures ScanFields(fields[j..], domain, ip) ==
      if StartsWith(fields[j], DomainPrefix) then
        if |Split(fields[j], ":")| < 2 then FieldOutOfBounds
        else ScanFields(fields[j + 1..], Some(RemoveChar(Split(fields[j], ":")[1], '"')), ip)
      else if StartsWith(fields[j], IpPrefix) then
        if |Split(fields[j], ":")| < 2 then FieldOutOfBounds
        else ScanFields(fields[j + 1..], domain, Some(RemoveChar(Split(fields[j], ":")[1], '"')))
      else ScanFields(fields[j + 1..], domain, ip)
  {
    assert fields[j..][0] == fields[j] && fields[j..][1..] == fields[j + 1..];
  }

  lemma PrependStep(pairs: seq<DomainIpPair>, p: DomainIpPair, r: ParseResult)
    ensures Prepend(pairs, Prepend([p], r)) == Prepend(pairs + [p], r)
  {
    if r.Parsed? {
      assert pairs + ([p] + r.pairs) == pairs + [p] + r.pairs;
    }
  }

  /** One step of the outer parse loop: the entries from `i` on. */
  lemma EntriesAt(entries: seq<string>, i: nat)
    requires i < |entries|
    ensures ParseEntries(entries[i..]) ==
      match ParseEntry(entries[i])
      case EntryOk(p) => Prepend([p], ParseEntries(entries[i + 1..]))
      case MissingField => FormatError
      case FieldOutOfBounds => IndexOutOfBounds
  {
    assert entries[i..][0] == entries[i] && entries[i..][1..] == entries[i + 1..];
  }

  // ---------------------------------------------------------------------
  // Properties of the store operations

  /** With no duplicates, `getIpByDomain` finds an ip exactly for a stored pair. */
  lemma IpByDomainIffStored(ps: seq<DomainIpPair>, domain: string, ip: string)
    requires Unique(ps)
    ensures IpByDomain(ps, domain) == Some(ip) <==> DomainIpPair(domain, ip) in ps
  {
    if DomainIpPair(domain, ip) in ps {
      var j :| 0 <= j < |ps| && ps[j] == DomainIpPair(domain, ip);
      var k := FirstWithDomain(ps, domain);
      assert k <= j;
      assert EqualsIgnoreCase(ps[k].domain, ps[j].domain);
    }
  }


  /** With no duplicates, `getDomainById` finds a domain exactly for a stored pair. */
  lemma DomainByIpIffStored(ps: seq<DomainIpPair>, domain: string, ip: string)
    requires Unique(ps)
    ensures DomainByIp(ps, ip) == Some(domain) <==> DomainIpPair(domain, ip) in ps
  {
    if DomainIpPair(domain, ip) in ps {
      var j :| 0 <= j < |ps| && ps[j] == DomainIpPair(domain, ip);
      var k := FirstWithIp(ps, ip);
      assert k <= j;
      assert ps[k].ip == ps[j].ip;
    }
  }


  /** Appending a pair that does not conflict keeps the store free of duplicates. */
  lemma AddPreservesUnique(ps: seq<DomainIpPair>, domain: string, ip: string)
    requires Unique(ps) && !Conflicts(ps, domain, ip)
    ensures Unique(ps + [DomainIpPair(domain, ip)])
  {
    var qs := ps + [DomainIpPair(domain, ip)];
    forall i, j | 0 <= i < j < |qs|
      ensures !EqualsIgnoreCase(qs[i].domain, qs[j].domain) && qs[i].ip != qs[j].ip
    {
      assert qs[i] == ps[i];
      if j < |ps| {
        assert qs[j] == ps[j];
      }
    }
  }

  /** Removing any pair keeps the store free of duplicates. */
  lemma RemovePreservesUnique(ps: seq<DomainIpPair>, k: nat)
    requires Unique(ps) && k < |ps|
    ensures Unique(RemoveAt(ps, k))
  {
    var qs := RemoveAt(ps, k);
    forall i, j | 0 <= i < j < |qs|
      ensures !EqualsIgnoreCase(qs[i].domain, qs[j].domain) && qs[i].ip != qs[j].ip
    {
      var i' := if i < k then i else i + 1;
      var j' := if j < k then j else j + 1;
      assert qs[i] == ps[i'] && qs[j] == ps[j'];
    }
  }

  /** After an accepted addition both lookups find the new pair. */
  lemma AddThenLookup(ps: seq<DomainIpPair>, domain: string, ip: string)
    requires !Conflicts(ps, domain, ip)
    ensures IpByDomain(ps + [DomainIpPair(domain, ip)], domain) == Some(ip)
    ensures DomainByIp(ps + [DomainIpPair(domain, ip)], ip) == Some(domain)
  {
    var qs := ps + [DomainIpPair(domain, ip)];
    forall i | 0 <= i < |ps| ensures qs[i].domain != domain && qs[i].ip != ip {
      assert qs[i] == ps[i] && !EqualsIgnoreCase(ps[i].domain, domain);
    }
    assert qs[|ps|] == DomainIpPair(domain, ip);
  }

  /** An addition does not change what either lookup answers for a key that
      was already found. */
  lemma AddKeepsLookups(ps: seq<DomainIpPair>, p: DomainIpPair, key: string)
    ensures IpByDomain(ps, key).Some? ==> IpByDomain(ps + [p], key) == IpByDomain(ps, key)
    ensures DomainByIp(ps, key).Some? ==> DomainByIp(ps + [p], key) == DomainByIp(ps, key)
  {
    var qs := ps + [p];
    assert forall i :: 0 <= i < |ps| ==> qs[i] == ps[i];
  }

  /** With no duplicates, after a removal by domain that domain is no longer
      found, and after a removal by ip that ip is no longer found. */
  lemma RemoveThenLookup(ps: seq<DomainIpPair>, key: string)
    requires Unique(ps)
    requires FirstMatch(ps, key) < |ps|
    ensures ps[FirstMatch(ps, key)].domain == key ==> IpByDomain(RemoveAt(ps, FirstMatch(ps, key)), key) == None
    ensures ps[FirstMatch(ps, key)].ip == key ==> DomainByIp(RemoveAt(ps, FirstMatch(ps, key)), key) == None
  {
    var k := FirstMatch(ps, key);
    var qs := RemoveAt(ps, k);
    assert forall i :: 0 <= i < |qs| ==> qs[i] == ps[if i < k then i else i + 1];
    assert EqualsIgnoreCase(key, key);
  }

  /** A pair accepted by `addDomainIpPair` survives a reload of the rewritten
      file, provided its domain has no character the reader cuts at (the ip
      has none once it is valid). */
  lemma AddedPairReloads(ps: seq<DomainIpPair>, domain: string, ip: string)
    requires RoundTrip.CleanPairs(ps) && RoundTrip.Clean(domain) && Cli.IsValidIPv4(Some(ip))
    ensures Load(Some(Serialize(ps + [DomainIpPair(domain, ip)]))) == Loaded(ps + [DomainIpPair(domain, ip)])
  {
    RoundTrip.ValidIPv4IsClean(ip);
    var qs := ps + [DomainIpPair(domain, ip)];
    assert forall k :: 0 <= k < |ps| ==> qs[k] == ps[k];
    RoundTrip.SerializeRoundTrip(qs);
  }

  /** The list left by `removeDomainIpPair` survives a reload of the
      rewritten file. */
  lemma RemainingPairsReload(ps: seq<DomainIpPair>, k: nat)
    requires RoundTrip.CleanPairs(ps) && k < |ps|
    ensures Load(Some(Serialize(RemoveAt(ps, k)))) == Loaded(RemoveAt(ps, k))
  {
    var qs := RemoveAt(ps, k);
    assert forall i :: 0 <= i < |qs| ==> qs[i] == ps[if i < k then i else i + 1];
    RoundTrip.SerializeRoundTrip(qs);
  }
}
