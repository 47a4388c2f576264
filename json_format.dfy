/**
  The text format of the backing file, as `FileService` reads and writes it.
  Reading is not a JSON parser: all whitespace is removed, the text after
  `"addresses":[` and before the next `]` is cut into entries at `},{`, each
  entry loses its braces and is cut into fields at `,`, and a field starting
  with `"domain":` or `"ip":` contributes the text after its first `:` with
  the double quotes removed. Writing is a fixed pretty-printed layout.
 */
module JsonFormat {
  import opened Wrappers
  import opened JavaString
  import opened Model

  /** What `parseJsonData` looks for once whitespace is gone. */
  const Marker := "\"addresses\":["
  const EntrySeparator := "},{"
  const DomainPrefix := "\"domain\":"
  const IpPrefix := "\"ip\":"

  /** How reading one entry ends: with a pair, with a missing field
      (`IllegalArgumentException`), or with `split(":")[1]` out of bounds
      (`ArrayIndexOutOfBoundsException`). */
  datatype EntryResult = EntryOk(pair: DomainIpPair) | MissingField | FieldOutOfBounds

  /** How `parseJsonData` ends: a list of pairs, an
      `IllegalArgumentException` (which `loadDataFromFile` catches), or an
      `ArrayIndexOutOfBoundsException` (which nothing catches). */
  datatype ParseResult = Parsed(pairs: seq<DomainIpPair>) | FormatError | IndexOutOfBounds

  /** The inner loop of `parseJsonData`: the fields of one entry scanned in
      order, a later `"domain":` or `"ip":` field overriding an earlier one. */
  function ScanFields(fields: seq<string>, domain: Option<string>, ip: Option<string>): (r: EntryResult)
    decreases |fields|
  {
    if fields == [] then
      if domain.Some? && ip.Some? then EntryOk(DomainIpPair(domain.value, ip.value)) else MissingField
    else
      var field := fields[0];
      if StartsWith(field, DomainPrefix) then
        var parts := Split(field, ":");
        if |parts| < 2 then FieldOutOfBounds
        else ScanFields(fields[1..], Some(RemoveChar(parts[1], '"')), ip)
      else if StartsWith(field, IpPrefix) then
        var parts := Split(field, ":");
        if |parts| < 2 then FieldOutOfBounds
        else ScanFields(fields[1..], domain, Some(RemoveChar(parts[1], '"')))
      else ScanFields(fields[1..], domain, ip)
  }

  /** One entry: braces removed, cut at `,`, fields scanned. */
  function ParseEntry(entry: string): EntryResult {
    ScanFields(Split(RemoveChar(RemoveChar(entry, '{'), '}'), ","), None, None)
  }

  /** The outer loop of `parseJsonData`: entries read in order, the first one
      that fails deciding the exception. */
  function ParseEntries(entries: seq<string>): ParseResult
    decreases |entries|
  {
    if entries == [] then Parsed([])
    else
      match ParseEntry(entries[0])
      case EntryOk(p) => Prepend([p], ParseEntries(entries[1..]))
      case MissingField => FormatError
      case FieldOutOfBounds => IndexOutOfBounds
  }

  /** The entries parse exactly when each of them yields a pair, and then the
      list holds those pairs in entry order. */
  lemma {:induction false} ParseEntriesAllOk(entries: seq<string>)
    ensures ParseEntries(entries).Parsed? <==> forall k :: 0 <= k < |entries| ==> ParseEntry(entries[k]).EntryOk?
    ensures ParseEntries(entries).Parsed? ==>
      |ParseEntries(entries).pairs| == |entries| &&
      forall k :: 0 <= k < |entries| ==> ParseEntries(entries).pairs[k] == ParseEntry(entries[k]).pair
    decreases |entries|
  {
    if entries != [] {
      ParseEntriesAllOk(entries[1..]);
      assert forall k :: 1 <= k < |entries| ==> entries[1..][k - 1] == entries[k];
    }
  }

  /** The first entry that yields no pair decides the exception. */
  lemma {:induction false} ParseEntriesFirstFailure(entries: seq<string>, k: nat)
    requires k < |entries| && !ParseEntry(entries[k]).EntryOk?
    requires forall j :: 0 <= j < k ==> ParseEntry(entries[j]).EntryOk?
    ensures ParseEntries(entries) ==
      if ParseEntry(entries[k]).MissingField? then FormatError else IndexOutOfBounds
    decreases k
  {
    if k > 0 {
      var rest := entries[1..];
      var first := ParseEntry(entries[0]);
      assert first.EntryOk?;
      forall j | 0 <= j < k - 1 ensures ParseEntry(rest[j]).EntryOk? {
        assert rest[j] == entries[j + 1];
      }
      assert rest[k - 1] == entries[k];
      ParseEntriesFirstFailure(rest, k - 1);
      assert ParseEntries(entries) == Prepend([first.pair], ParseEntries(rest));
    }
  }

  /** `pairs` in front of the pairs of `r`; failures pass through. */
  function Prepend(pairs: seq<DomainIpPair>, r: ParseResult): ParseResult {
    if r.Parsed? then Parsed(pairs + r.pairs) else r
  }

  /** `parseJsonData`. */
  function Parse(jsonData: string): ParseResult {
    var json := StripWhitespace(jsonData);
    if !Contains(json, Marker) then FormatError
    else
      var afterMarker := Split(json, Marker);
      if |afterMarker| < 2 then IndexOutOfBounds
      else
        var beforeClose := Split(afterMarker[1], "]");
        if |beforeClose| == 0 then IndexOutOfBounds
        else ParseEntries(Split(beforeClose[0], EntrySeparator))
  }

  /** The data `loadDataFromFile` leaves in the store, or `Aborted` when the
      parse throws the exception it does not catch. An unreadable file
      (`IOException`) is `None`. */
  datatype LoadResult = Loaded(data: seq<DomainIpPair>) | Aborted

  function Load(file: Option<string>): (r: LoadResult)
    ensures r.Aborted? <==> file.Some? && Parse(file.value).IndexOutOfBounds?
    ensures r.Loaded? && r.data != [] ==> file.Some? && Parse(file.value) == Parsed(r.data)
    ensures file.Some? && Parse(file.value).Parsed? ==> r == Loaded(Parse(file.value).pairs)
  {
    if file.None? then Loaded([])
    else match Parse(file.value)
      case Parsed(pairs) => Loaded(pairs)
      case FormatError => Loaded([])
      case IndexOutOfBounds => Aborted
  }

  // ---------------------------------------------------------------------
  // Writing

  const Header := "{\n  \"addresses\": [\n"
  const Footer := "\n  ]\n}"

  /** `String.format("    {\"domain\": \"%s\", \"ip\": \"%s\"}", domain, ip)`. */
  function EntryText(p: DomainIpPair): string {
    "    {\"domain\": \"" + p.domain + "\", \"ip\": \"" + p.ip + "\"}"
  }

  /** The entries in list order, separated by `,\n`. */
  function EntriesText(ps: seq<DomainIpPair>): string {
    if ps == [] then ""
    else if |ps| == 1 then EntryText(ps[0])
    else EntryText(ps[0]) + ",\n" + EntriesText(ps[1..])
  }

  /** The text `saveToFile` writes. */
  function Serialize(ps: seq<DomainIpPair>): string {
    Header + EntriesText(ps) + Footer
  }

  /** Appending one pair adds `,\n` and its entry at the end. */
  lemma {:induction false} EntriesTextSnoc(ps: seq<DomainIpPair>, p: DomainIpPair)
    ensures EntriesText(ps + [p]) == EntriesText(ps) + (if ps == [] then "" else ",\n") + EntryText(p)
    decreases |ps|
  {
    if ps == [] {
      assert ps + [p] == [p];
    } else {
      assert (ps + [p])[0] == ps[0] && (ps + [p])[1..] == ps[1..] + [p];
      EntriesTextSnoc(ps[1..], p);
    }
  }

  // ---------------------------------------------------------------------
  // Texts that load as an empty store

  /** Without `"addresses":[` in the text (whitespace ignored) the parse
      throws `IllegalArgumentException`, which leaves the store empty. */
  lemma MissingMarkerLoadsEmpty(jsonData: string)
    requires !Contains(StripWhitespace(jsonData), Marker)
    ensures Load(Some(jsonData)) == Loaded([])
  {
  }

  /** A text lacking one of the characters of `"addresses":[` cannot hold it. */
  lemma MissingCharLoadsEmpty(jsonData: string, c: char)
    requires c in Marker && c !in jsonData
    ensures Load(Some(jsonData)) == Loaded([])
  {
    IndexOfMissingChar(StripWhitespace(jsonData), Marker, c);
  }

  /** The empty file loads as an empty store. */
  lemma EmptyFileLoadsEmpty()
    ensures Load(Some("")) == Loaded([])
  {
    MissingCharLoadsEmpty("", '"');
  }

  /** `{ invalid json content }` has no double quote, so no marker. */
  lemma InvalidJsonLoadsEmpty()
    ensures Load(Some("{ invalid json content }")) == Loaded([])
  {
    assert Marker[0] == '"';
    MissingCharLoadsEmpty("{ invalid json content }", '"');
  }

  /** `{ "other": [] }` has no letter d, so no marker. */
  lemma OtherArrayLoadsEmpty()
    ensures Load(Some("{ \"other\": [] }")) == Loaded([])
  {
    assert Marker[2] == 'd';
    MissingCharLoadsEmpty("{ \"other\": [] }", 'd');
  }

  /** A field list with no `"domain":` field never yields a pair. */
  lemma {:induction false} NoDomainFieldFails(fields: seq<string>, ip: Option<string>)
    requires forall k :: 0 <= k < |fields| ==> !StartsWith(fields[k], DomainPrefix)
    ensures !ScanFields(fields, None, ip).EntryOk?
    decreases |fields|
  {
    if fields != [] {
      var ip' := if StartsWith(fields[0], IpPrefix) && |Split(fields[0], ":")| >= 2
        then Some(RemoveChar(Split(fields[0], ":")[1], '"')) else ip;
      NoDomainFieldFails(fields[1..], ip');
    }
  }

  /** A field list with no `"ip":` field never yields a pair. */
  lemma {:induction false} NoIpFieldFails(fields: seq<string>, domain: Option<string>)
    requires forall k :: 0 <= k < |fields| ==> !StartsWith(fields[k], IpPrefix)
    ensures !ScanFields(fields, domain, None).EntryOk?
    decreases |fields|
  {
    if fields != [] {
      var domain' := if StartsWith(fields[0], DomainPrefix) && |Split(fields[0], ":")| >= 2
        then Some(RemoveChar(Split(fields[0], ":")[1], '"')) else domain;
      NoIpFieldFails(fields[1..], domain');
    }
  }

  /** When every entry's fields can be read but some entry lacks a field, the
      parse throws `IllegalArgumentException` and the store is empty. */
  lemma MissingFieldLoadsEmpty(jsonData: string, entries: seq<string>)
    requires Parse(jsonData) == ParseEntries(entries)
    requires forall k :: 0 <= k < |entries| ==> !ParseEntry(entries[k]).FieldOutOfBounds?
    requires exists k :: 0 <= k < |entries| && !ParseEntry(entries[k]).EntryOk?
    ensures Parse(jsonData) == FormatError
    ensures Load(Some(jsonData)) == Loaded([])
  {
    var k :| 0 <= k < |entries| && !ParseEntry(entries[k]).EntryOk?;
    var first := FirstFailure(entries, k);
    ParseEntriesFirstFailure(entries, first);
  }

  /** The index of the first entry that does not yield a pair. */
  lemma {:induction false} FirstFailure(entries: seq<string>, k: nat) returns (first: nat)
    requires k < |entries| && !ParseEntry(entries[k]).EntryOk?
    ensures first <= k && !ParseEntry(entries[first]).EntryOk?
    ensures forall j :: 0 <= j < first ==> ParseEntry(entries[j]).EntryOk?
    decreases k
  {
    if forall j :: 0 <= j < k ==> ParseEntry(entries[j]).EntryOk? {
      first := k;
    } else {
      var j :| 0 <= j < k && !ParseEntry(entries[j]).EntryOk?;
      first := FirstFailure(entries, j);
    }
  }

  // ---------------------------------------------------------------------
  // Texts whose load aborts with `ArrayIndexOutOfBoundsException`

  /** After the first `"addresses":[` there is nothing but further copies of
      it (or nothing at all): `split` leaves no second piece. That the marker
      after `pre` is the first one is all that is asked of `pre`. */
  lemma OnlyMarkersAfterMarkerAborts(jsonData: string, pre: string, n: nat)
    requires IndexOf(pre + Marker, Marker) == |pre|
    requires StripWhitespace(jsonData) == pre + Marker + Repeat(Marker, n)
    ensures Parse(jsonData) == IndexOutOfBounds
    ensures Load(Some(jsonData)) == Aborted
  {
    var json := StripWhitespace(jsonData);
    SegmentsAtFirst(pre, Marker, Repeat(Marker, n));
    SegmentsOfRepeat(Marker, n);
    SplitDropsEmptyTail(json, Marker, 1);
  }

  /** The array part, from the first marker up to the next marker (`rest`
      starts with one) or the end (`rest` is empty), is one or more `]`:
      splitting it at `]` leaves nothing. */
  lemma OnlyClosingBracketsAborts(jsonData: string, pre: string, n: nat, rest: string)
    requires IndexOf(pre + Marker, Marker) == |pre| && n > 0
    requires rest == "" || StartsWith(rest, Marker)
    requires StripWhitespace(jsonData) == pre + Marker + Repeat("]", n) + rest
    ensures Parse(jsonData) == IndexOutOfBounds
    ensures Load(Some(jsonData)) == Aborted
  {
    var brackets := Repeat("]", n);
    assert Marker[0] == '"' && '"' !in brackets;
    SplitSecondPiece(pre, Marker, brackets, rest);
    SplitOfRepeat("]", n);
  }

  /** A quoted field with a value, as it may come before the marker. */
  const QuotedPrefix := "{\"x\":1,"

  /** The marker after `QuotedPrefix` is the first one. */
  lemma QuotedPrefixFirstMarker()
    ensures IndexOf(QuotedPrefix + Marker, Marker) == |QuotedPrefix|
  {
    var s := QuotedPrefix + Marker;
    forall j | 0 <= j < |QuotedPrefix| ensures !OccursAt(s, Marker, j) {
      assert s[j + 1] != Marker[1];
    }
    IndexFromFinds(s, Marker, 0, |QuotedPrefix|);
  }

  /** The file `{"x":1,"addresses":[`: a quoted field before the marker and
      nothing after it aborts the load. */
  lemma QuotedFieldBeforeMarkerAborts()
    ensures Load(Some("{\"x\":1,\"addresses\":[")) == Aborted
  {
    var jsonData := QuotedPrefix + Marker;
    assert jsonData == "{\"x\":1,\"addresses\":[";
    QuotedPrefixFirstMarker();
    StripWhitespaceOfClean(jsonData);
    assert jsonData == QuotedPrefix + Marker + Repeat(Marker, 0);
    OnlyMarkersAfterMarkerAborts(jsonData, QuotedPrefix, 0);
  }

  /** A colon-free name followed by nothing but colons splits at `:` into
      the name alone. */
  lemma ColonsOnlySplit(name: string, n: nat)
    requires ':' !in name && n > 0
    ensures |Split(name + Repeat(":", n), ":")| < 2
  {
    var field := name + Repeat(":", n);
    assert field == name + ":" + Repeat(":", n - 1);
    SegmentsAt(name, ":", Repeat(":", n - 1));
    SegmentsOfRepeat(":", n - 1);
    SplitDropsEmptyTail(field, ":", 1);
  }

  /** A field that is `"domain"` or `"ip"` followed by nothing but colons has
      no second piece after `split(":")`. */
  lemma ColonsOnlyFieldOutOfBounds(name: string, n: nat, rest: seq<string>, domain: Option<string>, ip: Option<string>)
    requires name == "\"domain\"" || name == "\"ip\""
    requires n > 0
    ensures ScanFields([name + Repeat(":", n)] + rest, domain, ip) == FieldOutOfBounds
  {
    var field := name + Repeat(":", n);
    ColonsOnlySplit(name, n);
    assert field[..|name|] == name && field[|name|] == ':';
    assert ([field] + rest)[0] == field;
    if name == "\"domain\"" {
      assert StartsWith(field, DomainPrefix);
    } else {
      assert field[1] != DomainPrefix[1];
      assert StartsWith(field, IpPrefix);
    }
  }

  /** When the first entry that yields no pair has a field whose
      `split(":")[1]` is out of bounds, the exception escapes the load. */
  lemma FieldOutOfBoundsAborts(jsonData: string, entries: seq<string>, k: nat)
    requires Parse(jsonData) == ParseEntries(entries)
    requires k < |entries| && ParseEntry(entries[k]).FieldOutOfBounds?
    requires forall j :: 0 <= j < k ==> ParseEntry(entries[j]).EntryOk?
    ensures Load(Some(jsonData)) == Aborted
  {
    ParseEntriesFirstFailure(entries, k);
  }
}
