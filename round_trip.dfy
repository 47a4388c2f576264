/**
  Reading back what `saveToFile` writes. The file loads as the same list in
  the same order whenever no domain or ip holds whitespace or one of the
  characters `" , : { } [ ]` that the reader cuts at; the empty list comes
  back empty through the caught `IllegalArgumentException` (an empty array
  leaves one empty entry, which has no fields).
 */
module RoundTrip {
  import opened Wrappers
  import opened JavaString
  import opened Model
  import opened JsonFormat
  import Cli

  predicate CleanChar(c: char) {
    !IsWhitespace(c) && c != '"' && c != ',' && c != ':' && c != '{' && c != '}' && c != '[' && c != ']'
  }

  /** A field value the reader gives back unchanged. */
  predicate Clean(s: string) {
    forall i :: 0 <= i < |s| ==> CleanChar(s[i])
  }

  predicate CleanPairs(ps: seq<DomainIpPair>) {
    forall k :: 0 <= k < |ps| ==> Clean(ps[k].domain) && Clean(ps[k].ip)
  }

  /** The `"domain":` field of an entry once whitespace is removed. */
  function DomainField(d: string): string {
    "\"domain\":\"" + d + "\""
  }

  /** The `"ip":` field of an entry once whitespace is removed. */
  function IpField(ip: string): string {
    "\"ip\":\"" + ip + "\""
  }

  /** An entry without whitespace and without its braces. */
  function Body(p: DomainIpPair): string {
    DomainField(p.domain) + "," + IpField(p.ip)
  }

  /** The bodies of `ps` joined by `},{`. */
  function Bodies(ps: seq<DomainIpPair>): string
    requires ps != []
  {
    if |ps| == 1 then Body(ps[0]) else Body(ps[0]) + EntrySeparator + Bodies(ps[1..])
  }

  /** The array part of the stripped text: `{` + bodies + `}`, or nothing. */
  function Compact(ps: seq<DomainIpPair>): string {
    if ps == [] then "" else "{" + Bodies(ps) + "}"
  }

  // ---------------------------------------------------------------------
  // Removing whitespace from the written text. The fixed texts are cut into
  // pieces that are all whitespace or free of it, and the pieces are handled
  // as parameters: the solver is never asked to evaluate a long literal.

  predicate Blank(s: string) {
    forall i :: 0 <= i < |s| ==> IsWhitespace(s[i])
  }

  predicate Solid(s: string) {
    forall i :: 0 <= i < |s| ==> !IsWhitespace(s[i])
  }

  lemma StripAppendClean(a: string, b: string)
    requires Solid(b)
    ensures StripWhitespace(a + b) == StripWhitespace(a) + b
  {
    StripWhitespaceAppend(a, b);
    StripWhitespaceOfClean(b);
  }

  lemma StripAppendBlank(a: string, b: string)
    requires Blank(b)
    ensures StripWhitespace(a + b) == StripWhitespace(a)
  {
    StripWhitespaceAppend(a, b);
    StripWhitespaceOfBlank(b);
  }

  /** A blank piece and then a whitespace-free piece: only the latter stays. */
  lemma StripBlankThenSolid(x: string, blank: string, solid: string)
    requires Blank(blank) && Solid(solid)
    ensures StripWhitespace(x + blank + solid) == StripWhitespace(x) + solid
  {
    StripAppendBlank(x, blank);
    StripAppendClean(x + blank, solid);
  }

  /** The written texts alternate blank and whitespace-free pieces; removing
      whitespace keeps exactly the latter. */
  lemma StripAlternating(b1: string, s1: string, b2: string, s2: string,
                         b3: string, s3: string, b4: string, s4: string)
    requires Blank(b1) && Blank(b2) && Blank(b3) && Blank(b4)
    requires Solid(s1) && Solid(s2) && Solid(s3) && Solid(s4)
    ensures StripWhitespace(b1 + s1 + b2 + s2 + b3 + s3 + b4 + s4) == s1 + s2 + s3 + s4
  {
    StripWhitespaceOfBlank(b1);
    StripAppendClean(b1, s1);
    assert "" + s1 == s1;
    var x := b1 + s1 + b2 + s2;
    StripBlankThenSolid(b1 + s1, b2, s2);
    StripBlankThenSolid(x, b3, s3);
    StripBlankThenSolid(x + b3 + s3, b4, s4);
  }

  // `HeaderPieces`, `StripHeader`, `StripFooter` and `StripSeparator` take
  // the constant text as a parameter pinned by `requires`, so that the
  // verifier reasons about the pieces given here rather than evaluating the
  // whole literal character by character.

  /** The header cut into alternating blank and solid pieces. */
  lemma HeaderPieces(h: string)
    requires h == Header
    ensures h == "" + "{" + "\n  " + "\"addresses\":" + " " + "[" + "\n" + ""
  {
  }

  /** The header's pieces without whitespace. */
  lemma StripHeaderPieces()
    ensures StripWhitespace("" + "{" + "\n  " + "\"addresses\":" + " " + "[" + "\n" + "") == "{" + Marker
  {
    StripAlternating("", "{", "\n  ", "\"addresses\":", " ", "[", "\n", "");
    assert "{" + "\"addresses\":" + "[" + "" == "{" + Marker;
  }

  /** The header without whitespace is `{"addresses":[`. */
  lemma StripHeader(h: string)
    requires h == Header
    ensures StripWhitespace(h) == "{" + Marker
  {
    HeaderPieces(h);
    StripHeaderPieces();
  }

  /** The footer without whitespace is `]}`. */
  lemma StripFooter(f: string)
    requires f == Footer
    ensures StripWhitespace(f) == "]}"
  {
    assert f == "\n  " + "]" + "\n" + "}" + "" + "" + "" + "";
    StripAlternating("\n  ", "]", "\n", "}", "", "", "", "");
  }

  lemma EntryTextPieces(p: DomainIpPair)
    ensures EntryText(p) == "    " + "{\"domain\":" + " " + ("\"" + p.domain + "\",")
      + " " + "\"ip\":" + " " + ("\"" + p.ip + "\"}")
  {
  }

  /** The stripped entry is the body in braces. */
  lemma BracedBody(p: DomainIpPair)
    ensures "{\"domain\":" + ("\"" + p.domain + "\",") + "\"ip\":" + ("\"" + p.ip + "\"}") == "{" + Body(p) + "}"
  {
  }

  /** One written entry without whitespace. */
  lemma StripEntryText(p: DomainIpPair)
    requires Clean(p.domain) && Clean(p.ip)
    ensures StripWhitespace(EntryText(p)) == "{" + Body(p) + "}"
  {
    EntryTextPieces(p);
    StripAlternating("    ", "{\"domain\":", " ", "\"" + p.domain + "\",",
      " ", "\"ip\":", " ", "\"" + p.ip + "\"}");
    BracedBody(p);
  }

  lemma Strip3(a: string, b: string, c: string)
    ensures StripWhitespace(a + b + c) == StripWhitespace(a) + StripWhitespace(b) + StripWhitespace(c)
  {
    StripWhitespaceAppend(a + b, c);
    StripWhitespaceAppend(a, b);
  }

  lemma StripSeparator(s: string)
    requires s == ",\n"
    ensures StripWhitespace(s) == ","
  {
    StripAppendBlank(",", "\n");
    assert s == "," + "\n";
  }

  /** Two braced bodies joined by a comma hold `},{` between the bodies. */
  lemma JoinBraced(x: string, y: string)
    ensures "{" + x + "}" + "," + ("{" + y + "}") == "{" + (x + EntrySeparator + y) + "}"
  {
  }

  /** The written entries without whitespace. */
  lemma {:induction false} StripEntriesText(ps: seq<DomainIpPair>)
    requires ps != [] && CleanPairs(ps)
    ensures StripWhitespace(EntriesText(ps)) == "{" + Bodies(ps) + "}"
    decreases |ps|
  {
    StripEntryText(ps[0]);
    if |ps| > 1 {
      StripEntriesText(ps[1..]);
      StripSeparator(",\n");
      Strip3(EntryText(ps[0]), ",\n", EntriesText(ps[1..]));
      JoinBraced(Body(ps[0]), Bodies(ps[1..]));
    }
  }

  /** The whole written text without whitespace. */
  lemma StripSerialize(ps: seq<DomainIpPair>)
    requires CleanPairs(ps)
    ensures StripWhitespace(Serialize(ps)) == "{" + Marker + Compact(ps) + "]}"
  {
    StripHeader(Header);
    StripFooter(Footer);
    Strip3(Header, EntriesText(ps), Footer);
    if ps != [] {
      StripEntriesText(ps);
    }
  }

  // ---------------------------------------------------------------------
  // Reading the stripped text

  lemma {:induction false} BodiesAlphabet(ps: seq<DomainIpPair>)
    requires ps != [] && CleanPairs(ps)
    ensures '[' !in Bodies(ps) && ']' !in Bodies(ps)
    decreases |ps|
  {
    assert Clean(ps[0].domain) && Clean(ps[0].ip);
    if |ps| > 1 {
      BodiesAlphabet(ps[1..]);
    }
  }

  /** A field `"name":"value"` splits at `:` into the name and the quoted value. */
  lemma FieldValue(name: string, value: string)
    requires ':' !in name && Clean(value)
    ensures var parts := Split(name + ":" + ("\"" + value + "\""), ":");
      |parts| == 2 && RemoveChar(parts[1], '"') == value
  {
    var quoted := "\"" + value + "\"";
    SegmentsAt(name, ":", quoted);
    assert ':' !in quoted;
    IndexOfMissingChar(quoted, ":", ':');
    RemoveCharAppend("\"" + value, "\"", '"');
    RemoveCharAppend("\"", value, '"');
    RemoveCharAbsent(value, '"');
  }

  /** A body splits at `,` into its two fields. */
  lemma SplitBody(p: DomainIpPair)
    requires Clean(p.domain) && Clean(p.ip)
    ensures Split(Body(p), ",") == [DomainField(p.domain), IpField(p.ip)]
  {
    var a, b := DomainField(p.domain), IpField(p.ip);
    assert ',' !in a && ',' !in b;
    SegmentsAt(a, ",", b);
    IndexOfMissingChar(b, ",", ',');
  }

  lemma DomainFieldShape(d: string)
    ensures DomainField(d) == "\"domain\"" + ":" + ("\"" + d + "\"")
    ensures StartsWith(DomainField(d), DomainPrefix)
  {
  }

  lemma IpFieldShape(ip: string)
    ensures IpField(ip) == "\"ip\"" + ":" + ("\"" + ip + "\"")
    ensures StartsWith(IpField(ip), IpPrefix) && !StartsWith(IpField(ip), DomainPrefix)
  {
    assert |IpField(ip)| >= |DomainPrefix| ==> IpField(ip)[1] != DomainPrefix[1];
  }

  /** Scanning a `"domain":` field records its value. */
  lemma ScanDomainField(d: string, rest: seq<string>, ip: Option<string>)
    requires Clean(d)
    ensures ScanFields([DomainField(d)] + rest, None, ip) == ScanFields(rest, Some(d), ip)
  {
    DomainFieldShape(d);
    FieldValue("\"domain\"", d);
    assert ([DomainField(d)] + rest)[1..] == rest;
  }

  /** Scanning an `"ip":` field records its value. */
  lemma ScanIpField(ip: string, rest: seq<string>, d: Option<string>)
    requires Clean(ip)
    ensures ScanFields([IpField(ip)] + rest, d, None) == ScanFields(rest, d, Some(ip))
  {
    IpFieldShape(ip);
    FieldValue("\"ip\"", ip);
    assert ([IpField(ip)] + rest)[1..] == rest;
  }

  /** The fields of one body give back its pair. */
  lemma BodyParses(p: DomainIpPair)
    requires Clean(p.domain) && Clean(p.ip)
    ensures ScanFields(Split(Body(p), ","), None, None) == EntryOk(p)
  {
    SplitBody(p);
    ScanDomainField(p.domain, [IpField(p.ip)], None);
    ScanIpField(p.ip, [], Some(p.domain));
    assert [DomainField(p.domain), IpField(p.ip)] == [DomainField(p.domain)] + [IpField(p.ip)];
    assert [IpField(p.ip)] + [] == [IpField(p.ip)];
  }

  lemma RemoveOpenBraces(pre: string, body: string, post: string)
    requires RemoveChar(pre, '{') == "" && '{' !in body && '{' !in post
    ensures RemoveChar(pre + body + post, '{') == body + post
  {
    RemoveCharAppend(pre + body, post, '{');
    RemoveCharAppend(pre, body, '{');
    RemoveCharAbsent(body, '{');
    RemoveCharAbsent(post, '{');
    assert "" + body == body;
  }

  lemma RemoveCloseBraces(body: string, post: string)
    requires '}' !in body && RemoveChar(post, '}') == ""
    ensures RemoveChar(body + post, '}') == body
  {
    RemoveCharAppend(body, post, '}');
    RemoveCharAbsent(body, '}');
    assert body + "" == body;
  }

  /** Removing the braces leaves the brace-free text between them. */
  lemma Unbrace(pre: string, body: string, post: string)
    requires RemoveChar(pre, '{') == ""
    requires '{' !in post && RemoveChar(post, '}') == ""
    requires '{' !in body && '}' !in body
    ensures RemoveChar(RemoveChar(pre + body + post, '{'), '}') == body
  {
    RemoveOpenBraces(pre, body, post);
    RemoveCloseBraces(body, post);
  }

  /** A body with stray braces around it still gives back its pair. */
  lemma EntryParses(pre: string, p: DomainIpPair, post: string)
    requires RemoveChar(pre, '{') == ""
    requires '{' !in post && RemoveChar(post, '}') == ""
    requires Clean(p.domain) && Clean(p.ip)
    ensures ParseEntry(pre + Body(p) + post) == EntryOk(p)
  {
    assert '{' !in Body(p) && '}' !in Body(p);
    Unbrace(pre, Body(p), post);
    BodyParses(p);
  }

  lemma NoCloseBrace(pre: string, p: DomainIpPair)
    requires pre == "" || pre == "{"
    requires Clean(p.domain) && Clean(p.ip)
    ensures '}' !in pre + Body(p)
  {
  }

  /** The last body, closed by `}`, is one segment. */
  lemma LastSegment(pre: string, p: DomainIpPair)
    requires pre == "" || pre == "{"
    requires Clean(p.domain) && Clean(p.ip)
    ensures Segments(pre + Body(p) + "}", EntrySeparator) == [pre + Body(p) + "}"]
  {
    NoCloseBrace(pre, p);
    IndexOfShortTail(pre + Body(p), "}", EntrySeparator);
  }

  /** A body followed by `},{` is cut off as one segment. */
  lemma FirstSegment(pre: string, p: DomainIpPair, rest: string)
    requires pre == "" || pre == "{"
    requires Clean(p.domain) && Clean(p.ip)
    ensures Segments(pre + Body(p) + EntrySeparator + rest, EntrySeparator)
      == [pre + Body(p)] + Segments(rest, EntrySeparator)
  {
    NoCloseBrace(pre, p);
    SegmentsAt(pre + Body(p), EntrySeparator, rest);
  }

  lemma Regroup(pre: string, x: string, y: string)
    ensures pre + (x + EntrySeparator + y) + "}" == pre + x + EntrySeparator + (y + "}")
  {
  }

  lemma BodiesCons(pre: string, ps: seq<DomainIpPair>)
    requires |ps| > 1
    ensures pre + Bodies(ps) + "}" == pre + Body(ps[0]) + EntrySeparator + (Bodies(ps[1..]) + "}")
  {
    Regroup(pre, Body(ps[0]), Bodies(ps[1..]));
  }

  lemma ParseEntriesCons(entry: string, tail: seq<string>, p: DomainIpPair, ps: seq<DomainIpPair>)
    requires ParseEntry(entry) == EntryOk(p) && ParseEntries(tail) == Parsed(ps)
    ensures ParseEntries([entry] + tail) == Parsed([p] + ps)
  {
    assert ([entry] + tail)[0] == entry && ([entry] + tail)[1..] == tail;
  }

  /** The entries cut from `pre` + bodies + `}`: every body but the last
      one alone, the last one with the closing brace, the first one after
      `pre`. None of them is empty. */
  function Entries(pre: string, ps: seq<DomainIpPair>): (r: seq<string>)
    requires ps != []
    ensures |r| == |ps| && forall k :: 0 <= k < |r| ==> r[k] != ""
    decreases |ps|
  {
    if |ps| == 1 then [pre + Body(ps[0]) + "}"]
    else [pre + Body(ps[0])] + Entries("", ps[1..])
  }

  /** `split("\\},\\{")` cuts `pre` + bodies + `}` into `Entries`. */
  lemma {:induction false} SegmentsOfBodies(pre: string, ps: seq<DomainIpPair>)
    requires pre == "" || pre == "{"
    requires ps != [] && CleanPairs(ps)
    ensures Segments(pre + Bodies(ps) + "}", EntrySeparator) == Entries(pre, ps)
    decreases |ps|
  {
    var p := ps[0];
    assert Clean(p.domain) && Clean(p.ip);
    if |ps| == 1 {
      LastSegment(pre, p);
    } else {
      SegmentsOfBodies("", ps[1..]);
      assert "" + Bodies(ps[1..]) + "}" == Bodies(ps[1..]) + "}";
      BodiesCons(pre, ps);
      FirstSegment(pre, p, Bodies(ps[1..]) + "}");
    }
  }

  /** Each entry gives back its pair, so the entries give back the list. */
  lemma {:induction false} EntriesOfBodiesParse(pre: string, ps: seq<DomainIpPair>)
    requires pre == "" || pre == "{"
    requires ps != [] && CleanPairs(ps)
    ensures ParseEntries(Entries(pre, ps)) == Parsed(ps)
    decreases |ps|
  {
    var p := ps[0];
    assert Clean(p.domain) && Clean(p.ip);
    if |ps| == 1 {
      EntryParses(pre, p, "}");
      ParseEntriesCons(pre + Body(p) + "}", [], p, []);
      assert [pre + Body(p) + "}"] + [] == [pre + Body(p) + "}"] == Entries(pre, ps);
      assert ps == [p];
    } else {
      var rest := Entries("", ps[1..]);
      EntriesOfBodiesParse("", ps[1..]);
      EntryParses(pre, p, "");
      assert pre + Body(p) + "" == pre + Body(p);
      ParseEntriesCons(pre + Body(p), rest, p, ps[1..]);
      assert Entries(pre, ps) == [pre + Body(p)] + rest;
      assert [p] + ps[1..] == ps;
    }
  }

  /** The entries `split("\\},\\{")` cuts from `{` + bodies + `}` (or from
      a suffix of it starting at a body) parse back to the pairs, and the last
      one is not empty. */
  lemma EntriesParse(pre: string, ps: seq<DomainIpPair>)
    requires pre == "" || pre == "{"
    requires ps != [] && CleanPairs(ps)
    ensures var entries := Segments(pre + Bodies(ps) + "}", EntrySeparator);
      ParseEntries(entries) == Parsed(ps) && entries[|entries| - 1] != ""
  {
    SegmentsOfBodies(pre, ps);
    EntriesOfBodiesParse(pre, ps);
  }

  /** `"addresses":[` occurs once, right after the opening brace. */
  lemma SplitAtMarker(text: string, c: string)
    requires '[' !in c && text == "{" + Marker + (c + "]}")
    ensures Contains(text, Marker)
    ensures Split(text, Marker) == ["{", c + "]}"]
  {
    SegmentsAt("{", Marker, c + "]}");
    assert Marker[12] == '[';
    IndexOfMissingChar(c + "]}", Marker, '[');
  }

  /** The array ends at the first `]`. */
  lemma SplitAtClose(c: string)
    requires ']' !in c
    ensures Split(c + "]}", "]") == [c, "}"]
  {
    SegmentsAt(c, "]", "}");
    assert c + "]" + "}" == c + "]}";
  }

  /** An empty array is one empty entry, which has no fields. */
  lemma EmptyArrayFails()
    ensures ParseEntries(Split("", EntrySeparator)) == FormatError
  {
    assert Split("", EntrySeparator) == [""];
    assert Split("", ",") == [""];
  }

  /** A text that is `{"addresses":[` + c + `]}` once whitespace is gone is
      read as the entries of `c`. */
  lemma ParseStripped(jsonData: string, c: string)
    requires '[' !in c && ']' !in c
    requires StripWhitespace(jsonData) == "{" + Marker + (c + "]}")
    ensures Parse(jsonData) == ParseEntries(Split(c, EntrySeparator))
  {
    SplitAtMarker("{" + Marker + (c + "]}"), c);
    SplitAtClose(c);
  }

  /** A text that strips to the marker around the compact array parses back
      as the list; an empty array is a format error. */
  lemma ParseCompact(jsonData: string, ps: seq<DomainIpPair>)
    requires CleanPairs(ps)
    requires StripWhitespace(jsonData) == "{" + Marker + Compact(ps) + "]}"
    ensures Parse(jsonData) == if ps == [] then FormatError else Parsed(ps)
  {
    var c := Compact(ps);
    if ps != [] {
      BodiesAlphabet(ps);
    }
    assert "{" + Marker + c + "]}" == "{" + Marker + (c + "]}");
    ParseStripped(jsonData, c);
    if ps == [] {
      EmptyArrayFails();
    } else {
      EntriesParse("{", ps);
      SplitKeepsSegments(c, EntrySeparator);
    }
  }

  /** What `saveToFile` writes parses back as the same list; an empty list is
      written as an empty array, which is a format error. */
  lemma ParseSerialized(ps: seq<DomainIpPair>)
    requires CleanPairs(ps)
    ensures Parse(Serialize(ps)) == if ps == [] then FormatError else Parsed(ps)
  {
    StripSerialize(ps);
    ParseCompact(Serialize(ps), ps);
  }

  /** What `saveToFile` writes loads back as the same list. */
  lemma SerializeRoundTrip(ps: seq<DomainIpPair>)
    requires CleanPairs(ps)
    ensures Load(Some(Serialize(ps))) == Loaded(ps)
  {
    ParseSerialized(ps);
  }

  /** Addresses accepted by `isValidIPv4` are clean: digits and dots only. */
  lemma ValidIPv4IsClean(ip: string)
    requires Cli.IsValidIPv4(Some(ip))
    ensures Clean(ip)
  {
    Cli.DottedOctetsAlphabet(ip, 3);
    assert forall i :: 0 <= i < |ip| ==> ip[i] in ip;
  }
}
