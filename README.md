# Domain → IP record store, modelled in Dafny

This project models the core of a small console tool that keeps a list of
domain/IPv4 pairs in a JSON-like file and mirrors it to an SFTP server. The
modelled core has three parts:

- **`FileService`** (module `Json`). A class that holds the pairs (`data`) and the contents of its backing file (`file`).
  - Loading parses the file with the program's hand-rolled scheme: remove all whitespace, find `"addresses":[`, cut at `},{`, then at `,`, then read the `"domain":` and `"ip":` fields. This is `JsonFormat.Parse`, and `FileService.ParseJsonData` runs the same loops.
  - Saving writes a fixed pretty-printed layout (`JsonFormat.Serialize`, produced by the loop of `FileService.SaveToFile`).
  - Lookups answer exact matches. `getDomainIpPairs` lists the pairs sorted by domain (`DomainOrder`).
  - `addDomainIpPair` validates the ip, refuses duplicates (domain ignoring case, ip exactly), appends and rewrites the file.
  - `removeDomainIpPair` removes the first pair whose domain or ip is the key and rewrites the file.
- **`InputHandler`** (module `Cli`).
  - `isValidIPv4` is a predicate that follows the regular expression alternative by alternative. It is proved equal to a reference definition: four dot-separated decimal octets of at most 255.
  - `getNonEmptyInput` and `getValidPort` are loops over a sequence of input lines.
- **`DomainIpPair`** (module `Model`): an immutable datatype. Its destructors `domain` and `ip` are the Java getters, so each getter returns exactly what the constructor was given. Its `toString` is also modelled.

Supporting modules:
- `JavaString` gives the `java.lang.String` operations the parser uses, with Java's semantics for literal patterns. `split` drops trailing empty strings and returns `[s]` when the separator does not occur.
- `RoundTrip` proves that reading back what `saveToFile` wrote gives the same list.
- `Scenarios` restates the unit tests' two-pair file and their expectations.

How loading ends:
- A parse ends in one of three ways (`ParseResult`):
  - with the pairs;
  - with an `IllegalArgumentException` (`FormatError`);
  - with an `ArrayIndexOutOfBoundsException` (`IndexOutOfBounds`).
- `loadDataFromFile` catches only the first exception, so `FormatError` leaves an empty store. `IndexOutOfBounds` escapes, and then the constructor produces no object (`FileService.Open` returns `null`).
- The parse runs out of bounds (as computed by `JsonFormat.Parse`) when one of these holds:
  - After whitespace removal, the text after the first `"addresses":[` is empty or holds only further copies of `"addresses":[`, whatever comes before that first one. Then `split` leaves no second piece (`JsonFormat.OnlyMarkersAfterMarkerAborts`; `JsonFormat.QuotedFieldBeforeMarkerAborts` shows it for `{"x":1,"addresses":[`).
  - The piece after the first marker, up to the next marker or the end, is one or more `]` and nothing else. Then `split("\\]")` returns an empty array (`JsonFormat.OnlyClosingBracketsAborts`).
  - Some entry has a field that starts with `"domain":` or `"ip":` and holds nothing but colons after the name, and every earlier entry yields a pair. Then `split(":")[1]` does not exist (`JsonFormat.ColonsOnlyFieldOutOfBounds`, `JsonFormat.FieldOutOfBoundsAborts`).
- An unreadable file is `None` and loads as an empty store.

Three behaviours of the code worth knowing:
- An entry missing a field makes the parse throw `IllegalArgumentException`. `loadDataFromFile` catches it (src/main/java/json/FileService.java:34-36), so the store loads empty and the load does not fail.
- `getValidPort` accepts `0 < n < 65535` (src/main/java/cli/InputHandler.java:35). So 65535 is refused, although the message it prints asks for a value "from 1 to 65535" (`Cli.PortUpperBound`).
- `addDomainIpPair` returns `false` for both kinds of duplicate, a domain equal ignoring case or an equal ip (src/main/java/json/FileService.java:109-118).

The uniqueness invariant (no two domains equal ignoring case, no two ips equal) is kept by add and remove (`Json.AddPreservesUnique`, `Json.RemovePreservesUnique`). Loading does not establish it, because a file may hold duplicates.

## Model

| member | source | states |
|---|---|---|
| Model.ToString | src/main/java/model/DomainIpPair.java:15-18 | the text is `Domain: `, then the domain, then `, IP: `, then the ip: each slot and the length are fixed |
| Model.ToStringInjective | src/main/java/model/DomainIpPair.java:15-18 | for domains without a comma, equal texts come from equal pairs |
| Model.ToStringExample | src/test/java/DomainIpPairTest.java:18-22 | `test.com`/`10.0.0.1` prints as `Domain: test.com, IP: 10.0.0.1` |
| JavaString.StripWhitespace | src/main/java/json/FileService.java:42 | no whitespace character remains, no character is added, the text does not grow |
| JavaString.RemoveChar | src/main/java/json/FileService.java:55 | the character no longer occurs, nothing else is added |
| JavaString.IndexFrom | src/main/java/json/FileService.java:44 | the first occurrence at or after the start, or the length when there is none |
| JavaString.Segments | src/main/java/json/FileService.java:49-52 | the pieces between the leftmost occurrences of the separator, empty ones included; at least one |
| JavaString.Join | src/main/java/json/FileService.java:49-52 | the pieces put back together with the separator between them |
| JavaString.SegmentsJoin | src/main/java/json/FileService.java:49-52 | joining the pieces with the separator gives the text back, so cutting loses nothing |
| JavaString.Split | src/main/java/json/FileService.java:49-64 | `split` with a literal pattern: `[s]` when the separator does not occur, else the pieces without the trailing empty ones (see `DropTrailingEmpty`, `SplitKeepsSegments`, `SplitOfRepeat`) |
| JavaString.SplitKeepsSegments | src/main/java/json/FileService.java:52 | when the last piece is not empty, `split` returns every piece |
| JavaString.SegmentsOfRepeat | src/main/java/json/FileService.java:49 | a text made only of copies of the separator cuts into empty pieces, one more than the copies |
| JavaString.SplitDropsEmptyTail | src/main/java/json/FileService.java:49 | when the separator occurs and every piece from the k-th on is empty, `split` returns at most k pieces |
| JavaString.SplitOfRepeat | src/main/java/json/FileService.java:49 | one or more copies of the separator split into an empty array |
| JavaString.SplitKeepsNonEmptySegment | src/main/java/json/FileService.java:49 | when the separator occurs, every non-empty piece is returned by `split` at its own index |
| JavaString.FirstSegmentBefore | src/main/java/json/FileService.java:49 | a piece without the separator's first character, followed by nothing or by the separator, is the first piece |
| JavaString.SplitSecondPiece | src/main/java/json/FileService.java:49 | the non-empty piece between the first separator and the next one (or the end) is `split(sep)[1]` |
| JavaString.EqualsIgnoreCase | src/main/java/json/FileService.java:110 | `equalsIgnoreCase`: equal lengths and equal characters once ASCII letters are upper-cased |
| JavaString.EqualsIgnoreCaseEquivalence | src/main/java/json/FileService.java:110 | ignoring case is reflexive, symmetric and transitive |
| JavaString.EqualsIgnoreCaseExample | src/main/java/json/FileService.java:110 | `Example.COM` equals `example.com` ignoring case; `example.com` and `example.org` differ |
| JavaString.DropTrailingEmpty | src/main/java/json/FileService.java:52 | `split` keeps a prefix of the segments, ending in a non-empty one, and drops only empty strings |
| JavaString.SegmentsAtFirst | src/main/java/json/FileService.java:49 | when the separator after a prefix is its first occurrence there, the text is cut after that prefix, whatever follows |
| JavaString.SegmentsAt | src/main/java/json/FileService.java:52 | the first separator after a piece that cannot start it is where the text is cut |
| Cli.OctetPattern | src/main/java/cli/InputHandler.java:8-9 | one octet of the pattern, alternative by alternative: `25[0-5]`, `2[0-4][0-9]`, `[01]?[0-9][0-9]?` (characterised by `OctetPatternIsOctet`) |
| Cli.MatchesDottedOctets | src/main/java/cli/InputHandler.java:8-9 | `(octet\.){k}octet` over the whole string, with the `{3}` count as a parameter |
| Cli.IsValidIPv4 | src/main/java/cli/InputHandler.java:46-48 | not null and a whole-string match of the pattern (characterised by `IsValidIPv4IsDottedQuad`) |
| Cli.OctetPatternIsOctet | src/main/java/cli/InputHandler.java:8-9 | an octet alternative of the pattern matches exactly 1 to 3 ASCII digits with value at most 255 (leading zeros allowed) |
| Cli.IsValidIPv4IsDottedQuad | src/main/java/cli/InputHandler.java:46-48 | `isValidIPv4` holds exactly for a non-null string made of four octets separated by dots |
| Cli.DottedOctetsSplit | src/main/java/cli/InputHandler.java:8-9 | a match of `(octet\.){k}octet` splits at its dots into k + 1 octets |
| Cli.SplitDottedOctets | src/main/java/cli/InputHandler.java:8-9 | k + 1 octets joined by dots match `(octet\.){k}octet` |
| Cli.DottedOctetsDotCount | src/main/java/cli/InputHandler.java:8-9 | a match holds exactly k dots |
| Cli.DottedOctetsAlphabet | src/main/java/cli/InputHandler.java:8-9 | a match holds only digits and dots |
| Cli.IsValidIPv4OfOctets | src/main/java/cli/InputHandler.java:46-48 | four octet matches joined by dots are accepted |
| Cli.RejectsDotCount | src/main/java/cli/InputHandler.java:46-48 | a string without exactly three dots is rejected |
| Cli.RejectsForeignChar | src/main/java/cli/InputHandler.java:46-48 | a string with a character other than a digit or a dot is rejected |
| Cli.RejectsFirstOctet | src/main/java/cli/InputHandler.java:46-48 | a string whose first dot-free piece is not an octet is rejected |
| Cli.AcceptsZeroAddress | src/test/java/InputHandlerTest.java:11 | `0.0.0.0` is accepted |
| Cli.AcceptsBroadcastAddress | src/test/java/InputHandlerTest.java:12 | `255.255.255.255` is accepted |
| Cli.AcceptsPrivateAddress | src/test/java/InputHandlerTest.java:13 | `192.168.1.1` is accepted |
| Cli.AcceptsNetworkAddress | src/test/java/InputHandlerTest.java:14 | `10.0.0.0` is accepted |
| Cli.AcceptsAddressWithThreeDigitOctet | src/test/java/InputHandlerTest.java:15 | `172.16.254.1` is accepted |
| Cli.RejectsOctetAbove255 | src/test/java/InputHandlerTest.java:20 | `256.1.2.3` is rejected |
| Cli.RejectsWrongOctetCount | src/test/java/InputHandlerTest.java:21-24 | `1.1.1`, `192.168.1`, `192.168.1.1.1` and the empty string are rejected |
| Cli.RejectsLettersAndNull | src/test/java/InputHandlerTest.java:25-26 | null and `abc.def.ghi.jkl` are rejected |
| Cli.ParseInt | src/main/java/cli/InputHandler.java:33-34 | a value exactly when the text is an optional `-` or `+` and one or more ASCII digits whose signed value fits a 32-bit `int`, and then it is that value; otherwise `NumberFormatException` (`None`) |
| Cli.Digits | src/main/java/cli/InputHandler.java:34 | the decimal text of a number is one or more ASCII digits |
| Cli.DecimalFromSnoc | src/main/java/cli/InputHandler.java:34 | one more digit on the right multiplies the value read so far by ten and adds the digit |
| Cli.DigitsValue | src/main/java/cli/InputHandler.java:34 | the decimal text of `n` is read back as `n` |
| Cli.ParseIntText | src/main/java/cli/InputHandler.java:34 | `parseInt` of the decimal text of any 32-bit `n`, sign included, gives `n` back |
| Cli.ParseIntPlus | src/main/java/cli/InputHandler.java:34 | a leading `+` before the digits of `n` gives `n` |
| Cli.IsValidPort | src/main/java/cli/InputHandler.java:35 | the accepted range `0 < n < 65535` (bounds shown by `PortUpperBound`, `PortLowerBound`) |
| Cli.NextNonEmpty | src/main/java/cli/InputHandler.java:18-27 | the first non-empty line at or after the cursor, every line before it empty |
| Cli.NextPortLine | src/main/java/cli/InputHandler.java:29-43 | the first line holding an integer in range, every line before it refused |
| Cli.InputHandler.constructor | src/main/java/cli/InputHandler.java:14-16 | the handler reads the given lines from the start |
| Cli.InputHandler.GetNonEmptyInput | src/main/java/cli/InputHandler.java:18-27 | returns the first non-empty line and consumes every line up to and including it; `None` when input ends |
| Cli.InputHandler.GetValidPort | src/main/java/cli/InputHandler.java:29-43 | returns the first integer line with 0 < n < 65535, skipping the others; consumes up to it |
| Cli.PortUpperBound | src/main/java/cli/InputHandler.java:34-38 | 65535 parses but is refused; 65534 is accepted |
| Cli.PortLowerBound | src/main/java/cli/InputHandler.java:35 | 1 is accepted; 0 and -22 are refused |
| Cli.PortLinesExample | src/main/java/cli/InputHandler.java:29-43 | over `""`, `abc`, `0`, `65535`, `22` the port read is the fifth line |
| Cli.NonEmptyInputExample | src/test/java/InputHandlerTest.java:40-47 | after an empty line, `valid input` is returned |
| JsonFormat.ScanFields | src/main/java/json/FileService.java:59-72 | fields scanned in order, a later `"domain":` or `"ip":` field overriding an earlier one; a missing field or a missing `split(":")[1]` ends the entry (see `NoDomainFieldFails`, `NoIpFieldFails`, `ColonsOnlyFieldOutOfBounds`) |
| JsonFormat.ParseEntry | src/main/java/json/FileService.java:55-72 | one entry with its braces removed, cut at `,`, its fields scanned |
| JsonFormat.ParseEntries | src/main/java/json/FileService.java:54-73 | the entries read in order; the first failing one decides the exception (see `ParseEntriesAllOk`, `ParseEntriesFirstFailure`) |
| JsonFormat.Parse | src/main/java/json/FileService.java:40-75 | `parseJsonData`: whitespace removed, the marker searched, the array cut out and its entries read; equal to the loops of `Json.FileService.ParseJsonData`; for pairs free of the format's special characters it undoes `Serialize` on a non-empty list (`RoundTrip.ParseSerialized`) |
| JsonFormat.Load | src/main/java/json/FileService.java:26-38 | the load aborts exactly when the parse runs out of bounds; parsed pairs are loaded as they are; every other load is empty |
| JsonFormat.EntryText | src/main/java/json/FileService.java:130-131 | the `String.format` line of one pair |
| JsonFormat.EntriesText | src/main/java/json/FileService.java:128-133 | the entry lines in list order, `,\n` between them (see `EntriesTextSnoc`) |
| JsonFormat.Serialize | src/main/java/json/FileService.java:125-135 | header, entry lines, footer; for pairs free of the format's special characters, loading it gives the list back (`RoundTrip.SerializeRoundTrip`) |
| JsonFormat.OnlyMarkersAfterMarkerAborts | src/main/java/json/FileService.java:49 | for any text before the first `"addresses":[`, when only further copies of it follow, the parse runs out of bounds and the load aborts |
| JsonFormat.OnlyClosingBracketsAborts | src/main/java/json/FileService.java:49 | for any text before the first marker, when what follows it up to the next marker or the end is one or more `]`, the parse runs out of bounds and the load aborts |
| JsonFormat.QuotedFieldBeforeMarkerAborts | src/main/java/json/FileService.java:26-49 | the file `{"x":1,"addresses":[` aborts the load |
| JsonFormat.ColonsOnlySplit | src/main/java/json/FileService.java:62 | a colon-free name followed only by colons splits at `:` into fewer than two pieces |
| JsonFormat.ColonsOnlyFieldOutOfBounds | src/main/java/json/FileService.java:61-65 | a `"domain"` or `"ip"` field followed only by colons ends its entry out of bounds |
| JsonFormat.FieldOutOfBoundsAborts | src/main/java/json/FileService.java:26-38 | when the first entry that yields no pair is out of bounds, the load aborts |
| JsonFormat.ParseEntriesAllOk | src/main/java/json/FileService.java:54-74 | the entries parse exactly when every entry yields a pair, and then the list is those pairs in entry order |
| JsonFormat.ParseEntriesFirstFailure | src/main/java/json/FileService.java:54-73 | the first entry that yields no pair decides the exception: missing field or index out of bounds |
| JsonFormat.NoDomainFieldFails | src/main/java/json/FileService.java:59-72 | fields without a `"domain":` field never yield a pair |
| JsonFormat.NoIpFieldFails | src/main/java/json/FileService.java:59-72 | fields without an `"ip":` field never yield a pair |
| JsonFormat.MissingFieldLoadsEmpty | src/main/java/json/FileService.java:68-72 | if every field can be read but some entry lacks a field, the parse is a format error and the store loads empty |
| JsonFormat.MissingMarkerLoadsEmpty | src/main/java/json/FileService.java:44-46 | without `"addresses":[` after whitespace removal the store loads empty |
| JsonFormat.MissingCharLoadsEmpty | src/main/java/json/FileService.java:44-46 | a text lacking a character of the marker loads empty |
| JsonFormat.EmptyFileLoadsEmpty | src/test/java/FileServiceTest.java:106-114 | the empty file loads an empty store |
| JsonFormat.InvalidJsonLoadsEmpty | src/test/java/FileServiceTest.java:116-126 | `{ invalid json content }` loads an empty store |
| JsonFormat.OtherArrayLoadsEmpty | src/test/java/FileServiceTest.java:128-138 | `{ "other": [] }` loads an empty store |
| JsonFormat.EntriesTextSnoc | src/main/java/json/FileService.java:128-133 | appending a pair appends `,\n` (unless first) and its entry line |
| RoundTrip.StripEntriesText | src/main/java/json/FileService.java:128-133 | the entry lines without whitespace are the braced bodies joined by `},{` |
| RoundTrip.StripSerialize | src/main/java/json/FileService.java:125-135 | the written file without whitespace is `{"addresses":[` + entries + `]}` |
| RoundTrip.SegmentsOfBodies | src/main/java/json/FileService.java:52 | `split("\\},\\{")` cuts the written array into one non-empty entry per pair |
| RoundTrip.EntriesOfBodiesParse | src/main/java/json/FileService.java:54-73 | each cut entry gives back its pair, so the entries give back the list in order |
| RoundTrip.EntriesParse | src/main/java/json/FileService.java:52-73 | cut at `},{`, the written entries parse back to the pairs in order |
| RoundTrip.ParseCompact | src/main/java/json/FileService.java:40-75 | any text that strips to the marker, the compact array and `]}` parses as the list, and as a format error when the list is empty |
| RoundTrip.ParseSerialized | src/main/java/json/FileService.java:40-75 | parsing the written text gives the list back, and a format error for the empty list |
| RoundTrip.SerializeRoundTrip | src/main/java/json/FileService.java:26-38 | loading the written text gives exactly the saved list, in order, the empty list included |
| RoundTrip.ValidIPv4IsClean | src/main/java/cli/InputHandler.java:8-9 | an accepted ip holds no character the reader cuts at |
| DomainOrder.CompareTo | src/main/java/json/FileService.java:79 | `String.compareTo`: the difference of the first differing characters, else of the lengths (see the three lemmas below) |
| DomainOrder.CompareToAntisymmetric | src/main/java/json/FileService.java:79 | `compareTo` changes sign when its arguments swap |
| DomainOrder.CompareToZero | src/main/java/json/FileService.java:79 | `compareTo` is 0 exactly for equal domains |
| DomainOrder.CompareToTransitive | src/main/java/json/FileService.java:79 | `compareTo` order is transitive |
| DomainOrder.Insert | src/main/java/json/FileService.java:78-80 | insertion keeps the elements (multiset) |
| DomainOrder.SortByDomain | src/main/java/json/FileService.java:77-81 | the listing is a permutation of the store |
| DomainOrder.InsertSorted | src/main/java/json/FileService.java:78-80 | inserting into a sorted listing keeps it sorted |
| DomainOrder.SortByDomainSorted | src/main/java/json/FileService.java:77-81 | the listing is ascending by domain |
| DomainOrder.SortByDomainStable | src/main/java/json/FileService.java:77-81 | pairs with equal domains keep their store order |
| DomainOrder.SortExample | src/main/java/json/FileService.java:77-81 | `test.com` then `example.com` is listed `example.com` first |
| Json.FirstWithDomain | src/main/java/json/FileService.java:84-91 | the first index whose domain equals the key exactly, or the length |
| Json.FirstWithIp | src/main/java/json/FileService.java:93-100 | the first index whose ip equals the key exactly, or the length |
| Json.FirstMatch | src/main/java/json/FileService.java:145-156 | the first index whose domain or ip equals the key, or the length |
| Json.IpByDomain | src/main/java/json/FileService.java:84-91 | an answer exactly when some pair has exactly this domain, and then the answer is the ip of a stored pair with that domain |
| Json.DomainByIp | src/main/java/json/FileService.java:93-100 | an answer exactly when some pair has exactly this ip, and then the answer is the domain of a stored pair with that ip |
| Json.Conflicts | src/main/java/json/FileService.java:109-118 | some stored domain equals the new one ignoring case, or some stored ip equals the new one |
| Json.Unique | src/main/java/json/FileService.java:108-121 | no two stored domains equal ignoring case and no two stored ips equal |
| Json.RemoveAt | src/main/java/json/FileService.java:150 | one pair fewer; the pairs before the removed one keep their index and the later ones move up by one; the removed pair is the only element lost |
| Json.FileService.Open | src/main/java/json/FileService.java:20-24 | an object exists exactly when the load does not throw an uncaught exception, and then holds the loaded pairs |
| Json.FileService.LoadDataFromFile | src/main/java/json/FileService.java:26-38 | the store becomes the parsed pairs, empty on an unreadable file or format error; unchanged and reported on an index error |
| Json.FileService.ParseJsonData | src/main/java/json/FileService.java:40-75 | the two parse loops compute exactly the parse outcome, exceptions included |
| Json.FileService.GetDomainIpPairs | src/main/java/json/FileService.java:77-81 | a permutation of the store, ascending by domain, stable, store not modified |
| Json.FileService.GetIpByDomain | src/main/java/json/FileService.java:84-91 | the ip of the first pair with exactly this domain, `None` when there is none |
| Json.FileService.GetDomainById | src/main/java/json/FileService.java:93-100 | the domain of the first pair with exactly this ip, `None` when there is none |
| Json.FileService.AddDomainIpPair | src/main/java/json/FileService.java:103-124 | invalid ip throws with no change; a conflicting domain (ignoring case) or ip returns false with no change; otherwise exactly one pair is appended, the file rewritten, true returned; uniqueness is kept |
| Json.FileService.SaveToFile | src/main/java/json/FileService.java:125-142 | the file becomes header, entry lines joined by `,\n` in list order, footer |
| Json.FileService.RemoveDomainIpPair | src/main/java/json/FileService.java:145-156 | true exactly when some pair matches; then exactly the first match is removed, the rest kept in order, the file rewritten; otherwise nothing changes; uniqueness is kept |
| Json.SaveStep | src/main/java/json/FileService.java:128-133 | one loop iteration extends the text by one entry and the separator rule |
| Json.IpByDomainIffStored | src/main/java/json/FileService.java:84-91 | without duplicates, the domain lookup answers `ip` exactly when the pair is stored |
| Json.DomainByIpIffStored | src/main/java/json/FileService.java:93-100 | without duplicates, the ip lookup answers `domain` exactly when the pair is stored |
| Json.AddPreservesUnique | src/main/java/json/FileService.java:108-121 | appending a non-conflicting pair keeps domains distinct ignoring case and ips distinct |
| Json.RemovePreservesUnique | src/main/java/json/FileService.java:145-152 | removing a pair keeps domains and ips distinct |
| Json.AddThenLookup | src/main/java/json/FileService.java:103-124 | after an accepted add both lookups find the new pair |
| Json.AddKeepsLookups | src/main/java/json/FileService.java:121 | an add does not change an answer a lookup already gave |
| Json.RemoveThenLookup | src/main/java/json/FileService.java:145-156 | without duplicates, the removed domain (or ip) is no longer found |
| Json.AddedPairReloads | src/main/java/json/FileService.java:121-123 | after an accepted add with a clean domain, the rewritten file reloads as the new list |
| Json.RemainingPairsReload | src/main/java/json/FileService.java:150-151 | after a removal, the rewritten file reloads as the remaining list |
| Scenarios.TestFileIsSerialized | src/test/java/FileServiceTest.java:19-23 | the tests' file is exactly what `saveToFile` writes for its two pairs |
| Scenarios.TestFileLoads | src/test/java/FileServiceTest.java:15-26 | the tests' file loads as its two pairs in file order, without duplicates |
| Scenarios.TestListing | src/test/java/FileServiceTest.java:29-35 | the listing is example.com, test.com |
| Scenarios.TestLookups | src/test/java/FileServiceTest.java:37-53 | stored domain and ip are found; unknown ones give null |
| Scenarios.TestAddAccepted | src/test/java/FileServiceTest.java:55-62 | `new.com`/`172.16.0.1` is accepted and then found |
| Scenarios.TestAddInvalid | src/test/java/FileServiceTest.java:64-67 | `256.256.256.256` is not IPv4, so adding it throws |
| Scenarios.TestAddRefused | src/test/java/FileServiceTest.java:69-79 | a stored domain or a stored ip is refused |
| Scenarios.TestRemoveRules | src/test/java/FileServiceTest.java:81-103 | removal by domain and by ip hits the right pair, which is then not found; an unknown key matches nothing |

## Left out

- The regular-expression engine: `ip.matches(IPV4_PATTERN)` is modelled by the predicate `Cli.MatchesDottedOctets`, which follows the pattern's alternatives and its `{3}` repetition.
- `String.split` is modelled only for literal separators, which are the only patterns the parser uses.
- JavaString.EqualsIgnoreCase: folds only ASCII letters. Java also folds other Unicode letters, so two non-ASCII domains differing only in case are not treated as a conflict here.
- DomainOrder.CompareTo: compares characters as Unicode scalar values. Java compares UTF-16 code units, which orders characters outside the Basic Multilingual Plane differently.
- Cli.ParseInt: accepts ASCII digits only. `Integer.parseInt` also accepts other Unicode decimal digits.
- Json.FileService.SaveToFile: the write always succeeds. The `IOException` that becomes a `RuntimeException` after `data` has already changed is not modelled. The file is text: UTF-8 encoding and real file-system access are left out, and an unreadable file is `None`.
- Json.FileService.Open: the `inputHandler` field is not modelled, because `isValidIPv4` is static and uses no state.
- Null arguments: domains, ips and keys are non-null strings. The `null` answers of the lookups are `None`.
- There is no JSON escaping. A domain holding whitespace or one of `" , : { } [ ]` is written as is and does not read back the same, so the round-trip lemmas require clean values. `addDomainIpPair` validates only the ip, so `Json.AddedPairReloads` needs a clean domain.
- Console output (`System.out.println`) and the prompt message of `getNonEmptyInput` are not modelled.
- `getMenuChoice`, `ConsoleUI`, `CommandExecutor`, `SftpClient` and `TestRunner` are not part of this model. They are console glue, network code over JSch, and the test launcher.
- Concurrency: the store is single-threaded in the program.
