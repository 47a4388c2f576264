/**
  Console input handling: the IPv4 validator used by the store, and the two
  prompting loops that read the scanner until an acceptable line arrives.
  The scanner is a sequence of input lines and the index of the next one;
  running out of lines is `Scanner.nextLine`'s `NoSuchElementException`.
 */
module Cli {
  import opened Wrappers
  import JavaString

  // ---------------------------------------------------------------------
  // IPv4 validation

  predicate IsDigit(c: char) {
    '0' <= c <= '9'
  }

  function DigitValue(c: char): (d: nat)
    requires IsDigit(c)
    ensures d <= 9
  {
    (c as int) - ('0' as int)
  }

  predicate AllDigits(s: string) {
    forall i :: 0 <= i < |s| ==> IsDigit(s[i])
  }

  /** The decimal value of the digits `s` read after the digits worth `acc`,
      left to right as `Integer.parseInt` reads them. */
  function DecimalFrom(s: string, acc: nat): nat
    requires AllDigits(s)
  {
    if s == [] then acc else DecimalFrom(s[1..], 10 * acc + DigitValue(s[0]))
  }

  function DecimalValue(s: string): nat
    requires AllDigits(s)
  {
    DecimalFrom(s, 0)
  }

  /** One octet of `IPV4_PATTERN`, alternative by alternative:
      `25[0-5] | 2[0-4][0-9] | [01]?[0-9][0-9]?`. */
  predicate OctetPattern(s: string) {
    || (|s| == 3 && s[0] == '2' && s[1] == '5' && '0' <= s[2] <= '5')
    || (|s| == 3 && s[0] == '2' && '0' <= s[1] <= '4' && IsDigit(s[2]))
    // [01]?[0-9][0-9]? : one digit, two digits, or [01] followed by two digits
    || (|s| == 1 && IsDigit(s[0]))
    || (|s| == 2 && IsDigit(s[0]) && IsDigit(s[1]))
    || (|s| == 2 && (s[0] == '0' || s[0] == '1') && IsDigit(s[1]))
    || (|s| == 3 && (s[0] == '0' || s[0] == '1') && IsDigit(s[1]) && IsDigit(s[2]))
  }

  /** `s` matches `(octet\.){k}octet`, the regular expression's shape with
      the `{3}` repetition count as a parameter. */
  predicate MatchesDottedOctets(s: string, k: nat)
    decreases k, 1
  {
    if k == 0 then OctetPattern(s)
    else exists i | 0 <= i < |s| :: OctetThenDot(s, i, k)
  }

  /** `s` is an octet, a dot at index `i`, and a match of `(octet\.){k-1}octet`. */
  predicate OctetThenDot(s: string, i: nat, k: nat)
    requires 0 < k && i < |s|
    decreases k, 0
  {
    s[i] == '.' && OctetPattern(s[..i]) && MatchesDottedOctets(s[i + 1..], k - 1)
  }

  /** `InputHandler.isValidIPv4`: not null, and the whole string matches
      `^((octet)\.){3}(octet)$`. */
  predicate IsValidIPv4(ip: Option<string>) {
    ip.Some? && MatchesDottedOctets(ip.value, 3)
  }

  // Reference definition: four dot-separated decimal numbers up to 255.

  /** One to three ASCII digits whose value is at most 255 (leading zeros allowed). */
  predicate IsOctet(s: string) {
    1 <= |s| <= 3 && AllDigits(s) && DecimalValue(s) <= 255
  }

  predicate AllOctets(parts: seq<string>) {
    forall i :: 0 <= i < |parts| ==> IsOctet(parts[i])
  }

  predicate IsDottedQuad(s: string) {
    var parts := JavaString.Segments(s, ".");
    |parts| == 4 && AllOctets(parts)
  }

  /** The regular-expression alternatives accept exactly the octets. */
  lemma OctetPatternIsOctet(s: string)
    ensures OctetPattern(s) <==> IsOctet(s)
  {
    if 1 <= |s| <= 3 && AllDigits(s) {
      var d0 := DigitValue(s[0]);
      assert DecimalValue(s) == DecimalFrom(s[1..], d0);
      if |s| == 1 {
        assert DecimalValue(s) == d0;
      } else {
        var d1 := DigitValue(s[1]);
        assert s[1..][0] == s[1] && s[1..][1..] == s[2..];
        assert DecimalValue(s) == DecimalFrom(s[2..], 10 * d0 + d1);
        if |s| == 2 {
          assert DecimalValue(s) == 10 * d0 + d1;
        } else {
          assert s[2..][0] == s[2] && s[2..][1..] == [];
          assert DecimalValue(s) == 100 * d0 + 10 * d1 + DigitValue(s[2]);
        }
      }
    }
  }

  /** Splitting at the first dot. */
  lemma SegmentsAtFirstDot(s: string, i: nat)
    requires i < |s| && s[i] == '.' && '.' !in s[..i]
    ensures JavaString.Segments(s, ".") == [s[..i]] + JavaString.Segments(s[i + 1..], ".")
  {
    assert s == s[..i] + "." + s[i + 1..];
    JavaString.SegmentsAt(s[..i], ".", s[i + 1..]);
  }

  /** Where the search for "." stops, there is the first dot. */
  lemma IndexOfDot(s: string)
    requires JavaString.IndexOf(s, ".") < |s|
    ensures var j := JavaString.IndexOf(s, "."); s[j] == '.' && '.' !in s[..j]
  {
    var j := JavaString.IndexOf(s, ".");
    assert s[j..j + 1] == "." && s[j] == '.';
    forall m | 0 <= m < j ensures s[m] != '.' {
      assert !JavaString.OccursAt(s, ".", m) && s[m..m + 1] == [s[m]];
    }
  }

  lemma OctetHasNoDot(s: string)
    requires IsOctet(s)
    ensures '.' !in s
  {
    assert forall m :: 0 <= m < |s| ==> s[m] != '.';
  }

  /** The dot that ends the first octet of a match. */
  lemma FirstOctetOfMatch(s: string, k: nat) returns (i: nat)
    requires k > 0 && MatchesDottedOctets(s, k)
    ensures i < |s| && s[i] == '.' && IsOctet(s[..i]) && MatchesDottedOctets(s[i + 1..], k - 1)
  {
    i :| 0 <= i < |s| && OctetThenDot(s, i, k);
    OctetPatternIsOctet(s[..i]);
  }

  /** A string that matches `(octet\.){k}octet` splits at its dots into
      k + 1 octets. */
  lemma {:induction false} DottedOctetsSplit(s: string, k: nat)
    requires MatchesDottedOctets(s, k)
    ensures var parts := JavaString.Segments(s, "."); |parts| == k + 1 && AllOctets(parts)
    decreases k
  {
    if k == 0 {
      OctetPatternIsOctet(s);
      OctetHasNoDot(s);
      JavaString.IndexOfMissingChar(s, ".", '.');
    } else {
      var i := FirstOctetOfMatch(s, k);
      OctetHasNoDot(s[..i]);
      SegmentsAtFirstDot(s, i);
      DottedOctetsSplit(s[i + 1..], k - 1);
      var parts := JavaString.Segments(s, ".");
      var rest := JavaString.Segments(s[i + 1..], ".");
      assert parts == [s[..i]] + rest;
      forall m | 0 <= m < |parts| ensures IsOctet(parts[m]) {
        if m > 0 {
          assert parts[m] == rest[m - 1];
        }
      }
    }
  }

  /** A string that splits into two or more pieces at its dots, split at its first dot. */
  lemma FirstDotOfSegments(s: string) returns (j: nat)
    requires |JavaString.Segments(s, ".")| >= 2
    ensures j < |s| && s == s[..j] + "." + s[j + 1..]
    ensures JavaString.Segments(s, ".") == [s[..j]] + JavaString.Segments(s[j + 1..], ".")
  {
    j := JavaString.IndexOf(s, ".");
    IndexOfDot(s);
    SegmentsAtFirstDot(s, j);
  }

  /** An octet, a dot and a match of `(octet\.){k-1}octet` match
      `(octet\.){k}octet`. */
  lemma DottedOctetsCons(x: string, rest: string, k: nat)
    requires k > 0 && OctetPattern(x) && MatchesDottedOctets(rest, k - 1)
    ensures MatchesDottedOctets(x + "." + rest, k)
  {
    var s := x + "." + rest;
    assert s[|x|] == '.' && s[..|x|] == x && s[|x| + 1..] == rest;
    assert OctetThenDot(s, |x|, k);
  }

  /** A string that splits at its dots into k + 1 octets matches
      `(octet\.){k}octet`. */
  lemma {:induction false} SplitDottedOctets(s: string, k: nat)
    requires var parts := JavaString.Segments(s, "."); |parts| == k + 1 && AllOctets(parts)
    ensures MatchesDottedOctets(s, k)
    decreases k
  {
    var parts := JavaString.Segments(s, ".");
    if k == 0 {
      assert parts == [s] && IsOctet(parts[0]);
      OctetPatternIsOctet(s);
    } else {
      var j := FirstDotOfSegments(s);
      var x, rest := s[..j], s[j + 1..];
      var restParts := JavaString.Segments(rest, ".");
      assert IsOctet(parts[0]) && parts[0] == x;
      OctetPatternIsOctet(x);
      assert forall i :: 0 <= i < |restParts| ==> restParts[i] == parts[i + 1];
      SplitDottedOctets(rest, k - 1);
      DottedOctetsCons(x, rest, k);
    }
  }

  /** A match of `(octet\.){k}octet` holds exactly k dots. */
  lemma {:induction false} DottedOctetsDotCount(s: string, k: nat)
    requires MatchesDottedOctets(s, k)
    ensures JavaString.CountChar(s, '.') == k
    decreases k
  {
    if k == 0 {
      OctetPatternIsOctet(s);
      OctetHasNoDot(s);
    } else {
      var i := FirstOctetOfMatch(s, k);
      var x, rest := s[..i], s[i + 1..];
      OctetHasNoDot(x);
      DottedOctetsDotCount(rest, k - 1);
      assert s == x + ("." + rest);
      JavaString.CountCharAppend(x, "." + rest, '.');
      JavaString.CountCharAppend(".", rest, '.');
    }
  }

  /** A match of `(octet\.){k}octet` holds nothing but digits and dots. */
  lemma {:induction false} DottedOctetsAlphabet(s: string, k: nat)
    requires MatchesDottedOctets(s, k)
    ensures forall c :: c in s ==> IsDigit(c) || c == '.'
    decreases k
  {
    if k == 0 {
      OctetPatternIsOctet(s);
    } else {
      var i := FirstOctetOfMatch(s, k);
      var x, rest := s[..i], s[i + 1..];
      DottedOctetsAlphabet(rest, k - 1);
      assert s == x + "." + rest;
    }
  }

  /** In a match, the text before the first dot is an octet. */
  lemma FirstOctetOfDottedOctets(x: string, rest: string, k: nat)
    requires k > 0 && '.' !in x && MatchesDottedOctets(x + "." + rest, k)
    ensures IsOctet(x)
  {
    var s := x + "." + rest;
    var i := FirstOctetOfMatch(s, k);
    OctetHasNoDot(s[..i]);
    assert s[|x|] == '.';
    assert forall m :: 0 <= m < |x| ==> s[m] == x[m] && s[m] != '.';
    assert forall m :: 0 <= m < i ==> s[m] == s[..i][m] && s[m] != '.';
    assert i == |x|;
    assert s[..i] == x;
  }

  /** `isValidIPv4` accepts exactly the non-null strings made of four octets
      separated by three dots, with nothing else. */
  lemma IsValidIPv4IsDottedQuad(ip: Option<string>)
    ensures IsValidIPv4(ip) <==> ip.Some? && IsDottedQuad(ip.value)
  {
    if IsValidIPv4(ip) {
      DottedOctetsSplit(ip.value, 3);
    }
    if ip.Some? && IsDottedQuad(ip.value) {
      SplitDottedOctets(ip.value, 3);
    }
  }

  /** Four octets joined by dots form a valid address. */
  lemma IsValidIPv4OfOctets(a: string, b: string, c: string, d: string)
    requires OctetPattern(a) && OctetPattern(b) && OctetPattern(c) && OctetPattern(d)
    ensures IsValidIPv4(Some(a + "." + (b + "." + (c + "." + d))))
  {
    DottedOctetsCons(c, d, 1);
    DottedOctetsCons(b, c + "." + d, 2);
    DottedOctetsCons(a, b + "." + (c + "." + d), 3);
  }

  /** A string without exactly three dots is rejected. */
  lemma RejectsDotCount(s: string)
    requires JavaString.CountChar(s, '.') != 3
    ensures !IsValidIPv4(Some(s))
  {
    if MatchesDottedOctets(s, 3) {
      DottedOctetsDotCount(s, 3);
    }
  }

  /** A string holding a character other than a digit or a dot is rejected. */
  lemma RejectsForeignChar(s: string, c: char)
    requires c in s && !IsDigit(c) && c != '.'
    ensures !IsValidIPv4(Some(s))
  {
    if MatchesDottedOctets(s, 3) {
      DottedOctetsAlphabet(s, 3);
    }
  }

  /** A string whose text before the first dot is not an octet is rejected. */
  lemma RejectsFirstOctet(x: string, rest: string)
    requires '.' !in x && !IsOctet(x)
    ensures !IsValidIPv4(Some(x + "." + rest))
  {
    if MatchesDottedOctets(x + "." + rest, 3) {
      FirstOctetOfDottedOctets(x, rest, 3);
    }
  }

  /** The lowest address of the validator's unit test is accepted. */
  lemma AcceptsZeroAddress()
    ensures IsValidIPv4(Some("0.0.0.0"))
  {
    assert OctetPattern("0");
    IsValidIPv4OfOctets("0", "0", "0", "0");
    assert "0.0.0.0" == "0" + "." + ("0" + "." + ("0" + "." + "0"));
  }

  /** The highest address of the validator's unit test is accepted. */
  lemma AcceptsBroadcastAddress()
    ensures IsValidIPv4(Some("255.255.255.255"))
  {
    assert OctetPattern("255");
    IsValidIPv4OfOctets("255", "255", "255", "255");
    assert "255.255.255.255" == "255" + "." + ("255" + "." + ("255" + "." + "255"));
  }

  lemma AcceptsPrivateAddress()
    ensures IsValidIPv4(Some("192.168.1.1"))
  {
    assert OctetPattern("192") && OctetPattern("168") && OctetPattern("1");
    IsValidIPv4OfOctets("192", "168", "1", "1");
    assert "192.168.1.1" == "192" + "." + ("168" + "." + ("1" + "." + "1"));
  }

  lemma AcceptsNetworkAddress()
    ensures IsValidIPv4(Some("10.0.0.0"))
  {
    assert OctetPattern("10") && OctetPattern("0");
    IsValidIPv4OfOctets("10", "0", "0", "0");
    assert "10.0.0.0" == "10" + "." + ("0" + "." + ("0" + "." + "0"));
  }

  lemma AcceptsAddressWithThreeDigitOctet()
    ensures IsValidIPv4(Some("172.16.254.1"))
  {
    assert OctetPattern("172") && OctetPattern("16");
    assert OctetPattern("254") && OctetPattern("1");
    IsValidIPv4OfOctets("172", "16", "254", "1");
    assert "172.16.254.1" == "172" + "." + ("16" + "." + ("254" + "." + "1"));
  }

  /** Too few or too many octets, and the empty string, are rejected. */
  lemma RejectsWrongOctetCount()
    ensures !IsValidIPv4(Some("1.1.1")) && !IsValidIPv4(Some("192.168.1"))
    ensures !IsValidIPv4(Some("192.168.1.1.1")) && !IsValidIPv4(Some(""))
  {
    RejectsDotCount("1.1.1");
    RejectsDotCount("192.168.1");
    RejectsDotCount("192.168.1.1.1");
    RejectsDotCount("");
  }

  /** An octet above 255 is rejected. */
  lemma RejectsOctetAbove255()
    ensures !IsValidIPv4(Some("256.1.2.3"))
  {
    OctetPatternIsOctet("256");
    RejectsFirstOctet("256", "1.2.3");
    assert "256.1.2.3" == "256" + "." + "1.2.3";
  }

  /** Letters and null are rejected. */
  lemma RejectsLettersAndNull()
    ensures !IsValidIPv4(Some("abc.def.ghi.jkl")) && !IsValidIPv4(None)
  {
    RejectsForeignChar("abc.def.ghi.jkl", 'a');
  }

  // ---------------------------------------------------------------------
  // Integer.parseInt and the port range

  const IntMin: int := -0x8000_0000
  const IntMax: int := 0x7fff_ffff

  /** An optional `-` or `+` followed by one or more ASCII digits: the texts
      `Integer.parseInt` reads, when their value fits. */
  predicate IsIntText(s: string) {
    |s| > 0
    && (IsDigit(s[0]) || (|s| > 1 && (s[0] == '-' || s[0] == '+')))
    && forall i :: 1 <= i < |s| ==> IsDigit(s[i])
  }

  /** The value an integer text denotes, sign included. */
  function SignedValue(s: string): int
    requires IsIntText(s)
  {
    if IsDigit(s[0]) then DecimalValue(s)
    else if s[0] == '-' then -(DecimalValue(s[1..]) as int)
    else DecimalValue(s[1..])
  }

  /** `Integer.parseInt(s)` on ASCII text: an optional `-` or `+`, then one
      or more digits, with a value that fits in a 32-bit `int`. `None` is the
      `NumberFormatException`. */
  function ParseInt(s: string): (r: Option<int>)
    ensures r.Some? <==> IsIntText(s) && IntMin <= SignedValue(s) <= IntMax
    ensures r.Some? ==> r.value == SignedValue(s)
  {
    if s == [] then None
    else
      var digits := if s[0] == '-' || s[0] == '+' then s[1..] else s;
      if digits == [] || !AllDigits(digits) then None
      else
        var value := DecimalValue(digits) as int;
        var n := if s[0] == '-' then -value else value;
        if IntMin <= n <= IntMax then Some(n) else None
  }

  // Reference: the decimal text of an integer, as `Integer.toString` writes it.

  function DigitChar(d: nat): (c: char)
    requires d <= 9
    ensures IsDigit(c) && DigitValue(c) == d
  {
    ('0' as int + d) as char
  }

  /** The decimal digits of `n`, most significant first, without leading zeros. */
  function Digits(n: nat): (s: string)
    ensures |s| > 0 && AllDigits(s)
    decreases n
  {
    if n < 10 then [DigitChar(n)] else Digits(n / 10) + [DigitChar(n % 10)]
  }

  /** `Integer.toString(n)`: a `-` for negative numbers, then the digits. */
  function IntText(n: int): string {
    if n < 0 then "-" + Digits(-n) else Digits(n)
  }

  /** One more digit on the right multiplies the value by ten and adds it. */
  lemma {:induction false} DecimalFromSnoc(s: string, c: char, acc: nat)
    requires AllDigits(s) && IsDigit(c)
    ensures AllDigits(s + [c])
    ensures DecimalFrom(s + [c], acc) == 10 * DecimalFrom(s, acc) + DigitValue(c)
    decreases |s|
  {
    if s == [] {
      assert s + [c] == [c] && [c][1..] == [];
    } else {
      assert (s + [c])[0] == s[0] && (s + [c])[1..] == s[1..] + [c];
      DecimalFromSnoc(s[1..], c, 10 * acc + DigitValue(s[0]));
    }
  }

  /** The digits of `n` read back as `n`. */
  lemma {:induction false} DigitsValue(n: nat)
    ensures DecimalValue(Digits(n)) == n
    decreases n
  {
    if n < 10 {
      var s := Digits(n);
      assert s[1..] == [] && DigitValue(s[0]) == n;
      assert DecimalFrom(s, 0) == DecimalFrom(s[1..], n);
    } else {
      DigitsValue(n / 10);
      DecimalFromSnoc(Digits(n / 10), DigitChar(n % 10), 0);
    }
  }

  /** `Integer.parseInt(Integer.toString(n)) == n` for every 32-bit `n`. */
  lemma ParseIntText(n: int)
    requires IntMin <= n <= IntMax
    ensures ParseInt(IntText(n)) == Some(n)
  {
    if n < 0 {
      var t := "-" + Digits(-n);
      DigitsValue(-n);
      assert t[1..] == Digits(-n);
      assert forall i :: 1 <= i < |t| ==> t[i] == Digits(-n)[i - 1];
    } else {
      DigitsValue(n);
    }
  }

  /** A leading `+` does not change the value read. */
  lemma ParseIntPlus(n: nat)
    requires n <= IntMax
    ensures ParseInt("+" + IntText(n)) == Some(n)
  {
    var t := "+" + Digits(n);
    DigitsValue(n);
    assert t[1..] == Digits(n);
    assert forall i :: 1 <= i < |t| ==> t[i] == Digits(n)[i - 1];
  }

  /** The range `getValidPort` accepts: `portNumber > 0 && portNumber < 65535`. */
  predicate IsValidPort(n: int) {
    0 < n < 65535
  }

  /** A line `getValidPort` returns: an integer in the port range. */
  predicate IsPortLine(line: string) {
    ParseInt(line).Some? && IsValidPort(ParseInt(line).value)
  }

  /** The index of the first non-empty line at or after `from`, or `|lines|`. */
  function NextNonEmpty(lines: seq<string>, from: nat): (k: nat)
    requires from <= |lines|
    ensures from <= k <= |lines|
    ensures k < |lines| ==> lines[k] != ""
    ensures forall j :: from <= j < k ==> lines[j] == ""
    decreases |lines| - from
  {
    if from == |lines| then from
    else if lines[from] != "" then from
    else NextNonEmpty(lines, from + 1)
  }

  /** The index of the first port line at or after `from`, or `|lines|`. */
  function NextPortLine(lines: seq<string>, from: nat): (k: nat)
    requires from <= |lines|
    ensures from <= k <= |lines|
    ensures k < |lines| ==> IsPortLine(lines[k])
    ensures forall j :: from <= j < k ==> !IsPortLine(lines[j])
    decreases |lines| - from
  {
    if from == |lines| then from
    else if IsPortLine(lines[from]) then from
    else NextPortLine(lines, from + 1)
  }

  /** The console input of the Java class: the scanner's lines, and how many
      of them have been read. */
  class InputHandler {
    var lines: seq<string>
    var consumed: nat

    ghost predicate Valid()
      reads this
    {
      consumed <= |lines|
    }

    constructor (input: seq<string>)
      ensures Valid() && lines == input && consumed == 0
    {
      lines := input;
      consumed := 0;
    }

    /** `getNonEmptyInput`: reads lines until one is not empty and returns
        it; `None` when the input ends first (`NoSuchElementException`).
        The prompt it prints is not modelled. */
    method GetNonEmptyInput() returns (r: Option<string>)
      requires Valid()
      modifies this`consumed
      ensures Valid()
      ensures var k := NextNonEmpty(lines, old(consumed));
        if k < |lines| then r == Some(lines[k]) && consumed == k + 1
        else r == None && consumed == |lines|
    {
      while consumed < |lines|
        invariant old(consumed) <= consumed <= |lines|
        invariant NextNonEmpty(lines, old(consumed)) == NextNonEmpty(lines, consumed)
        decreases |lines| - consumed
      {
        var input := lines[consumed];
        consumed := consumed + 1;
        if input != "" {
          return Some(input);
        }
      }
      return None;
    }

    /** `getValidPort`: reads lines until one is an integer with
        0 < n < 65535 and returns it, skipping lines that are not integers
        and integers out of range; `None` when the input ends first. */
    method GetValidPort() returns (r: Option<int>)
      requires Valid()
      modifies this`consumed
      ensures Valid()
      ensures var k := NextPortLine(lines, old(consumed));
        if k < |lines| then r == ParseInt(lines[k]) && consumed == k + 1
        else r == None && consumed == |lines|
      ensures r.Some? ==> IsValidPort(r.value)
    {
      while consumed < |lines|
        invariant old(consumed) <= consumed <= |lines|
        invariant NextPortLine(lines, old(consumed)) == NextPortLine(lines, consumed)
        decreases |lines| - consumed
      {
        var port := lines[consumed];
        consumed := consumed + 1;
        var portNumber := ParseInt(port);
        if portNumber.Some? && IsValidPort(portNumber.value) {
          return portNumber;
        }
      }
      return None;
    }
  }

  /** 65535 parses but is outside the accepted range, although the prompt
      says "1 to 65535"; 65534 is the largest port accepted. */
  lemma PortUpperBound()
    ensures ParseInt("65535") == Some(65535) && !IsPortLine("65535")
    ensures IsPortLine("65534")
  {
    // Integer.parseInt reads the digits left to right
    assert DecimalFrom("65535", 0) == DecimalFrom("5535", 6) == DecimalFrom("535", 65)
      == DecimalFrom("35", 655) == DecimalFrom("5", 6553) == 65535;
    assert DecimalFrom("65534", 0) == DecimalFrom("5534", 6) == DecimalFrom("534", 65)
      == DecimalFrom("34", 655) == DecimalFrom("4", 6553) == 65534;
  }

  /** 1 is the smallest port accepted; 0 and negative numbers are not. */
  lemma PortLowerBound()
    ensures IsPortLine("1") && !IsPortLine("0") && !IsPortLine("-22")
  {
    assert DecimalFrom("22", 0) == DecimalFrom("2", 2) == 22;
  }

  /** Over the lines "", "abc", "0", "65535", "22", the empty line, the
      non-number and the two out-of-range numbers are skipped and 22 is read. */
  lemma PortLinesExample()
    ensures NextPortLine(["", "abc", "0", "65535", "22"], 0) == 4
  {
    var lines := ["", "abc", "0", "65535", "22"];
    PortUpperBound();
    assert DecimalFrom("22", 0) == DecimalFrom("2", 2) == 22;
    assert IsPortLine(lines[4]);
    assert !IsPortLine(lines[0]) && !IsPortLine(lines[1]) && !IsPortLine(lines[2]) && !IsPortLine(lines[3]);
  }

  /** The scenario of `getNonEmptyInput`'s unit test: an empty line, then
      "valid input". */
  lemma NonEmptyInputExample()
    ensures NextNonEmpty(["", "valid input"], 0) == 1
  {
    var lines := ["", "valid input"];
    assert lines[0] == "" && lines[1] != "";
  }
}
