/**
  The few `java.lang.String` operations the record store is built from, with
  the semantics the Java library gives them for literal (non-regex) patterns:
  `replaceAll("\\s+", "")`, `replace(c, "")`, `startsWith`, `contains` and
  `split`, including `split`'s rule that trailing empty strings are dropped.
  Strings are sequences of characters; the UTF-16 encoding is not modelled.
 */
module JavaString {

  /** The characters of the regular-expression class `\s`: space, tab,
      line feed, vertical tab, form feed and carriage return. */
  predicate IsWhitespace(c: char) {
    c == ' ' || c == '\t' || c == '\n' || c == '\U{B}' || c == '\U{C}' || c == '\r'
  }

  /** `s.replaceAll("\\s+", "")`: every whitespace character removed. */
  function StripWhitespace(s: string): (r: string)
    ensures |r| <= |s|
    ensures forall i :: 0 <= i < |r| ==> !IsWhitespace(r[i])
    ensures forall c :: c in r ==> c in s
  {
    if s == [] then []
    else (if IsWhitespace(s[0]) then [] else [s[0]]) + StripWhitespace(s[1..])
  }

  /** `s.replace(String.valueOf(c), "")`: every occurrence of `c` removed. */
  function RemoveChar(s: string, c: char): (r: string)
    ensures |r| <= |s|
    ensures c !in r
    ensures forall d :: d in r ==> d in s
  {
    if s == [] then []
    else (if s[0] == c then [] else [s[0]]) + RemoveChar(s[1..], c)
  }

  /** The number of occurrences of `c` in `s`. */
  function CountChar(s: string, c: char): (n: nat)
    ensures n <= |s|
    ensures n == 0 <==> c !in s
  {
    if s == [] then 0 else (if s[0] == c then 1 else 0) + CountChar(s[1..], c)
  }

  predicate StartsWith(s: string, prefix: string) {
    |prefix| <= |s| && s[..|prefix|] == prefix
  }

  /** `sep` occurs in `s` starting at index `k`. */
  predicate OccursAt(s: string, sep: string, k: nat) {
    k + |sep| <= |s| && s[k..k + |sep|] == sep
  }

  /** The first index at or after `from` where `sep` occurs, or `|s|` when
      there is none (with a non-empty `sep`, nothing can occur at `|s|`). */
  function IndexFrom(s: string, sep: string, from: nat): (k: nat)
    requires from <= |s|
    ensures from <= k <= |s|
    ensures k < |s| ==> OccursAt(s, sep, k)
    ensures forall j :: from <= j < k ==> !OccursAt(s, sep, j)
    decreases |s| - from
  {
    if from == |s| then |s|
    else if OccursAt(s, sep, from) then from
    else IndexFrom(s, sep, from + 1)
  }

  function IndexOf(s: string, sep: string): (k: nat)
    ensures k <= |s|
  {
    IndexFrom(s, sep, 0)
  }

  /** `s.contains(sep)`. */
  predicate Contains(s: string, sep: string)
    requires |sep| > 0
  {
    IndexOf(s, sep) < |s|
  }

  /** The pieces of `s` between the leftmost non-overlapping occurrences of
      `sep`, in order, empty pieces included. */
  function Segments(s: string, sep: string): (parts: seq<string>)
    requires |sep| > 0
    ensures |parts| >= 1
    decreases |s|
  {
    var k := IndexOf(s, sep);
    if k == |s| then [s] else [s[..k]] + Segments(s[k + |sep|..], sep)
  }

  function DropTrailingEmpty(parts: seq<string>): (r: seq<string>)
    ensures |r| <= |parts| && r == parts[..|r|]
    ensures r != [] ==> r[|r| - 1] != ""
    ensures forall i :: |r| <= i < |parts| ==> parts[i] == ""
  {
    if parts != [] && parts[|parts| - 1] == "" then DropTrailingEmpty(parts[..|parts| - 1])
    else parts
  }

  /** The pieces joined back with `sep` between them. */
  function Join(parts: seq<string>, sep: string): string
    requires |parts| > 0
  {
    if |parts| == 1 then parts[0] else parts[0] + sep + Join(parts[1..], sep)
  }

  /** Cutting at `sep` and joining with `sep` gives the text back. */
  lemma {:induction false} SegmentsJoin(s: string, sep: string)
    requires |sep| > 0
    ensures Join(Segments(s, sep), sep) == s
    decreases |s|
  {
    var k := IndexOf(s, sep);
    if k < |s| {
      var rest := s[k + |sep|..];
      var parts := Segments(s, sep);
      assert parts == [s[..k]] + Segments(rest, sep);
      assert Join(parts, sep) == s[..k] + sep + Join(Segments(rest, sep), sep);
      SegmentsJoin(rest, sep);
      AroundOccurrence(s, sep, k);
    }
  }

  lemma AroundOccurrence(s: string, sep: string, k: nat)
    requires OccursAt(s, sep, k)
    ensures s == s[..k] + sep + s[k + |sep|..]
  {
    assert s == s[..k] + s[k..k + |sep|] + s[k + |sep|..];
  }

  /** `s.split(sep)` for a pattern that matches only the literal `sep`: when
      `sep` does not occur the result is `[s]` (even for the empty string);
      otherwise the segments, with trailing empty strings removed. */
  function Split(s: string, sep: string): (parts: seq<string>)
    requires |sep| > 0
  {
    if IndexOf(s, sep) == |s| then [s] else DropTrailingEmpty(Segments(s, sep))
  }

  /** `Character.toUpperCase` restricted to ASCII letters. */
  function ToUpperAscii(c: char): char {
    if 'a' <= c <= 'z' then (c as int - 32) as char else c
  }

  /** `a.equalsIgnoreCase(b)` with ASCII case folding: equal lengths, and
      every pair of characters equal once upper-cased. */
  predicate EqualsIgnoreCase(a: string, b: string) {
    |a| == |b| && forall i :: 0 <= i < |a| ==> ToUpperAscii(a[i]) == ToUpperAscii(b[i])
  }

  /** Ignoring case is an equivalence: reflexive, symmetric and transitive. */
  lemma EqualsIgnoreCaseEquivalence(a: string, b: string, c: string)
    ensures EqualsIgnoreCase(a, a)
    ensures EqualsIgnoreCase(a, b) ==> EqualsIgnoreCase(b, a)
    ensures EqualsIgnoreCase(a, b) && EqualsIgnoreCase(b, c) ==> EqualsIgnoreCase(a, c)
  {
  }

  /** Texts that differ only in the case of ASCII letters are equal ignoring
      case; other characters must match exactly. */
  lemma EqualsIgnoreCaseExample()
    ensures EqualsIgnoreCase("Example.COM", "example.com")
    ensures !EqualsIgnoreCase("example.com", "example.org")
  {
    assert ToUpperAscii("example.com"[8]) != ToUpperAscii("example.org"[8]);
  }

  // ---------------------------------------------------------------------
  // Lemmas used to evaluate these operations on texts built by concatenation

  lemma {:induction false} StripWhitespaceAppend(a: string, b: string)
    ensures StripWhitespace(a + b) == StripWhitespace(a) + StripWhitespace(b)
    decreases |a|
  {
    if a == [] {
      assert a + b == b;
    } else {
      assert (a + b)[0] == a[0] && (a + b)[1..] == a[1..] + b;
      StripWhitespaceAppend(a[1..], b);
    }
  }

  lemma {:induction false} StripWhitespaceOfClean(s: string)
    requires forall i :: 0 <= i < |s| ==> !IsWhitespace(s[i])
    ensures StripWhitespace(s) == s
    decreases |s|
  {
    if s != [] {
      StripWhitespaceOfClean(s[1..]);
    }
  }

  lemma {:induction false} StripWhitespaceOfBlank(s: string)
    requires forall i :: 0 <= i < |s| ==> IsWhitespace(s[i])
    ensures StripWhitespace(s) == ""
    decreases |s|
  {
    if s != [] {
      StripWhitespaceOfBlank(s[1..]);
    }
  }

  lemma {:induction false} RemoveCharAppend(a: string, b: string, c: char)
    ensures RemoveChar(a + b, c) == RemoveChar(a, c) + RemoveChar(b, c)
    decreases |a|
  {
    if a == [] {
      assert a + b == b;
    } else {
      assert (a + b)[0] == a[0] && (a + b)[1..] == a[1..] + b;
      RemoveCharAppend(a[1..], b, c);
      var head := if a[0] == c then [] else [a[0]];
      assert RemoveChar(a + b, c) == head + RemoveChar(a[1..] + b, c);
      assert RemoveChar(a, c) == head + RemoveChar(a[1..], c);
    }
  }

  lemma {:induction false} CountCharAppend(a: string, b: string, c: char)
    ensures CountChar(a + b, c) == CountChar(a, c) + CountChar(b, c)
    decreases |a|
  {
    if a == [] {
      assert a + b == b;
    } else {
      assert (a + b)[0] == a[0] && (a + b)[1..] == a[1..] + b;
      CountCharAppend(a[1..], b, c);
    }
  }

  lemma {:induction false} RemoveCharAbsent(s: string, c: char)
    requires c !in s
    ensures RemoveChar(s, c) == s
    decreases |s|
  {
    if s != [] {
      RemoveCharAbsent(s[1..], c);
    }
  }

  /** A search that skips only non-occurrences stops at the first occurrence. */
  lemma {:induction false} IndexFromFinds(s: string, sep: string, from: nat, k: nat)
    requires from <= k <= |s|
    requires k < |s| ==> OccursAt(s, sep, k)
    requires forall j :: from <= j < k ==> !OccursAt(s, sep, j)
    ensures IndexFrom(s, sep, from) == k
    decreases k - from
  {
    if from < k {
      IndexFromFinds(s, sep, from + 1, k);
    }
  }

  /** A separator with a character that `s` lacks does not occur in `s`. */
  lemma IndexOfMissingChar(s: string, sep: string, c: char)
    requires c in sep && c !in s
    ensures IndexOf(s, sep) == |s|
  {
    var i :| 0 <= i < |sep| && sep[i] == c;
    forall j | 0 <= j < |s| ensures !OccursAt(s, sep, j) {
      if j + |sep| <= |s| {
        assert s[j..j + |sep|][i] == s[j + i] && s[j + i] in s;
      }
    }
    IndexFromFinds(s, sep, 0, |s|);
  }

  /** `sep` does not occur in `a + b` when its first character is not in `a`
      and `b` is too short to hold it. */
  lemma IndexOfShortTail(a: string, b: string, sep: string)
    requires |sep| > 0 && sep[0] !in a && |b| < |sep|
    ensures IndexOf(a + b, sep) == |a + b|
  {
    var s := a + b;
    forall j | 0 <= j < |s| ensures !OccursAt(s, sep, j) {
      if j < |a| && j + |sep| <= |s| {
        assert s[j..j + |sep|][0] == a[j] && a[j] in a;
      }
    }
    IndexFromFinds(s, sep, 0, |s|);
  }

  /** When the first occurrence of `sep` in `a + sep` is the one after `a`,
      it is also the first in `a + sep + b`, whatever `b` is: the text is
      cut there. */
  lemma SegmentsAtFirst(a: string, sep: string, b: string)
    requires |sep| > 0 && IndexOf(a + sep, sep) == |a|
    ensures IndexOf(a + sep + b, sep) == |a|
    ensures Segments(a + sep + b, sep) == [a] + Segments(b, sep)
  {
    var s := a + sep + b;
    forall j | 0 <= j < |a| ensures !OccursAt(s, sep, j) {
      assert !OccursAt(a + sep, sep, j);
      assert s[j..j + |sep|] == (a + sep)[j..j + |sep|];
    }
    assert s[|a|..|a| + |sep|] == sep;
    IndexFromFinds(s, sep, 0, |a|);
    assert s[..|a|] == a;
    assert s[|a| + |sep|..] == b;
  }

  /** The first occurrence of `sep` in `a + sep + b` is the one after `a` when
      `a` lacks the first character of `sep`. */
  lemma SegmentsAt(a: string, sep: string, b: string)
    requires |sep| > 0 && sep[0] !in a
    ensures IndexOf(a + sep + b, sep) == |a|
    ensures Segments(a + sep + b, sep) == [a] + Segments(b, sep)
  {
    var s := a + sep;
    forall j | 0 <= j < |a| ensures !OccursAt(s, sep, j) {
      if j + |sep| <= |s| {
        assert s[j..j + |sep|][0] == a[j] && a[j] in a;
      }
    }
    assert s[|a|..] == sep;
    IndexFromFinds(s, sep, 0, |a|);
    SegmentsAtFirst(a, sep, b);
  }

  /** `split` returns all the segments when the last one is not empty. */
  lemma SplitKeepsSegments(s: string, sep: string)
    requires |sep| > 0
    requires Segments(s, sep)[|Segments(s, sep)| - 1] != ""
    ensures Split(s, sep) == Segments(s, sep)
  {
  }

  /** `n` copies of `s`. */
  function Repeat(s: string, n: nat): (r: string)
    ensures |r| == n * |s|
    ensures forall c :: c in r ==> c in s
  {
    if n == 0 then "" else s + Repeat(s, n - 1)
  }

  /** A text made of copies of `sep` cuts into empty segments only. */
  lemma {:induction false} SegmentsOfRepeat(sep: string, n: nat)
    requires |sep| > 0
    ensures |Segments(Repeat(sep, n), sep)| == n + 1
    ensures forall i :: 0 <= i <= n ==> Segments(Repeat(sep, n), sep)[i] == ""
    decreases n
  {
    if n > 0 {
      assert "" + sep + Repeat(sep, n - 1) == Repeat(sep, n);
      SegmentsAt("", sep, Repeat(sep, n - 1));
      SegmentsOfRepeat(sep, n - 1);
    }
  }

  /** `split` keeps at most `k` pieces when every segment from the `k`-th
      on is empty and `sep` occurs. */
  lemma SplitDropsEmptyTail(s: string, sep: string, k: nat)
    requires |sep| > 0 && IndexOf(s, sep) < |s|
    requires forall i :: k <= i < |Segments(s, sep)| ==> Segments(s, sep)[i] == ""
    ensures |Split(s, sep)| <= k
  {
    var parts := Segments(s, sep);
    var r := Split(s, sep);
    assert r == DropTrailingEmpty(parts);
    assert forall i :: 0 <= i < |r| ==> r[i] == parts[i];
  }

  /** `split` keeps every non-empty segment, at its own index, when `sep`
      occurs. */
  lemma SplitKeepsNonEmptySegment(s: string, sep: string, i: nat)
    requires |sep| > 0 && IndexOf(s, sep) < |s|
    requires i < |Segments(s, sep)| && Segments(s, sep)[i] != ""
    ensures i < |Split(s, sep)| && Split(s, sep)[i] == Segments(s, sep)[i]
  {
    var parts := Segments(s, sep);
    var r := Split(s, sep);
    assert r == DropTrailingEmpty(parts);
    assert r == parts[..|r|];
  }

  /** A `piece` without the first character of `sep`, followed by nothing or
      by another `sep`, is the first segment. */
  lemma FirstSegmentBefore(piece: string, sep: string, rest: string)
    requires |sep| > 0 && sep[0] !in piece
    requires rest == "" || StartsWith(rest, sep)
    ensures Segments(piece + rest, sep)[0] == piece
  {
    if rest == "" {
      assert piece + rest == piece;
      IndexOfMissingChar(piece, sep, sep[0]);
    } else {
      var tail := rest[|sep|..];
      assert piece + rest == piece + sep + tail;
      SegmentsAt(piece, sep, tail);
    }
  }

  /** The non-empty `piece` between the first `sep` and the next one (or the
      end) is what `split(sep)[1]` returns. */
  lemma SplitSecondPiece(pre: string, sep: string, piece: string, rest: string)
    requires |sep| > 0 && IndexOf(pre + sep, sep) == |pre|
    requires piece != "" && sep[0] !in piece
    requires rest == "" || StartsWith(rest, sep)
    ensures |Split(pre + sep + piece + rest, sep)| >= 2
    ensures Split(pre + sep + piece + rest, sep)[1] == piece
  {
    var s := pre + sep + piece + rest;
    assert s == pre + sep + (piece + rest);
    SegmentsAtFirst(pre, sep, piece + rest);
    FirstSegmentBefore(piece, sep, rest);
    assert Segments(s, sep)[1] == piece;
    SplitKeepsNonEmptySegment(s, sep, 1);
  }

  /** One or more copies of `sep` split into nothing at all. */
  lemma SplitOfRepeat(sep: string, n: nat)
    requires |sep| > 0 && n > 0
    ensures Split(Repeat(sep, n), sep) == []
  {
    assert "" + sep + Repeat(sep, n - 1) == Repeat(sep, n);
    SegmentsAt("", sep, Repeat(sep, n - 1));
    SegmentsOfRepeat(sep, n);
    SplitDropsEmptyTail(Repeat(sep, n), sep, 0);
  }
}
