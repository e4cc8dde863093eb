/** The few Python `str` operations the scrapers rely on, written out on
    `seq<char>`: `isspace`, `strip`, `rstrip(c)`, `lower` (ASCII letters),
    `startswith`, `endswith`, `in`, `split(c)`, `join`, `replace`, and
    `str(n)` for natural numbers. */
module Strings {

  /** Python's `str.isspace()` for one character (the characters that
      `strip()` with no argument removes). */
  predicate IsSpace(c: char) {
    || ('\t' <= c <= '\r')
    || ('\U{1C}' <= c <= ' ')
    || c == '\U{85}' || c == '\U{A0}' || c == '\U{1680}'
    || ('\U{2000}' <= c <= '\U{200A}')
    || c == '\U{2028}' || c == '\U{2029}' || c == '\U{202F}'
    || c == '\U{205F}' || c == '\U{3000}'
  }

  /** A string that `strip()` leaves as it is. */
  predicate IsStripped(s: string) {
    s == [] || (!IsSpace(s[0]) && !IsSpace(s[|s| - 1]))
  }

  /** Stripped strings put together stay stripped. */
  lemma StrippedConcat(a: string, b: string)
    requires IsStripped(a) && IsStripped(b)
    ensures IsStripped(a + b)
  {
    if a == [] {
      assert a + b == b;
    } else if b == [] {
      assert a + b == a;
    } else {
      assert (a + b)[0] == a[0] && (a + b)[|a + b| - 1] == b[|b| - 1];
    }
  }

  /** `s.lstrip()`: drop the leading whitespace. */
  function TrimLeft(s: string): string
    decreases |s|
  {
    if |s| > 0 && IsSpace(s[0]) then TrimLeft(s[1..]) else s
  }

  /** `s.rstrip()`: drop the trailing whitespace. */
  function TrimRight(s: string): string
    decreases |s|
  {
    if |s| > 0 && IsSpace(s[|s| - 1]) then TrimRight(s[..|s| - 1]) else s
  }

  /** `s.strip()`. */
  function Strip(s: string): string {
    TrimRight(TrimLeft(s))
  }

  /** `lstrip()` keeps a suffix that does not start with whitespace and
      drops only whitespace. */
  lemma {:induction false} TrimLeftShape(s: string)
    ensures var r := TrimLeft(s);
            && |r| <= |s| && r == s[|s| - |r|..]
            && (r == [] || !IsSpace(r[0]))
            && forall k :: 0 <= k < |s| - |r| ==> IsSpace(s[k])
    decreases |s|
  {
    if |s| > 0 && IsSpace(s[0]) {
      TrimLeftShape(s[1..]);
    }
  }

  /** `rstrip()` keeps a prefix that does not end with whitespace and
      drops only whitespace. */
  lemma {:induction false} TrimRightShape(s: string)
    ensures var r := TrimRight(s);
            && |r| <= |s| && r == s[..|r|]
            && (r == [] || !IsSpace(r[|r| - 1]))
            && forall k :: |r| <= k < |s| ==> IsSpace(s[k])
    decreases |s|
  {
    if |s| > 0 && IsSpace(s[|s| - 1]) {
      TrimRightShape(s[..|s| - 1]);
    }
  }

  /** What `strip()` keeps is one contiguous piece `s[i..j]` of the input,
      with nothing left to strip; everything dropped is whitespace, and a
      string with nothing to strip is kept whole. */
  lemma StripShape(s: string) returns (i: nat, j: nat)
    ensures i <= j <= |s| && Strip(s) == s[i..j]
    ensures IsStripped(Strip(s))
    ensures forall k :: 0 <= k < i ==> IsSpace(s[k])
    ensures forall k :: j <= k < |s| ==> IsSpace(s[k])
  {
    var t := TrimLeft(s);
    var r := TrimRight(t);
    TrimLeftShape(s);
    TrimRightShape(t);
    i := |s| - |t|;
    j := i + |r|;
    assert t == s[i..] && r == t[..|r|];
    assert r == s[i..j];
    if r != [] {
      assert r[0] == t[0];
    }
    TailSpaces(s, i, |r|);
  }

  /** Whitespace at the end of `s[i..]` is whitespace at the end of `s`. */
  lemma TailSpaces(s: string, i: nat, m: nat)
    requires i + m <= |s|
    requires forall k :: m <= k < |s| - i ==> IsSpace(s[i..][k])
    ensures forall k :: i + m <= k < |s| ==> IsSpace(s[k])
  {
    forall k | i + m <= k < |s| ensures IsSpace(s[k]) {
      assert s[k] == s[i..][k - i];
    }
  }

  /** A string with nothing to strip is kept whole. */
  lemma StripOfStripped(s: string)
    requires IsStripped(s)
    ensures Strip(s) == s
  {
    if s != [] {
      assert TrimLeft(s) == s;
    }
  }

  /** `strip()` is idempotent. */
  lemma StripIdempotent(s: string)
    ensures Strip(Strip(s)) == Strip(s)
  {
    var i, j := StripShape(s);
    StripOfStripped(Strip(s));
  }

  /** A leading whitespace character does not change what `strip()` keeps. */
  lemma StripConsSpace(c: char, x: string)
    requires IsSpace(c)
    ensures Strip([c] + x) == Strip(x)
  {
    assert ([c] + x)[1..] == x;
  }

  /** Appending whitespace to a string only extends its left-trimmed part,
      unless that part is empty. */
  lemma {:induction false} TrimLeftSnocSpace(x: string, c: char)
    requires IsSpace(c)
    ensures TrimLeft(x + [c]) == if TrimLeft(x) == [] then [] else TrimLeft(x) + [c]
    decreases |x|
  {
    if x == [] {
      assert ([c] + [])[1..] == [];
    } else if IsSpace(x[0]) {
      assert (x + [c])[1..] == x[1..] + [c];
      TrimLeftSnocSpace(x[1..], c);
    }
  }

  /** A trailing whitespace character does not change what `strip()` keeps. */
  lemma StripSnocSpace(x: string, c: char)
    requires IsSpace(c)
    ensures Strip(x + [c]) == Strip(x)
  {
    TrimLeftSnocSpace(x, c);
    var t := TrimLeft(x);
    if t != [] {
      assert (t + [c])[..|t|] == t;
    }
  }

  predicate StartsWith(s: string, prefix: string) {
    |prefix| <= |s| && s[..|prefix|] == prefix
  }

  predicate EndsWith(s: string, suffix: string) {
    |suffix| <= |s| && s[|s| - |suffix|..] == suffix
  }

  /** Python's `sub in s`. */
  predicate Contains(s: string, sub: string)
    decreases |s|
  {
    StartsWith(s, sub) || (|s| > 0 && Contains(s[1..], sub))
  }

  /** A string contains whatever sits in its middle. */
  lemma ContainsMiddle(a: string, b: string, c: string)
    ensures Contains(a + b + c, b)
  {
    assert (a + b + c)[|a|..|a| + |b|] == b;
    ContainsAt(a + b + c, b, |a|);
  }

  /** Putting text in front keeps what a string contains. */
  lemma {:induction false} ContainsPrepend(a: string, s: string, sub: string)
    requires Contains(s, sub)
    ensures Contains(a + s, sub)
    decreases |a|
  {
    if a == [] {
      assert a + s == s;
    } else {
      assert (a + s)[1..] == a[1..] + s;
      ContainsPrepend(a[1..], s, sub);
    }
  }

  /** A string contains what it starts with. */
  lemma ContainsFront(sub: string, rest: string)
    ensures Contains(sub + rest, sub)
  {
    assert (sub + rest)[..|sub|] == sub;
  }

  /** `sub in s` holds when `sub` occurs at some index of `s`. */
  lemma {:induction false} ContainsAt(s: string, sub: string, i: nat)
    requires i + |sub| <= |s| && s[i..i + |sub|] == sub
    ensures Contains(s, sub)
    decreases i
  {
    if i > 0 {
      assert s[1..][i - 1..i - 1 + |sub|] == s[i..i + |sub|];
      ContainsAt(s[1..], sub, i - 1);
    }
  }

  function LowerChar(c: char): char {
    if 'A' <= c <= 'Z' then (c as int + 32) as char else c
  }

  /** `s.lower()` on ASCII letters. */
  function Lower(s: string): string {
    if s == [] then [] else [LowerChar(s[0])] + Lower(s[1..])
  }

  /** Lowering works character by character and keeps the length. */
  lemma {:induction false} LowerShape(s: string)
    ensures |Lower(s)| == |s|
    ensures forall k :: 0 <= k < |s| ==> Lower(s)[k] == LowerChar(s[k])
    decreases |s|
  {
    if s != [] {
      LowerShape(s[1..]);
      assert forall k :: 1 <= k < |s| ==> s[k] == s[1..][k - 1];
    }
  }

  /** `s.lower().endswith(suffix)`: lowering keeps the length, so the
      suffix is compared with the lowered tail of the same length. */
  predicate EndsWithIgnoringCase(s: string, suffix: string) {
    |suffix| <= |s| && Lower(s[|s| - |suffix|..]) == suffix
  }

  /** ".pdf" has no upper-case letter. */
  lemma LowerPdf()
    ensures Lower(".pdf") == ".pdf"
  {
    assert ".pdf"[1..] == "pdf" && "pdf"[1..] == "df" && "df"[1..] == "f" && "f"[1..] == "";
  }

  /** Appending ".pdf" makes a string end with ".pdf" ignoring case. */
  lemma EndsWithPdfAfterAppend(s: string)
    ensures EndsWithIgnoringCase(s + ".pdf", ".pdf")
  {
    assert (s + ".pdf")[|s|..] == ".pdf";
    LowerPdf();
  }

  /** `s.rstrip(c)`: drop every trailing `c`. */
  function RStripChar(s: string, c: char): string
    decreases |s|
  {
    if |s| > 0 && s[|s| - 1] == c then RStripChar(s[..|s| - 1], c) else s
  }

  /** `rstrip(c)` keeps a prefix, which does not end with `c`, and removes
      only copies of `c`. */
  lemma {:induction false} RStripCharShape(s: string, c: char)
    ensures var r := RStripChar(s, c);
            && |r| <= |s| && r == s[..|r|]
            && (r == [] || r[|r| - 1] != c)
            && forall k :: |r| <= k < |s| ==> s[k] == c
    decreases |s|
  {
    if |s| > 0 && s[|s| - 1] == c {
      RStripCharShape(s[..|s| - 1], c);
    }
  }

  /** What follows the last `c` in `s` (all of `s` when there is none). */
  function AfterLast(s: string, c: char): string
    decreases |s|
  {
    if s == [] || s[|s| - 1] == c then [] else AfterLast(s[..|s| - 1], c) + [s[|s| - 1]]
  }

  /** `AfterLast` is the last piece of `split(c)`. */
  lemma {:induction false} AfterLastIsLastPiece(s: string, c: char)
    ensures AfterLast(s, c) == Last(Split(s, c))
    decreases |s|
  {
    if c !in s {
      AfterLastWithout(s, c);
      SplitWithoutSep(s, c);
    } else {
      var t := AfterLast(s, c);
      var p := AfterLastSplits(s, c);
      SplitLastAfterSep(p, t, c);
    }
  }

  /** What follows the last `c` has no `c` and ends the string. */
  lemma AfterLastShape(s: string, c: char)
    ensures c !in AfterLast(s, c) && EndsWith(s, AfterLast(s, c))
  {
    if c in s {
      var p := AfterLastSplits(s, c);
    } else {
      AfterLastWithout(s, c);
    }
  }

  lemma {:induction false} AfterLastWithout(s: string, c: char)
    requires c !in s
    ensures AfterLast(s, c) == s
    decreases |s|
  {
    if s != [] {
      assert s[|s| - 1] in s;
      assert s[..|s| - 1] + [s[|s| - 1]] == s;
      AfterLastWithout(s[..|s| - 1], c);
    }
  }

  /** A string with a `c` is what precedes its last `c`, then `c`, then
      `AfterLast`, which has no `c`. */
  lemma {:induction false} AfterLastSplits(s: string, c: char) returns (p: string)
    requires c in s
    ensures s == p + [c] + AfterLast(s, c) && c !in AfterLast(s, c)
    decreases |s|
  {
    var n := |s|;
    if s[n - 1] == c {
      p := s[..n - 1];
    } else {
      assert s[n - 1] != c && s == s[..n - 1] + [s[n - 1]];
      assert c in s[..n - 1];
      var q := AfterLastSplits(s[..n - 1], c);
      p := q;
    }
  }

  /** `s.split(sep)` for a one-character separator: the maximal pieces
      between separators, at least one, none containing `sep`. */
  function Split(s: string, sep: char): (parts: seq<string>)
    ensures |parts| >= 1
    ensures forall k :: 0 <= k < |parts| ==> sep !in parts[k]
    decreases |s|
  {
    if s == [] then [""]
    else
      var rest := Split(s[1..], sep);
      if s[0] == sep then [""] + rest
      else [[s[0]] + rest[0]] + rest[1..]
  }

  /** Splitting at a separator between `a` and `b` splits each of them. */
  lemma {:induction false} SplitConcat(a: string, b: string, sep: char)
    ensures Split(a + [sep] + b, sep) == Split(a, sep) + Split(b, sep)
    decreases |a|
  {
    var s := a + [sep] + b;
    if a == [] {
      assert s[1..] == b;
    } else {
      assert s[0] == a[0] && s[1..] == a[1..] + [sep] + b;
      SplitConcat(a[1..], b, sep);
    }
  }

  /** Appending a character other than the separator extends the last piece. */
  lemma {:induction false} SplitSnocOther(x: string, c: char, sep: char)
    requires c != sep
    ensures var p := Split(x, sep);
            Split(x + [c], sep) == p[..|p| - 1] + [Last(p) + [c]]
    decreases |x|
  {
    var s := x + [c];
    if x == [] {
      assert s == [c] && s[1..] == [];
      assert Split(s, sep) == [[c] + ""];
      var p := Split(x, sep);
      assert p == [""] && p[..0] == [] && Last(p) + [c] == [c];
      assert [c] + "" == [c];
      assert p[..|p| - 1] + [Last(p) + [c]] == [[c]];
    } else {
      assert s[0] == x[0] && s[1..] == x[1..] + [c];
      SplitSnocOther(x[1..], c, sep);
      var r := Split(x[1..], sep);
      if x[0] != sep && |r| == 1 {
        assert [x[0]] + (r[0] + [c]) == [x[0]] + r[0] + [c];
      }
    }
  }

  /** `sep.join(parts)`. */
  function Join(parts: seq<string>, sep: string): string {
    if |parts| == 0 then ""
    else if |parts| == 1 then parts[0]
    else parts[0] + sep + Join(parts[1..], sep)
  }

  /** A join of non-empty pieces is empty exactly when there is no piece. */
  lemma JoinEmpty(parts: seq<string>, sep: string)
    requires forall k :: 0 <= k < |parts| ==> parts[k] != ""
    ensures Join(parts, sep) == "" <==> parts == []
  {
    if |parts| > 1 {
      assert |Join(parts, sep)| >= |parts[0]| > 0;
    }
  }

  /** Adding a piece at the end adds the separator and the piece. */
  lemma {:induction false} JoinSnoc(parts: seq<string>, x: string, sep: string)
    ensures Join(parts + [x], sep) == if parts == [] then x else Join(parts, sep) + sep + x
    decreases |parts|
  {
    if |parts| == 1 {
      assert parts + [x] == [parts[0], x];
      assert (parts + [x])[1..] == [x];
    } else if |parts| > 1 {
      assert (parts + [x])[1..] == parts[1..] + [x];
      JoinSnoc(parts[1..], x, sep);
    }
  }

  function Last(parts: seq<string>): string
    requires |parts| > 0
  {
    parts[|parts| - 1]
  }

  /** Joining the pieces of a split with the separator restores the input. */
  lemma {:induction false} JoinSplit(s: string, sep: char)
    ensures Join(Split(s, sep), [sep]) == s
    decreases |s|
  {
    if s != [] {
      var rest := Split(s[1..], sep);
      JoinSplit(s[1..], sep);
      if s[0] != sep && |rest| > 1 {
        assert Join(rest, [sep]) == rest[0] + [sep] + Join(rest[1..], [sep]);
      }
    }
  }

  /** A piece without the separator splits into itself. */
  lemma {:induction false} SplitWithoutSep(p: string, sep: char)
    requires sep !in p
    ensures Split(p, sep) == [p]
    decreases |p|
  {
    if p != [] {
      assert p[0] in p && p == [p[0]] + p[1..];
      SplitWithoutSep(p[1..], sep);
    }
  }

  /** Splitting `p + sep + t`, where `p` has no separator, yields `p` first. */
  lemma {:induction false} SplitAfterPiece(p: string, t: string, sep: char)
    requires sep !in p
    ensures Split(p + [sep] + t, sep) == [p] + Split(t, sep)
    decreases |p|
  {
    var s := p + [sep] + t;
    if p != [] {
      assert s[0] == p[0] && p[0] in p && p == [p[0]] + p[1..];
      assert s[1..] == p[1..] + [sep] + t;
      SplitAfterPiece(p[1..], t, sep);
    } else {
      assert s[1..] == t;
    }
  }

  /** Splitting a join of separator-free pieces gives the pieces back. */
  lemma {:induction false} SplitJoin(parts: seq<string>, sep: char)
    requires |parts| >= 1
    requires forall k :: 0 <= k < |parts| ==> sep !in parts[k]
    ensures Split(Join(parts, [sep]), sep) == parts
    decreases |parts|
  {
    if |parts| == 1 {
      SplitWithoutSep(parts[0], sep);
    } else {
      SplitJoin(parts[1..], sep);
      SplitAfterPiece(parts[0], Join(parts[1..], [sep]), sep);
      assert parts == [parts[0]] + parts[1..];
    }
  }

  /** There is one more piece than there are separators. */
  lemma {:induction false} SplitCount(s: string, sep: char)
    ensures |Split(s, sep)| == multiset(s)[sep] + 1
    decreases |s|
  {
    if s != [] {
      SplitCount(s[1..], sep);
      assert s == [s[0]] + s[1..];
      assert multiset(s) == multiset([s[0]]) + multiset(s[1..]);
    }
  }

  /** The last piece of `p + sep + t`, where `t` has no separator, is `t`. */
  lemma {:induction false} SplitLastAfterSep(p: string, t: string, sep: char)
    requires sep !in t
    ensures |Split(p + [sep] + t, sep)| >= 2
    ensures Last(Split(p + [sep] + t, sep)) == t
    decreases |p|
  {
    var s := p + [sep] + t;
    if p == [] {
      assert s[1..] == t;
      SplitWithoutSep(t, sep);
    } else {
      assert s[1..] == p[1..] + [sep] + t;
      SplitLastAfterSep(p[1..], t, sep);
    }
  }

  /** `s.replace(pat, rep)` for a non-empty pattern: occurrences are replaced
      left to right, without overlap. */
  function ReplaceAll(s: string, pat: string, rep: string): string
    requires |pat| > 0
    decreases |s|
  {
    if s == [] then ""
    else if StartsWith(s, pat) then rep + ReplaceAll(s[|pat|..], pat, rep)
    else [s[0]] + ReplaceAll(s[1..], pat, rep)
  }

  /** With no occurrence of the pattern, `replace` changes nothing. */
  lemma {:induction false} ReplaceAbsent(s: string, pat: string, rep: string)
    requires |pat| > 0 && !Contains(s, pat)
    ensures ReplaceAll(s, pat, rep) == s
    decreases |s|
  {
    if s != [] {
      ReplaceAbsent(s[1..], pat, rep);
      assert s == [s[0]] + s[1..];
    }
  }

  /** `''.join(ss)`. */
  function Concat(ss: seq<string>): string {
    if ss == [] then "" else ss[0] + Concat(ss[1..])
  }

  function Digit(d: nat): char
    requires d < 10
  {
    "0123456789"[d]
  }

  predicate IsDigit(c: char) {
    '0' <= c <= '9'
  }

  /** `str(n)` for a natural number: its decimal digits, no leading zero. */
  function Decimal(n: nat): (r: string)
    ensures |r| >= 1 && (n >= 10 ==> |r| >= 2) && (n < 10 ==> |r| == 1)
    ensures forall k :: 0 <= k < |r| ==> IsDigit(r[k])
  {
    if n < 10 then [Digit(n)] else Decimal(n / 10) + [Digit(n % 10)]
  }


  /** The value of a string of ASCII digits, read in base ten. */
  function DigitsValue(s: string): nat
    requires forall k :: 0 <= k < |s| ==> IsDigit(s[k])
    decreases |s|
  {
    if s == [] then 0
    else
      assert IsDigit(s[|s| - 1]);
      DigitsValue(s[..|s| - 1]) * 10 + (s[|s| - 1] as int - '0' as int)
  }

  /** `int(str(n)) == n`, so different numbers have different decimal
      forms. */
  lemma {:induction false} DecimalValue(n: nat)
    ensures DigitsValue(Decimal(n)) == n
    decreases n
  {
    var r := Decimal(n);
    if n >= 10 {
      assert r[..|r| - 1] == Decimal(n / 10);
      DecimalValue(n / 10);
    }
  }

  /** At most two digits below a hundred, and four from a thousand to
      9999. */
  lemma DecimalWidth(n: nat)
    ensures n < 100 ==> |Decimal(n)| <= 2
    ensures 1000 <= n <= 9999 ==> |Decimal(n)| == 4
  {
    if n >= 10 {
      assert |Decimal(n)| == |Decimal(n / 10)| + 1;
      if n >= 100 {
        assert |Decimal(n / 10)| == |Decimal(n / 100)| + 1;
        if n >= 1000 {
          assert n / 10 / 10 / 10 == n / 1000 && n / 10 / 10 == n / 100;
          assert |Decimal(n / 100)| == |Decimal(n / 1000)| + 1;
        }
      }
    }
  }

  /** The end of the longest run of characters satisfying `p` from `i`. */
  function Span(s: string, i: nat, p: char -> bool): (j: nat)
    requires i <= |s|
    ensures i <= j <= |s|
    decreases |s| - i
  {
    if i < |s| && p(s[i]) then Span(s, i + 1, p) else i
  }

  /** Every character of the run satisfies `p`, and the one after it, if
      any, does not. */
  lemma {:induction false} SpanShape(s: string, i: nat, p: char -> bool)
    requires i <= |s|
    ensures forall k :: i <= k < Span(s, i, p) ==> p(s[k])
    ensures Span(s, i, p) < |s| ==> !p(s[Span(s, i, p)])
    decreases |s| - i
  {
    if i < |s| && p(s[i]) {
      SpanShape(s, i + 1, p);
    }
  }

  /** A run that ends where `p` first fails is the span. */
  lemma {:induction false} SpanStops(s: string, i: nat, j: nat, p: char -> bool)
    requires i <= j <= |s|
    requires forall k :: i <= k < j ==> p(s[k])
    requires j < |s| ==> !p(s[j])
    ensures Span(s, i, p) == j
    decreases j - i
  {
    if i < j {
      SpanStops(s, i + 1, j, p);
    }
  }

  /** A run of `p` from `i` to `j` is part of the span. */
  lemma {:induction false} SpanReaches(s: string, i: nat, j: nat, p: char -> bool)
    requires i <= j <= |s|
    requires forall k :: i <= k < j ==> p(s[k])
    ensures Span(s, i, p) >= j
    decreases j - i
  {
    if i < j {
      SpanReaches(s, i + 1, j, p);
    }
  }
}
