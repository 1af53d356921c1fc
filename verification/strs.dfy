/** The part of Python's `str` and `re` behaviour that the version engine
    relies on: digit runs (`re.findall(r'\d+', s)`), `str.strip`,
    `str.split`, `str.startswith`, the `in` substring test, `int(...)` of a
    digit string and `str(n)` of an integer. `\d` is read as `[0-9]`;
    Python's other Unicode decimal digits are not modelled. */
module Strs {

  predicate IsDigit(c: char) { '0' <= c <= '9' }

  predicate AllDigits(s: string) { forall i :: 0 <= i < |s| ==> IsDigit(s[i]) }

  /** Python's whitespace (`str.isspace`, which is also what `\s` matches in a
      `str` pattern). */
  predicate IsSpace(c: char) {
    || ('\t' <= c <= '\r')
    || ('\U{1c}' <= c <= '\U{1f}')
    || c == ' ' || c == '\U{85}' || c == '\U{a0}' || c == '\U{1680}'
    || ('\U{2000}' <= c <= '\U{200a}')
    || c == '\U{2028}' || c == '\U{2029}' || c == '\U{202f}' || c == '\U{205f}' || c == '\U{3000}'
  }

  /** `s.startswith(p)` */
  predicate StartsWith(s: string, p: string) { |p| <= |s| && s[..|p|] == p }

  /** A one-character prefix is the first character. */
  lemma StartsWithChar(s: string, c: char)
    ensures StartsWith(s, [c]) <==> |s| > 0 && s[0] == c
  {
    if |s| > 0 && s[0] == c {
      assert s[..1] == [c];
    }
    if StartsWith(s, [c]) {
      assert s[..1][0] == s[0];
    }
  }

  /** `sub in s` for strings */
  predicate Contains(s: string, sub: string) {
    StartsWith(s, sub) || (|s| > 0 && Contains(s[1..], sub))
  }

  /** Index of the first `c` in `s`, or `|s|` when there is none. */
  function IndexOf(s: string, c: char): (r: nat)
    ensures r <= |s|
    ensures forall k :: 0 <= k < r ==> s[k] != c
    ensures r < |s| ==> s[r] == c
  {
    if |s| == 0 then 0 else if s[0] == c then 0 else 1 + IndexOf(s[1..], c)
  }

  lemma {:induction false} IndexOfConcat(a: string, b: string, c: char)
    requires c !in a
    ensures IndexOf(a + b, c) == |a| + IndexOf(b, c)
  {
    if |a| > 0 {
      assert (a + b)[1..] == a[1..] + b;
      IndexOfConcat(a[1..], b, c);
    } else {
      assert a + b == b;
    }
  }

  /** `s.lstrip()` */
  function TrimLeft(s: string): (r: string)
    ensures |r| <= |s| && r == s[|s| - |r|..]
  {
    if |s| > 0 && IsSpace(s[0]) then TrimLeft(s[1..]) else s
  }

  lemma {:induction false} TrimLeftMeaning(s: string)
    ensures var r := TrimLeft(s);
            && (forall k :: 0 <= k < |s| - |r| ==> IsSpace(s[k]))
            && (|r| > 0 ==> !IsSpace(r[0]))
  {
    if |s| > 0 && IsSpace(s[0]) {
      TrimLeftMeaning(s[1..]);
    }
  }

  /** `s.rstrip()` */
  function TrimRight(s: string): (r: string)
    ensures |r| <= |s| && r == s[..|r|]
  {
    if |s| > 0 && IsSpace(s[|s| - 1]) then TrimRight(s[..|s| - 1]) else s
  }

  lemma {:induction false} TrimRightMeaning(s: string)
    ensures var r := TrimRight(s);
            && (forall k :: |r| <= k < |s| ==> IsSpace(s[k]))
            && (|r| > 0 ==> !IsSpace(r[|r| - 1]))
  {
    if |s| > 0 && IsSpace(s[|s| - 1]) {
      TrimRightMeaning(s[..|s| - 1]);
    }
  }

  /** `s.strip()`: `s` without its leading and trailing whitespace. */
  function Strip(s: string): (r: string)
    ensures |r| <= |s|
  {
    TrimRight(TrimLeft(s))
  }

  /** What `strip` keeps is the slice between the leading and the trailing
      whitespace; it is blank exactly for an all-whitespace string. */
  lemma StripMeaning(s: string)
    ensures var r := Strip(s);
            && (exists i, j :: 0 <= i <= j <= |s| && r == s[i..j]
                  && (forall k :: 0 <= k < i ==> IsSpace(s[k]))
                  && (forall k :: j <= k < |s| ==> IsSpace(s[k])))
            && (|r| > 0 ==> !IsSpace(r[0]) && !IsSpace(r[|r| - 1]))
            && (r == "" <==> forall k :: 0 <= k < |s| ==> IsSpace(s[k]))
  {
    var l := TrimLeft(s);
    TrimLeftMeaning(s);
    TrimRightMeaning(l);
    StripShape(s, l, Strip(s));
  }

  /** The shape of what `strip` keeps, from what its two halves keep. */
  lemma StripShape(s: string, l: string, r: string)
    requires |r| <= |l| <= |s| && l == s[|s| - |l|..] && r == l[..|r|]
    requires (forall k :: 0 <= k < |s| - |l| ==> IsSpace(s[k])) && (|l| > 0 ==> !IsSpace(l[0]))
    requires (forall k :: |r| <= k < |l| ==> IsSpace(l[k])) && (|r| > 0 ==> !IsSpace(r[|r| - 1]))
    ensures && (exists i, j :: 0 <= i <= j <= |s| && r == s[i..j]
                  && (forall k :: 0 <= k < i ==> IsSpace(s[k]))
                  && (forall k :: j <= k < |s| ==> IsSpace(s[k])))
            && (|r| > 0 ==> !IsSpace(r[0]) && !IsSpace(r[|r| - 1]))
            && (r == "" <==> forall k :: 0 <= k < |s| ==> IsSpace(s[k]))
  {
    var i := |s| - |l|;
    var j := i + |r|;
    SliceOfSuffix(s, l, r);
    forall k | j <= k < |s|
      ensures IsSpace(s[k])
    {
      assert s[k] == l[k - i];
    }
    if |r| > 0 {
      assert r[0] == l[0] && r[0] == s[i];
    }
  }

  /** A prefix of a suffix of `s` is a slice of `s`. */
  lemma SliceOfSuffix(s: string, l: string, r: string)
    requires |r| <= |l| <= |s| && l == s[|s| - |l|..] && r == l[..|r|]
    ensures r == s[|s| - |l|..|s| - |l| + |r|]
  {
  }

  /** Stripping twice strips nothing more. */
  lemma StripIdempotent(s: string)
    ensures Strip(Strip(s)) == Strip(s)
  {
    StripMeaning(s);
    var r := Strip(s);
    if |r| > 0 {
      assert TrimLeft(r) == r;
      assert TrimRight(r) == r;
    }
  }

  /** A line read from a file keeps its line break, which `strip` drops
      together with nothing else when the text has no whitespace at its
      ends. */
  lemma StripLineBreak(w: string)
    requires |w| > 0 && !IsSpace(w[0]) && !IsSpace(w[|w| - 1])
    ensures Strip(w + "\n") == w && Strip(w) == w
  {
    assert TrimLeft(w + "\n") == w + "\n";
    assert (w + "\n")[..|w|] == w;
    assert TrimRight(w) == w;
  }

  /** Length of the run of digits at the start of `s`. */
  function LeadingDigits(s: string): (n: nat)
    ensures n <= |s| && AllDigits(s[..n])
    ensures n < |s| ==> !IsDigit(s[n])
  {
    if |s| > 0 && IsDigit(s[0]) then 1 + LeadingDigits(s[1..]) else 0
  }

  /** `re.findall(r'\d+', s)`: the maximal runs of digits, left to right. */
  function DigitRuns(s: string): (runs: seq<string>)
    ensures forall k :: 0 <= k < |runs| ==> |runs[k]| > 0 && AllDigits(runs[k])
    ensures runs == [] <==> forall k :: 0 <= k < |s| ==> !IsDigit(s[k])
  {
    if |s| == 0 then []
    else if !IsDigit(s[0]) then DigitRuns(s[1..])
    else
      var n := LeadingDigits(s);
      [s[..n]] + DigitRuns(s[n..])
  }

  /** A non-digit separator splits the digit runs of both sides apart. */
  lemma {:induction false} DigitRunsConcat(a: string, c: char, b: string)
    requires !IsDigit(c)
    ensures DigitRuns(a + [c] + b) == DigitRuns(a) + DigitRuns(b)
    decreases |a|, 1
  {
    var s := a + [c] + b;
    if |a| == 0 {
      assert s == [c] + b && s[1..] == b;
    } else if !IsDigit(a[0]) {
      assert s[1..] == a[1..] + [c] + b;
      DigitRunsConcat(a[1..], c, b);
    } else {
      DigitRunsConcatDigitFirst(a, c, b);
    }
  }

  lemma {:induction false} DigitRunsConcatDigitFirst(a: string, c: char, b: string)
    requires !IsDigit(c) && |a| > 0 && IsDigit(a[0])
    ensures DigitRuns(a + [c] + b) == DigitRuns(a) + DigitRuns(b)
    decreases |a|, 0
  {
    var s := a + [c] + b;
    var m := LeadingDigits(a);
    var rest := DigitRuns(a[m..] + [c] + b);
    assert DigitRuns(s) == [a[..m]] + rest by {
      LeadingDigitsConcat(a, [c] + b);
      SliceOfAppended(a, c, b, m);
      DigitRunsOfDigitFirst(s);
    }
    assert DigitRuns(a) == [a[..m]] + DigitRuns(a[m..]) by {
      DigitRunsOfDigitFirst(a);
    }
    DigitRunsConcat(a[m..], c, b);
    assert [a[..m]] + (DigitRuns(a[m..]) + DigitRuns(b)) == [a[..m]] + DigitRuns(a[m..]) + DigitRuns(b);
  }

  /** The digit runs of a text starting with a digit: its leading run, then
      the runs of the rest. */
  lemma DigitRunsOfDigitFirst(s: string)
    requires |s| > 0 && IsDigit(s[0])
    ensures DigitRuns(s) == [s[..LeadingDigits(s)]] + DigitRuns(s[LeadingDigits(s)..])
  {
  }

  /** Cutting `a + [c] + b` inside `a`. */
  lemma SliceOfAppended(a: string, c: char, b: string, m: nat)
    requires m <= |a|
    ensures a + [c] + b == a + ([c] + b)
    ensures (a + [c] + b)[..m] == a[..m]
    ensures (a + [c] + b)[m..] == a[m..] + [c] + b
  {
  }

  /** The leading digit run of `a + b` is that of `a` when `a` is not all
      digits, or when `b` starts with a non-digit. */
  lemma {:induction false} LeadingDigitsConcat(a: string, b: string)
    requires LeadingDigits(a) < |a| || (|b| > 0 && !IsDigit(b[0]))
    ensures LeadingDigits(a + b) == LeadingDigits(a)
  {
    if |a| > 0 && IsDigit(a[0]) {
      assert (a + b)[1..] == a[1..] + b;
      LeadingDigitsConcat(a[1..], b);
    }
  }

  /** Leading non-digits contribute no digit run. */
  lemma {:induction false} DigitRunsSkip(a: string, b: string)
    requires forall k :: 0 <= k < |a| ==> !IsDigit(a[k])
    ensures DigitRuns(a + b) == DigitRuns(b)
  {
    if |a| > 0 {
      assert (a + b)[0] == a[0] && (a + b)[1..] == a[1..] + b;
      DigitRunsSkip(a[1..], b);
    } else {
      assert a + b == b;
    }
  }

  /** A run of digits followed by a non-digit (or nothing) is the first run. */
  lemma FirstRun(d: string, rest: string)
    requires |d| > 0 && AllDigits(d)
    requires |rest| == 0 || !IsDigit(rest[0])
    ensures |DigitRuns(d + rest)| > 0 && DigitRuns(d + rest)[0] == d
  {
    AllDigitsLeading(d);
    if |rest| > 0 {
      LeadingDigitsConcat(d, rest);
    } else {
      assert d + rest == d;
    }
    assert (d + rest)[..|d|] == d;
  }

  /** A string of digits is a single run. */
  lemma DigitRunsOfDigits(s: string)
    requires |s| > 0 && AllDigits(s)
    ensures DigitRuns(s) == [s]
  {
    AllDigitsLeading(s);
    assert s[..|s|] == s && s[|s|..] == "";
  }

  lemma {:induction false} AllDigitsLeading(s: string)
    requires AllDigits(s)
    ensures LeadingDigits(s) == |s|
  {
    if |s| > 0 { AllDigitsLeading(s[1..]); }
  }

  /** Sum of the lengths of a list of strings. */
  function TotalLength(parts: seq<string>): nat {
    if |parts| == 0 then 0 else |parts[0]| + TotalLength(parts[1..])
  }

  /** Empty text around `x` adds nothing. */
  lemma EmptyAround(x: string)
    ensures "" + x + "" == x && "" + x == x && x + "" == x
  {
  }

  lemma TotalLengthThree(a: string, b: string, c: string)
    ensures TotalLength([a, b, c]) == |a| + |b| + |c|
  {
    assert [a, b, c][1..] == [b, c] && [b, c][1..] == [c] && [c][1..] == [];
    assert TotalLength([c]) == |c|;
  }

  lemma {:induction false} TotalLengthConcat(a: seq<string>, b: seq<string>)
    ensures TotalLength(a + b) == TotalLength(a) + TotalLength(b)
  {
    if |a| > 0 {
      assert (a + b)[1..] == a[1..] + b;
      TotalLengthConcat(a[1..], b);
    } else {
      assert a + b == b;
    }
  }

  function DigitValue(c: char): nat requires IsDigit(c) { (c as int - '0' as int) as nat }

  function DigitChar(d: nat): (c: char)
    requires d < 10
    ensures IsDigit(c) && DigitValue(c) == d
  {
    ('0' as int + d) as char
  }

  /** `int(s)` of a string of decimal digits (leading zeros allowed). */
  function NatOf(s: string): nat
    requires AllDigits(s)
  {
    if |s| == 0 then 0 else 10 * NatOf(s[..|s| - 1]) + DigitValue(s[|s| - 1])
  }

  /** `str(n)` of a non-negative integer: decimal, no leading zero. */
  function NatToString(n: nat): (s: string)
    ensures |s| > 0 && AllDigits(s)
    ensures |s| > 1 ==> s[0] != '0'
  {
    if n < 10 then [DigitChar(n)] else NatToString(n / 10) + [DigitChar(n % 10)]
  }

  /** `str(i)` of any integer. */
  function IntToString(i: int): string {
    if i < 0 then "-" + NatToString(-i) else NatToString(i)
  }

  /** Reading back what `str` wrote gives the number again. */
  lemma {:induction false} NatToStringRoundTrip(n: nat)
    ensures NatOf(NatToString(n)) == n
  {
    if n >= 10 {
      NatToStringRoundTrip(n / 10);
      var s := NatToString(n);
      assert s[..|s| - 1] == NatToString(n / 10);
    }
  }

  /** `str` is injective, so two numbers print alike only when equal. */
  lemma NatToStringInjective(m: nat, n: nat)
    ensures NatToString(m) == NatToString(n) <==> m == n
  {
    if NatToString(m) == NatToString(n) {
      NatToStringRoundTrip(m);
      NatToStringRoundTrip(n);
    }
  }

  /** `s.split(c)`: the pieces between occurrences of `c`; never empty. */
  function SplitOn(s: string, c: char): (parts: seq<string>)
    ensures |parts| >= 1
    ensures forall k, j :: 0 <= k < |parts| && 0 <= j < |parts[k]| ==> parts[k][j] != c
  {
    if |s| == 0 then [""]
    else
      var rest := SplitOn(s[1..], c);
      if s[0] == c then [""] + rest else [[s[0]] + rest[0]] + rest[1..]
  }

  /** `sep.join(parts)` for a one-character separator. */
  function Join(parts: seq<string>, c: char): string {
    if |parts| == 0 then "" else if |parts| == 1 then parts[0] else parts[0] + [c] + Join(parts[1..], c)
  }

  /** Joining two non-empty lists puts one separator between the halves. */
  lemma {:induction false} JoinConcat(a: seq<string>, b: seq<string>, c: char)
    requires |a| > 0 && |b| > 0
    ensures Join(a + b, c) == Join(a, c) + [c] + Join(b, c)
  {
    if |a| > 1 {
      assert (a + b)[1..] == a[1..] + b;
      JoinConcat(a[1..], b, c);
    } else {
      assert (a + b)[1..] == b;
    }
  }

  /** Joining pieces free of the separator and splitting again gives the
      pieces back. */
  lemma {:induction false} JoinSplit(parts: seq<string>, c: char)
    requires |parts| >= 1 && forall k :: 0 <= k < |parts| ==> c !in parts[k]
    ensures SplitOn(Join(parts, c), c) == parts
  {
    if |parts| == 1 {
      SplitNoSeparator(parts[0], c);
    } else {
      JoinSplit(parts[1..], c);
      SplitNoSeparator(parts[0], c);
      SplitConcat(parts[0], Join(parts[1..], c), c);
      assert parts == [parts[0]] + parts[1..];
    }
  }

  /** Every character of a join is the separator or comes from a piece. */
  lemma {:induction false} JoinChars(parts: seq<string>, c: char, x: char)
    requires x in Join(parts, c) && x != c
    ensures exists k :: 0 <= k < |parts| && x in parts[k]
  {
    if |parts| > 1 {
      var rest := Join(parts[1..], c);
      assert Join(parts, c) == parts[0] + [c] + rest;
      if x !in parts[0] {
        assert x in rest;
        JoinChars(parts[1..], c, x);
        var k :| 0 <= k < |parts| - 1 && x in parts[1..][k];
        assert x in parts[k + 1];
      }
    }
  }

  /** The digit runs of dot-joined digit groups are the groups themselves. */
  lemma {:induction false} DigitRunsOfJoin(groups: seq<string>, c: char)
    requires !IsDigit(c)
    requires forall k :: 0 <= k < |groups| ==> |groups[k]| > 0 && AllDigits(groups[k])
    ensures DigitRuns(Join(groups, c)) == groups
  {
    if |groups| == 1 {
      DigitRunsOfDigits(groups[0]);
    } else if |groups| > 1 {
      DigitRunsOfJoin(groups[1..], c);
      DigitRunsOfDigits(groups[0]);
      DigitRunsConcat(groups[0], c, Join(groups[1..], c));
      assert groups == [groups[0]] + groups[1..];
    }
  }

  /** The first piece of a split is a prefix of the string. */
  lemma {:induction false} FirstPieceIsPrefix(s: string, c: char)
    ensures StartsWith(s, SplitOn(s, c)[0])
  {
    if |s| > 0 && s[0] != c {
      FirstPieceIsPrefix(s[1..], c);
    }
  }

  /** A string that starts with a separator-free `sub` has a first piece that
      starts with `sub`. */
  lemma {:induction false} StartsWithFirstPiece(s: string, sub: string, c: char)
    requires StartsWith(s, sub) && c !in sub
    ensures StartsWith(SplitOn(s, c)[0], sub)
  {
    if |sub| > 0 {
      assert s[0] == sub[0];
      StartsWithFirstPiece(s[1..], sub[1..], c);
    }
  }

  /** An occurrence of a separator-free `sub` lies inside one piece. */
  lemma {:induction false} ContainedInAPiece(s: string, sub: string, c: char)
    requires Contains(s, sub) && c !in sub
    ensures exists k :: 0 <= k < |SplitOn(s, c)| && Contains(SplitOn(s, c)[k], sub)
  {
    var parts := SplitOn(s, c);
    if StartsWith(s, sub) {
      StartsWithFirstPiece(s, sub, c);
      assert Contains(parts[0], sub);
    } else {
      ContainedInAPiece(s[1..], sub, c);
      var rest := SplitOn(s[1..], c);
      var k' :| 0 <= k' < |rest| && Contains(rest[k'], sub);
      if s[0] == c {
        assert parts[k' + 1] == rest[k'];
      } else if k' == 0 {
        assert parts[0] == [s[0]] + rest[0];
        assert parts[0][1..] == rest[0];
      } else {
        assert parts[k'] == rest[k'];
      }
    }
  }

  /** A string containing a non-empty `sub` contains its first character. */
  lemma {:induction false} ContainsFirstChar(s: string, sub: string)
    requires Contains(s, sub) && |sub| > 0
    ensures sub[0] in s
  {
    if StartsWith(s, sub) {
      assert s[0] == sub[0];
    } else {
      ContainsFirstChar(s[1..], sub);
      var k :| 0 <= k < |s| - 1 && s[1..][k] == sub[0];
      assert s[k + 1] == sub[0];
    }
  }

  /** Whatever contains `r` contains every prefix of `r`. */
  lemma {:induction false} ContainsPrefixOf(s: string, r: string, p: string)
    requires Contains(s, r) && StartsWith(r, p)
    ensures Contains(s, p)
  {
    if StartsWith(s, r) {
      assert s[..|p|] == r[..|p|];
    } else {
      ContainsPrefixOf(s[1..], r, p);
    }
  }

  /** Whatever contains `r` contains every suffix of `r`. */
  lemma {:induction false} ContainsSuffixOf(s: string, r: string, p: string, q: string)
    requires Contains(s, r) && r == p + q
    ensures Contains(s, q)
    decreases |s|, |p|
  {
    if |p| > 0 {
      ContainsSuffixOf(s, r, p[..|p| - 1], [p[|p| - 1]] + q);
      ContainsTail(s, [p[|p| - 1]] + q);
    } else if StartsWith(s, r) {
      assert r == q;
    } else {
      ContainsSuffixOf(s[1..], r, p, q);
    }
  }

  /** Containing `[x] + q` means containing `q`. */
  lemma {:induction false} ContainsTail(s: string, q: string)
    requires |q| > 0 && Contains(s, q)
    ensures Contains(s, q[1..])
  {
    if StartsWith(s, q) {
      assert s[1..][..|q| - 1] == q[1..];
    } else {
      ContainsTail(s[1..], q);
    }
  }

  /** Splitting and joining again gives back the original string. */
  lemma {:induction false} SplitJoin(s: string, c: char)
    ensures Join(SplitOn(s, c), c) == s
  {
    if |s| > 0 {
      SplitJoin(s[1..], c);
      var rest := SplitOn(s[1..], c);
      if s[0] == c {
        assert s == [c] + s[1..];
      } else if |rest| == 1 {
        assert s == [s[0]] + s[1..];
      } else {
        assert Join(rest, c) == rest[0] + [c] + Join(rest[1..], c);
        assert s == [s[0]] + s[1..];
      }
    }
  }

  /** A string without the separator is a single piece. */
  lemma {:induction false} SplitNoSeparator(s: string, c: char)
    requires c !in s
    ensures SplitOn(s, c) == [s]
  {
    if |s| > 0 {
      SplitNoSeparator(s[1..], c);
      assert s == [s[0]] + s[1..];
    }
  }

  /** Splitting at a separator character splits the pieces on both sides of
      it independently. */
  lemma {:induction false} SplitConcat(a: string, b: string, c: char)
    ensures SplitOn(a + [c] + b, c) == SplitOn(a, c) + SplitOn(b, c)
  {
    if |a| == 0 {
      assert (a + [c] + b)[1..] == b;
    } else {
      var s := a + [c] + b;
      assert s[0] == a[0] && s[1..] == a[1..] + [c] + b;
      SplitConcat(a[1..], b, c);
      var front := SplitOn(a[1..], c);
      if a[0] == c {
        assert SplitOn(s, c) == [""] + (front + SplitOn(b, c));
      } else {
        var rest := front + SplitOn(b, c);
        assert SplitOn(s, c) == [[a[0]] + rest[0]] + rest[1..];
        assert rest[0] == front[0] && rest[1..] == front[1..] + SplitOn(b, c);
      }
    }
  }

  /** Python's `str.lower()` as far as equality with an ASCII word goes: the
      ASCII capitals and the Kelvin sign (U+212A) lower to ASCII letters;
      every other character that `lower()` changes yields at least one
      character outside ASCII, so it can never help to equal such a word. */
  function LowerChar(c: char): char {
    if 'A' <= c <= 'Z' then (c as int + 32) as char
    else if c == '\U{212a}' then 'k'
    else c
  }

  function Lower(s: string): (r: string)
    ensures |r| == |s| && forall k :: 0 <= k < |s| ==> r[k] == LowerChar(s[k])
  {
    if |s| == 0 then "" else [LowerChar(s[0])] + Lower(s[1..])
  }
}
