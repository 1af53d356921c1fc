/** Tag shapes shared by the version engine (the optional `v` prefix, the
    dotted numeric part, the `-variant` suffix) and the order that
    `packaging.version` puts on dotted numeric strings: the release tuple
    compared left to right with trailing zeros dropped, so `1.0 == 1.0.0`
    and `01 == 1`. Python's `sorted` over that order is a stable insertion
    sort here. */
module Versions {
  import opened Wrappers
  import opened Strs
  import opened Seqs

  /** `tag[1:] if tag.startswith('v') else tag` */
  function StripV(tag: string): (r: string)
    ensures r == tag || (|tag| > 0 && tag[0] == 'v' && r == tag[1..])
  {
    if StartsWith(tag, "v") then tag[1..] else tag
  }

  /** Putting back the stripped `v` gives the tag. */
  lemma StripVRestore(tag: string)
    ensures tag == (if StartsWith(tag, "v") then "v" else "") + StripV(tag)
  {
    if StartsWith(tag, "v") {
      assert tag == tag[..1] + tag[1..];
    }
  }

  lemma StripVDigitFirst(d: string, tail: string)
    requires |d| > 0 && IsDigit(d[0])
    ensures StripV(d + tail) == d + tail
  {
    assert (d + tail)[0] == d[0];
  }

  lemma StripVOfV(t: string)
    ensures StripV("v" + t) == t
  {
    assert ("v" + t)[1..] == t;
  }

  /** `re.sub(r'-.*$', '', s)`: everything before the first `-`. */
  function BeforeDash(s: string): (r: string)
    ensures StartsWith(s, r) && '-' !in r
    ensures |r| < |s| ==> s[|r|] == '-'
  {
    s[..IndexOf(s, '-')]
  }

  /** `s` matches `\d+(\.\d+)*`: dot-separated, non-empty digit groups. */
  predicate IsDotted(s: string) {
    var parts := SplitOn(s, '.');
    forall k :: 0 <= k < |parts| ==> |parts[k]| > 0 && AllDigits(parts[k])
  }

  /** A dotted string holds digits and dots only, and starts with a digit. */
  lemma DottedChars(s: string)
    requires IsDotted(s)
    ensures |s| > 0 && IsDigit(s[0])
    ensures forall x :: x in s ==> IsDigit(x) || x == '.'
  {
    var parts := SplitOn(s, '.');
    SplitJoin(s, '.');
    FirstPieceIsPrefix(s, '.');
    assert s[0] == parts[0][0];
    forall x | x in s && x != '.'
      ensures IsDigit(x)
    {
      JoinChars(parts, '.', x);
      var k :| 0 <= k < |parts| && x in parts[k];
      var j :| 0 <= j < |parts[k]| && parts[k][j] == x;
    }
  }

  /** The base version of a tag, group 1 of `^(v?\d+(\.\d+)*)(-.*)?$`: the
      optional `v` and the dotted part before the first `-`; `None` when the
      tag does not have that shape. */
  function BaseVersion(tag: string): Option<string> {
    var t := StripV(tag);
    var i := IndexOf(t, '-');
    if IsDotted(t[..i]) then Some(tag[..|tag| - |t| + i]) else None
  }

  /** Group 2 of `^v?\d+(\.\d+)*-(.+)$`: the non-empty text after the first
      `-` following the dotted part. */
  function Variant(tag: string): Option<string> {
    var t := StripV(tag);
    var i := IndexOf(t, '-');
    if i + 1 < |t| && IsDotted(t[..i]) then Some(t[i + 1..]) else None
  }

  /** Decimal values of a list of digit strings. */
  function Numbers(parts: seq<string>): (r: seq<nat>)
    requires forall k :: 0 <= k < |parts| ==> AllDigits(parts[k])
    ensures |r| == |parts| && forall k :: 0 <= k < |parts| ==> r[k] == NatOf(parts[k])
  {
    if |parts| == 0 then [] else [NatOf(parts[0])] + Numbers(parts[1..])
  }

  function Release(s: string): seq<nat>
    requires IsDotted(s)
  {
    Numbers(SplitOn(s, '.'))
  }

  function DropTrailingZeros(r: seq<nat>): (t: seq<nat>)
    ensures |t| <= |r| && t == r[..|t|]
    ensures forall k :: |t| <= k < |r| ==> r[k] == 0
    ensures |t| > 0 ==> t[|t| - 1] != 0
  {
    if |r| > 0 && r[|r| - 1] == 0 then DropTrailingZeros(r[..|r| - 1]) else r
  }

  /** The comparison key `packaging.version` gives a dotted numeric string. */
  function Key(s: string): seq<nat>
    requires IsDotted(s)
  {
    DropTrailingZeros(Release(s))
  }

  /** Python tuple order: lexicographic, a proper prefix first. */
  predicate Less(a: seq<nat>, b: seq<nat>) {
    if |a| == 0 then |b| > 0
    else if |b| == 0 then false
    else a[0] < b[0] || (a[0] == b[0] && Less(a[1..], b[1..]))
  }

  lemma {:induction false} LessIrreflexive(a: seq<nat>)
    ensures !Less(a, a)
  {
    if |a| > 0 { LessIrreflexive(a[1..]); }
  }

  lemma {:induction false} LessAsymmetric(a: seq<nat>, b: seq<nat>)
    ensures !(Less(a, b) && Less(b, a))
  {
    if |a| > 0 && |b| > 0 { LessAsymmetric(a[1..], b[1..]); }
  }

  lemma {:induction false} LessTransitive(a: seq<nat>, b: seq<nat>, c: seq<nat>)
    requires Less(a, b) && Less(b, c)
    ensures Less(a, c)
  {
    if |a| > 0 && a[0] == b[0] && b[0] == c[0] {
      LessTransitive(a[1..], b[1..], c[1..]);
    }
  }

  /** Any two distinct keys are ordered one way or the other. */
  lemma {:induction false} LessTotal(a: seq<nat>, b: seq<nat>)
    ensures a == b || Less(a, b) || Less(b, a)
  {
    if |a| > 0 && |b| > 0 && a[0] == b[0] {
      LessTotal(a[1..], b[1..]);
      if a[1..] == b[1..] {
        assert a == [a[0]] + a[1..] && b == [b[0]] + b[1..];
      }
    }
  }

  /** Tuples of equal length compare at their first difference. */
  lemma {:induction false} LessAtDifference(a: seq<nat>, b: seq<nat>, i: nat)
    requires |a| == |b| && i <= |a|
    requires forall q :: 0 <= q < i ==> a[q] == b[q]
    requires i < |a| ==> a[i] != b[i]
    ensures Less(a, b) <==> i < |a| && a[i] < b[i]
  {
    if |a| > 0 && i > 0 {
      LessAtDifference(a[1..], b[1..], i - 1);
    }
  }

  /** The position of the last greatest key; the last element of a stable
      ascending sort comes from there. */
  function LastMaximum(keys: seq<seq<nat>>): (n: nat)
    requires |keys| > 0
    ensures n < |keys|
  {
    if |keys| == 1 then 0
    else
      var m := LastMaximum(keys[..|keys| - 1]);
      if Less(keys[|keys| - 1], keys[m]) then m else |keys| - 1
  }

  /** One more key is picked exactly when it is not smaller than the key
      picked so far. */
  lemma LastMaximumSnoc(keys: seq<seq<nat>>, k: seq<nat>)
    requires |keys| > 0
    ensures LastMaximum(keys + [k]) == if Less(k, keys[LastMaximum(keys)]) then LastMaximum(keys) else |keys|
  {
    var all := keys + [k];
    assert all[..|all| - 1] == keys && all[|all| - 1] == k;
  }

  /** No key is greater than the one `LastMaximum` picks, and every key
      after it is smaller. */
  lemma {:induction false} LastMaximumIsLast(keys: seq<seq<nat>>)
    requires |keys| > 0
    ensures forall j :: 0 <= j < |keys| ==> !Less(keys[LastMaximum(keys)], keys[j])
    ensures forall j :: LastMaximum(keys) < j < |keys| ==> Less(keys[j], keys[LastMaximum(keys)])
  {
    var n := LastMaximum(keys);
    if |keys| == 1 {
      LessIrreflexive(keys[0]);
    } else {
      var prefix := keys[..|keys| - 1];
      var last := keys[|keys| - 1];
      var m := LastMaximum(prefix);
      LastMaximumIsLast(prefix);
      assert forall j :: 0 <= j < |prefix| ==> prefix[j] == keys[j];
      if Less(last, keys[m]) {
        assert n == m;
        LessAsymmetric(last, keys[m]);
      } else {
        assert n == |keys| - 1;
        LessTotal(last, keys[m]);
        LessIrreflexive(last);
        forall j | 0 <= j < |keys|
          ensures !Less(last, keys[j])
        {
          if j < |keys| - 1 && Less(last, keys[j]) {
            assert !Less(prefix[m], prefix[j]);
            if last != keys[m] {
              LessTransitive(keys[m], last, keys[j]);
            }
          }
        }
      }
    }
  }

  lemma SplitTwo(a: string, b: string)
    requires '.' !in a && '.' !in b
    ensures SplitOn(a + "." + b, '.') == [a, b]
  {
    SplitNoSeparator(a, '.');
    SplitNoSeparator(b, '.');
    SplitConcat(a, b, '.');
    assert a + "." + b == a + ['.'] + b;
  }

  lemma SplitThree(a: string, b: string, c: string)
    requires '.' !in a && '.' !in b && '.' !in c
    ensures SplitOn(a + "." + b + "." + c, '.') == [a, b, c]
  {
    var bc := b + "." + c;
    SplitNoSeparator(a, '.');
    SplitTwo(b, c);
    SplitConcat(a, bc, '.');
    assert a + "." + b + "." + c == a + ['.'] + bc;
    assert [a] + [b, c] == [a, b, c];
  }

  /** A string that splits into non-empty digit groups is dotted, and its
      release tuple is the groups' values. */
  lemma DottedParts(s: string, parts: seq<string>)
    requires SplitOn(s, '.') == parts
    requires forall k :: 0 <= k < |parts| ==> |parts[k]| > 0 && AllDigits(parts[k])
    ensures IsDotted(s) && Release(s) == Numbers(parts)
  {
  }

  /** A three-group dotted version and its release tuple. */
  lemma ReleaseOfThree(a: string, b: string, c: string)
    requires |a| > 0 && AllDigits(a) && |b| > 0 && AllDigits(b) && |c| > 0 && AllDigits(c)
    ensures IsDotted(a + "." + b + "." + c) && Release(a + "." + b + "." + c) == [NatOf(a), NatOf(b), NatOf(c)]
  {
    SplitThree(a, b, c);
    DottedParts(a + "." + b + "." + c, [a, b, c]);
    NumbersOfThree(a, b, c);
  }

  lemma NumbersOfThree(a: string, b: string, c: string)
    requires AllDigits(a) && AllDigits(b) && AllDigits(c)
    ensures Numbers([a, b, c]) == [NatOf(a), NatOf(b), NatOf(c)]
  {
    var r := Numbers([a, b, c]);
    assert |r| == 3 && r[0] == NatOf(a) && r[1] == NatOf(b) && r[2] == NatOf(c);
  }

  lemma ReleaseOneZero()
    ensures IsDotted("1.0") && Release("1.0") == [1, 0]
  {
    SplitTwo("1", "0");
    assert "1" + "." + "0" == "1.0";
  }

  lemma ReleaseOneZeroZero()
    ensures IsDotted("1.0.0") && Release("1.0.0") == [1, 0, 0]
  {
    SplitOneZeroZero();
    assert AllDigits("1") && AllDigits("0");
    NumbersOfThree("1", "0", "0");
    assert NatOf("1") == 1 && NatOf("0") == 0;
  }

  lemma SplitOneZeroZero()
    ensures SplitOn("1.0.0", '.') == ["1", "0", "0"]
  {
    SplitThree("1", "0", "0");
    assert "1" + "." + "0" + "." + "0" == "1.0.0";
  }

  /** Trailing zeros do not change a version: `1.0 == 1.0.0`. */
  lemma TrailingZerosIgnored()
    ensures IsDotted("1.0") && IsDotted("1.0.0") && Key("1.0") == Key("1.0.0") == [1]
  {
    ReleaseOneZero();
    ReleaseOneZeroZero();
    assert [1, 0, 0][..2] == [1, 0];
    assert [1, 0][..1] == [1];
  }

  /** Leading zeros do not change a version: `01 == 1`. */
  lemma LeadingZerosIgnored()
    ensures IsDotted("01") && IsDotted("1") && Key("01") == Key("1") == [1]
  {
    SplitNoSeparator("01", '.');
    SplitNoSeparator("1", '.');
    assert NatOf("01") == 1;
    assert Release("01") == [1];
  }

  lemma ReleaseOneTen()
    ensures IsDotted("1.10") && Release("1.10") == [1, 10]
  {
    SplitTwo("1", "10");
    assert "1" + "." + "10" == "1.10";
    assert NatOf("10") == 10;
  }

  lemma ReleaseOneNine()
    ensures IsDotted("1.9") && Release("1.9") == [1, 9]
  {
    SplitTwo("1", "9");
    assert "1" + "." + "9" == "1.9";
  }

  /** Components compare as numbers, not as text: `1.9 < 1.10`. */
  lemma NumericComponents()
    ensures IsDotted("1.10") && IsDotted("1.9") && Less(Key("1.9"), Key("1.10"))
  {
    ReleaseOneTen();
    ReleaseOneNine();
  }

  // ---- Python's sorted(..., key=version) on dotted strings ----

  predicate AllDotted(s: seq<string>) { forall k :: 0 <= k < |s| ==> IsDotted(s[k]) }

  predicate Sorted(s: seq<string>)
    requires AllDotted(s)
  {
    forall k :: 0 < k < |s| ==> !Less(Key(s[k]), Key(s[k - 1]))
  }

  /** Puts `x` after every element whose key is not greater than its own,
      which is what keeps the sort stable. */
  function Insert(s: seq<string>, x: string): (r: seq<string>)
    requires AllDotted(s) && IsDotted(x)
    ensures AllDotted(r) && multiset(r) == multiset(s) + multiset{x}
    ensures |r| == |s| + 1
  {
    if |s| == 0 || Less(Key(x), Key(s[0])) then [x] + s
    else
      assert s == [s[0]] + s[1..];
      [s[0]] + Insert(s[1..], x)
  }

  /** `sorted(s, key=version.parse)`, stable. */
  function SortByVersion(s: seq<string>): (r: seq<string>)
    requires AllDotted(s)
    ensures AllDotted(r) && multiset(r) == multiset(s) && |r| == |s|
  {
    if |s| == 0 then []
    else
      assert s == s[..|s| - 1] + [s[|s| - 1]];
      Insert(SortByVersion(s[..|s| - 1]), s[|s| - 1])
  }

  /** The tail of a sorted list is sorted. */
  lemma SortedTail(s: seq<string>)
    requires AllDotted(s) && Sorted(s) && |s| > 0
    ensures AllDotted(s[1..]) && Sorted(s[1..])
  {
    var t := s[1..];
    forall k | 0 < k < |t|
      ensures !Less(Key(t[k]), Key(t[k - 1]))
    {
      assert t[k] == s[k + 1] && t[k - 1] == s[k];
    }
  }

  /** A sorted list without its last element is sorted. */
  lemma SortedInit(s: seq<string>)
    requires AllDotted(s) && Sorted(s) && |s| > 0
    ensures AllDotted(s[..|s| - 1]) && Sorted(s[..|s| - 1])
  {
    var t := s[..|s| - 1];
    forall k | 0 < k < |t|
      ensures !Less(Key(t[k]), Key(t[k - 1]))
    {
      assert t[k] == s[k] && t[k - 1] == s[k - 1];
    }
  }

  /** A sorted list stays sorted with an element in front that is not
      after its first. */
  lemma SortedCons(h: string, t: seq<string>)
    requires AllDotted(t) && IsDotted(h) && Sorted(t)
    requires |t| > 0 ==> !Less(Key(t[0]), Key(h))
    ensures AllDotted([h] + t) && Sorted([h] + t)
  {
    var s := [h] + t;
    forall k | 0 < k < |s|
      ensures !Less(Key(s[k]), Key(s[k - 1]))
    {
      assert s[k] == t[k - 1];
      if k > 1 {
        assert s[k - 1] == t[k - 2];
      }
    }
  }

  lemma {:induction false} InsertSorted(s: seq<string>, x: string)
    requires AllDotted(s) && IsDotted(x) && Sorted(s)
    ensures Sorted(Insert(s, x))
    ensures |s| > 0 ==> Insert(s, x)[0] == s[0] || Insert(s, x)[0] == x
  {
    if |s| == 0 {
    } else if Less(Key(x), Key(s[0])) {
      LessAsymmetric(Key(x), Key(s[0]));
      SortedCons(x, s);
    } else {
      var t := s[1..];
      SortedTail(s);
      InsertSorted(t, x);
      var u := Insert(t, x);
      assert Insert(s, x) == [s[0]] + u;
      if |t| > 0 && u[0] == t[0] {
        assert t[0] == s[1];
      }
      LessTotal(Key(x), Key(s[0]));
      SortedCons(s[0], u);
    }
  }

  /** The sort returns its input in ascending version order. */
  lemma {:induction false} SortByVersionSorted(s: seq<string>)
    requires AllDotted(s)
    ensures Sorted(SortByVersion(s))
  {
    if |s| > 0 {
      SortByVersionSorted(s[..|s| - 1]);
      InsertSorted(SortByVersion(s[..|s| - 1]), s[|s| - 1]);
    }
  }

  /** The transitivity step read as an implication, usable where its
      premises are not known to hold. */
  lemma LessChain(a: seq<nat>, b: seq<nat>, c: seq<nat>)
    ensures Less(a, b) && Less(b, c) ==> Less(a, c)
  {
    if Less(a, b) && Less(b, c) {
      LessTransitive(a, b, c);
    }
  }

  /** "Not before" is transitive too. */
  lemma NotLessTransitive(a: seq<nat>, b: seq<nat>, c: seq<nat>)
    requires !Less(b, a) && !Less(c, b)
    ensures !Less(c, a)
  {
    LessTotal(a, b);
    LessChain(c, a, b);
  }

  /** In a sorted list the last element is not before the first. */
  lemma {:induction false} SortedEnds(s: seq<string>)
    requires AllDotted(s) && Sorted(s) && |s| > 0
    ensures !Less(Key(s[|s| - 1]), Key(s[0]))
  {
    LessIrreflexive(Key(s[0]));
    if |s| > 1 {
      var t := s[1..];
      SortedTail(s);
      SortedEnds(t);
      assert t[|t| - 1] == s[|s| - 1] && t[0] == s[1];
      NotLessTransitive(Key(s[0]), Key(s[1]), Key(s[|s| - 1]));
    }
  }

  /** An element that is not before the last of a sorted list is inserted
      at its end. */
  lemma {:induction false} InsertAtEnd(s: seq<string>, x: string)
    requires AllDotted(s) && IsDotted(x) && Sorted(s)
    requires |s| > 0 ==> !Less(Key(x), Key(s[|s| - 1]))
    ensures Insert(s, x) == s + [x]
  {
    if |s| > 0 {
      SortedEnds(s);
      NotLessTransitive(Key(s[0]), Key(s[|s| - 1]), Key(x));
      var t := s[1..];
      SortedTail(s);
      if |t| > 0 {
        assert t[|t| - 1] == s[|s| - 1];
      }
      InsertAtEnd(t, x);
      InsertAfterFirst(s, x);
      HeadTail(s, x);
    }
  }

  /** An element not before the first one is inserted into the tail. */
  lemma InsertAfterFirst(s: seq<string>, x: string)
    requires AllDotted(s) && IsDotted(x) && |s| > 0
    requires !Less(Key(x), Key(s[0]))
    ensures AllDotted(s[1..]) && Insert(s, x) == [s[0]] + Insert(s[1..], x)
  {
  }

  /** The sort inserts the last element into the sorted rest. */
  lemma SortByVersionLast(s: seq<string>)
    requires AllDotted(s) && |s| > 0
    ensures AllDotted(s[..|s| - 1]) && SortByVersion(s) == Insert(SortByVersion(s[..|s| - 1]), s[|s| - 1])
  {
  }

  /** The stable sort leaves a list that is already in version order as it
      is. */
  lemma {:induction false} SortByVersionOfSorted(s: seq<string>)
    requires AllDotted(s) && Sorted(s)
    ensures SortByVersion(s) == s
  {
    if |s| > 0 {
      var init := s[..|s| - 1];
      SortedInit(s);
      SortByVersionOfSorted(init);
      if |init| > 0 {
        assert init[|init| - 1] == s[|s| - 2];
      }
      InsertAtEnd(init, s[|s| - 1]);
      SortByVersionLast(s);
      FrontLast(s);
    }
  }

  // ---- stability ----

  /** The test "is a dotted string with key `k`". */
  function KeyIs(k: seq<nat>): string -> bool {
    x => IsDotted(x) && Key(x) == k
  }

  /** A sorted list whose first key is after `k` holds nothing with key `k`. */
  lemma {:induction false} NoKeyBeforeFirst(s: seq<string>, k: seq<nat>)
    requires AllDotted(s) && Sorted(s) && |s| > 0 && Less(k, Key(s[0]))
    ensures Filter(s, KeyIs(k)) == []
  {
    LessIrreflexive(k);
    var t := s[1..];
    if |t| > 0 {
      SortedTail(s);
      assert t[0] == s[1];
      LessTotal(Key(s[0]), Key(s[1]));
      LessChain(k, Key(s[0]), Key(s[1]));
      NoKeyBeforeFirst(t, k);
    }
  }

  /** Inserting into a sorted list puts `x` after every element with its
      key, so the elements with any one key keep their order and `x` comes
      last among its own. */
  lemma {:induction false} InsertStable(s: seq<string>, x: string, k: seq<nat>)
    requires AllDotted(s) && IsDotted(x) && Sorted(s)
    ensures Filter(Insert(s, x), KeyIs(k)) == Filter(s, KeyIs(k)) + Filter([x], KeyIs(k))
  {
    if |s| == 0 {
      assert Insert(s, x) == [x];
      AppendEmpty(Filter([x], KeyIs(k)));
    } else if Less(Key(x), Key(s[0])) {
      if Key(x) == k {
        NoKeyBeforeFirst(s, k);
      } else {
        assert Filter([x], KeyIs(k)) == [];
      }
      FilterConcat([x], s, KeyIs(k));
    } else {
      var t := s[1..];
      SortedTail(s);
      InsertStable(t, x, k);
      InsertAfterFirst(s, x);
      FilterConcat([s[0]], Insert(t, x), KeyIs(k));
      HeadTail(s, x);
      FilterConcat([s[0]], t, KeyIs(k));
      AppendAssoc(Filter([s[0]], KeyIs(k)), Filter(t, KeyIs(k)), Filter([x], KeyIs(k)));
    }
  }

  /** The sort is stable: the elements with any one key come out in the
      order they went in. */
  lemma {:induction false} SortByVersionStable(s: seq<string>, k: seq<nat>)
    requires AllDotted(s)
    ensures Filter(SortByVersion(s), KeyIs(k)) == Filter(s, KeyIs(k))
  {
    if |s| > 0 {
      var init := s[..|s| - 1];
      var x := s[|s| - 1];
      SortByVersionStable(init, k);
      SortByVersionSorted(init);
      SortByVersionLast(s);
      InsertStable(SortByVersion(init), x, k);
      FrontLast(s);
      FilterConcat(init, [x], KeyIs(k));
    }
  }
}
