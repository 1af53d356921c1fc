/** Order-preserving filtering (Python's list comprehension with an `if`)
    and the sublist relation it produces. */
module Seqs {
  import opened Wrappers

  /** `[x for x in s if f(x)]` */
  function Filter<T>(s: seq<T>, f: T -> bool): (r: seq<T>)
    ensures |r| <= |s|
    ensures forall k :: 0 <= k < |r| ==> f(r[k])
  {
    if |s| == 0 then [] else (if f(s[0]) then [s[0]] else []) + Filter(s[1..], f)
  }

  /** `a` is `b` with some elements removed, the rest kept in order. */
  predicate IsSublist<T(==)>(a: seq<T>, b: seq<T>) {
    if |a| == 0 then true
    else if |b| == 0 then false
    else if a[0] == b[0] then IsSublist(a[1..], b[1..])
    else IsSublist(a, b[1..])
  }

  /** Dropping the first element of a sublist leaves a sublist. */
  lemma {:induction false} SublistTail<T>(a: seq<T>, b: seq<T>)
    requires |a| > 0 && IsSublist(a, b)
    ensures IsSublist(a[1..], b)
    decreases |a| + |b|, 0
  {
    if a[0] == b[0] {
      SublistCons(a[1..], b[1..], b[0]);
    } else {
      SublistTail(a, b[1..]);
      SublistCons(a[1..], b[1..], b[0]);
    }
    assert b == [b[0]] + b[1..];
  }

  /** Every list is a sublist of itself. */
  lemma {:induction false} SublistRefl<T>(s: seq<T>)
    ensures IsSublist(s, s)
  {
    if |s| > 0 { SublistRefl(s[1..]); }
  }

  /** A sublist of `b` is a sublist of `b` with anything put in front. */
  lemma {:induction false} SublistCons<T>(a: seq<T>, b: seq<T>, x: T)
    requires IsSublist(a, b)
    ensures IsSublist(a, [x] + b)
    decreases |a| + |b|, 1
  {
    assert ([x] + b)[1..] == b;
    if |a| > 0 && a[0] == x {
      SublistTail(a, b);
    }
  }

  /** A sublist of a sublist is a sublist. */
  lemma {:induction false} SublistTrans<T>(a: seq<T>, b: seq<T>, c: seq<T>)
    requires IsSublist(a, b) && IsSublist(b, c)
    ensures IsSublist(a, c)
    decreases |c|
  {
    if |a| > 0 {
      if b[0] == c[0] && a[0] == b[0] {
        SublistTrans(a[1..], b[1..], c[1..]);
      } else {
        if b[0] == c[0] {
          SublistTrans(a, b[1..], c[1..]);
        } else {
          SublistTrans(a, b, c[1..]);
        }
        if a[0] == c[0] {
          SublistTail(a, c[1..]);
        }
      }
    }
  }

  /** The filtered list is an order-preserving sublist of the input that
      keeps exactly the elements satisfying `f`. */
  lemma {:induction false} FilterIsSublist<T>(s: seq<T>, f: T -> bool)
    ensures IsSublist(Filter(s, f), s)
    ensures forall x :: x in Filter(s, f) <==> x in s && f(x)
  {
    if |s| > 0 {
      FilterIsSublist(s[1..], f);
      assert s == [s[0]] + s[1..];
      if !f(s[0]) {
        assert Filter(s, f) == Filter(s[1..], f);
        SublistCons(Filter(s[1..], f), s[1..], s[0]);
      }
    }
  }

  /** The filtered list is empty exactly when no element passes. */
  lemma {:induction false} FilterNonEmpty<T>(s: seq<T>, f: T -> bool)
    ensures |Filter(s, f)| > 0 <==> exists i :: 0 <= i < |s| && f(s[i])
  {
    if |s| > 0 {
      FilterNonEmpty(s[1..], f);
      if exists i :: 0 <= i < |s| && f(s[i]) {
        var i :| 0 <= i < |s| && f(s[i]);
        if i > 0 {
          assert f(s[1..][i - 1]);
        }
      }
      if exists i :: 0 <= i < |s| - 1 && f(s[1..][i]) {
        var i :| 0 <= i < |s| - 1 && f(s[1..][i]);
        assert f(s[i + 1]);
      }
    }
  }

  /** Filtering with a test every element passes keeps the whole list. */
  lemma {:induction false} FilterAll<T>(s: seq<T>, f: T -> bool)
    requires forall k :: 0 <= k < |s| ==> f(s[k])
    ensures Filter(s, f) == s
  {
    if |s| > 0 { FilterAll(s[1..], f); }
  }

  /** Filtering distributes over concatenation. */
  lemma {:induction false} FilterConcat<T>(a: seq<T>, b: seq<T>, f: T -> bool)
    ensures Filter(a + b, f) == Filter(a, f) + Filter(b, f)
  {
    if |a| > 0 {
      assert (a + b)[1..] == a[1..] + b;
      FilterConcat(a[1..], b, f);
    } else {
      assert a + b == b;
    }
  }

  /** Filtering a suffix: its first element, if it passes, then the rest. */
  lemma FilterStep<T>(s: seq<T>, i: nat, f: T -> bool)
    requires i < |s|
    ensures Filter(s[i..], f) == (if f(s[i]) then [s[i]] else []) + Filter(s[i + 1..], f)
  {
    assert s[i..][1..] == s[i + 1..];
  }

  /** `[f(x) for x in s]` */
  function Map<T, U>(s: seq<T>, f: T -> U): (r: seq<U>)
    ensures |r| == |s| && forall j :: 0 <= j < |s| ==> r[j] == f(s[j])
  {
    if |s| == 0 then [] else [f(s[0])] + Map(s[1..], f)
  }

  /** Mapping one more element of a prefix appends its image. */
  lemma MapOneMore<T, U>(s: seq<T>, i: nat, f: T -> U)
    requires i < |s|
    ensures Map(s[..i + 1], f) == Map(s[..i], f) + [f(s[i])]
  {
  }

  /** What `f` gives each neighbouring pair of `s`, in order, the pairs it
      gives nothing for left out. */
  function PairValues<T, U>(s: seq<T>, f: (T, T) -> Option<U>): seq<U> {
    if |s| < 2 then []
    else
      var v := f(s[|s| - 2], s[|s| - 1]);
      PairValues(s[..|s| - 1], f) + (if v.Some? then [v.value] else [])
  }

  /** Two elements make one pair. */
  lemma PairValuesOfTwo<T, U>(a: T, b: T, f: (T, T) -> Option<U>)
    ensures PairValues([a, b], f) == if f(a, b).Some? then [f(a, b).value] else []
  {
    assert [a, b][..1] == [a];
  }

  /** One more element adds the value of the pair it ends. */
  lemma PairValuesOneMore<T, U>(s: seq<T>, i: nat, f: (T, T) -> Option<U>)
    requires 1 <= i < |s|
    ensures var v := f(s[i - 1], s[i]);
            PairValues(s[..i + 1], f) == PairValues(s[..i], f) + (if v.Some? then [v.value] else [])
  {
    assert s[..i + 1][..i] == s[..i];
  }

  /** A value is among the pair values exactly when some neighbouring pair
      has it. */
  lemma {:induction false} PairValuesOfPairs<T, U>(s: seq<T>, f: (T, T) -> Option<U>, v: U)
    ensures v in PairValues(s, f) <==> exists i :: 1 <= i < |s| && f(s[i - 1], s[i]) == Some(v)
  {
    if |s| >= 2 {
      var init := s[..|s| - 1];
      PairValuesOfPairs(init, f, v);
      if exists i :: 1 <= i < |init| && f(init[i - 1], init[i]) == Some(v) {
        var i :| 1 <= i < |init| && f(init[i - 1], init[i]) == Some(v);
        assert f(s[i - 1], s[i]) == Some(v);
      }
      if exists i :: 1 <= i < |s| && f(s[i - 1], s[i]) == Some(v) {
        var i :| 1 <= i < |s| && f(s[i - 1], s[i]) == Some(v);
        if i < |s| - 1 {
          assert f(init[i - 1], init[i]) == Some(v);
        }
      }
    }
  }

  /** Number of occurrences of `x` in `s`. */
  function Count<T(==)>(s: seq<T>, x: T): (n: nat)
    ensures n <= |s|
    ensures n > 0 <==> x in s
  {
    if |s| == 0 then 0 else (if s[0] == x then 1 else 0) + Count(s[1..], x)
  }

  /** Index of the first occurrence of `x` in `s` (`|s|` when absent). */
  function FirstIndex<T(==)>(s: seq<T>, x: T): (i: nat)
    ensures i <= |s|
    ensures i < |s| <==> x in s
    ensures i < |s| ==> s[i] == x
    ensures forall k :: 0 <= k < i ==> s[k] != x
  {
    if |s| == 0 then 0 else if s[0] == x then 0 else 1 + FirstIndex(s[1..], x)
  }

  /** The position `FirstWhere` finds is the only one before which nothing
      satisfies `f` and at which (unless it is the end) `f` holds. */
  lemma FirstWhereUnique<T>(s: seq<T>, f: T -> bool, k: nat)
    requires k <= |s|
    requires forall j :: 0 <= j < k ==> !f(s[j])
    requires k < |s| ==> f(s[k])
    ensures k == FirstWhere(s, f)
  {
  }

  /** Index of the first element satisfying `f` (`|s|` when none does). */
  function FirstWhere<T>(s: seq<T>, f: T -> bool): (k: nat)
    ensures k <= |s|
    ensures forall j :: 0 <= j < k ==> !f(s[j])
    ensures k < |s| ==> f(s[k])
  {
    if |s| == 0 then 0 else if f(s[0]) then 0 else 1 + FirstWhere(s[1..], f)
  }

  /** The distinct keys `f` files the elements under, in the order each key
      is first seen (the key order of a dictionary filled left to right). */
  function FirstSeen<T, K(==)>(s: seq<T>, f: T -> Option<K>): seq<K> {
    if |s| == 0 then []
    else
      var prev := FirstSeen(s[..|s| - 1], f);
      var c := f(s[|s| - 1]);
      if c.Some? && c.value !in prev then prev + [c.value] else prev
  }

  /** The test "filed under key `k`". */
  function FiledUnder<T, K(==)>(f: T -> Option<K>, k: K): T -> bool {
    x => f(x) == Some(k)
  }

  /** The elements filed under key `k`, in input order. */
  function Group<T, K(==)>(s: seq<T>, f: T -> Option<K>, k: K): seq<T> {
    Filter(s, FiledUnder(f, k))
  }

  /** A key is seen exactly when some element is filed under it, and then
      its group is not empty. */
  lemma {:induction false} FirstSeenGroups<T, K>(s: seq<T>, f: T -> Option<K>, k: K)
    ensures k in FirstSeen(s, f) <==> exists i :: 0 <= i < |s| && f(s[i]) == Some(k)
    ensures k in FirstSeen(s, f) <==> |Group(s, f, k)| > 0
  {
    if |s| > 0 {
      var prefix := s[..|s| - 1];
      FirstSeenGroups(prefix, f, k);
      if exists i :: 0 <= i < |prefix| && f(prefix[i]) == Some(k) {
        var i :| 0 <= i < |prefix| && f(prefix[i]) == Some(k);
        assert f(s[i]) == Some(k);
      }
      if exists i :: 0 <= i < |s| && f(s[i]) == Some(k) {
        var i :| 0 <= i < |s| && f(s[i]) == Some(k);
        if i < |prefix| {
          assert f(prefix[i]) == Some(k);
        }
      }
    }
    FilterNonEmpty(s, FiledUnder(f, k));
  }

  /** One step of filing `s[i]` under its key in a dictionary whose keys,
      in insertion order, are `order`: a new key is appended to `order`, and
      the element to its key's group. */
  lemma FileOneMore<T, K>(s: seq<T>, f: T -> Option<K>, i: nat, order: seq<K>, groups: map<K, seq<T>>)
    requires i < |s| && order == FirstSeen(s[..i], f)
    requires forall b :: b in groups <==> b in order
    requires forall b :: b in groups ==> groups[b] == Group(s[..i], f, b)
    ensures var c := f(s[i]);
            var order' := if c.Some? && c.value !in groups then order + [c.value] else order;
            var groups' := if c.Some?
                           then groups[c.value := (if c.value in groups then groups[c.value] else []) + [s[i]]]
                           else groups;
            && order' == FirstSeen(s[..i + 1], f)
            && (forall b :: b in groups' <==> b in order')
            && (forall b :: b in groups' ==> groups'[b] == Group(s[..i + 1], f, b))
  {
    var x := s[i];
    TakeOneMore(s, i);
    var t := s[..i + 1];
    assert t[..|t| - 1] == s[..i] && t[|t| - 1] == x;
    assert FirstSeen(t, f) == if f(x).Some? && f(x).value !in order then order + [f(x).value] else order;
    forall b
      ensures Group(t, f, b) == Group(s[..i], f, b) + (if f(x) == Some(b) then [x] else [])
      ensures b !in order ==> Group(s[..i], f, b) == []
    {
      GroupSnoc(s[..i], x, f, b);
      FirstSeenGroups(s[..i], f, b);
    }
    var c := f(x);
    var order' := if c.Some? && c.value !in groups then order + [c.value] else order;
    var groups' := if c.Some?
                   then groups[c.value := (if c.value in groups then groups[c.value] else []) + [x]]
                   else groups;
    assert order' == FirstSeen(t, f);
    assert forall b :: b in groups' <==> b in order';
    forall b | b in groups'
      ensures groups'[b] == Group(t, f, b)
    {
      GroupSnoc(s[..i], x, f, b);
      FirstSeenGroups(s[..i], f, b);
      if c.Some? && b == c.value {
        var before := if b in groups then groups[b] else [];
        assert before == Group(s[..i], f, b);
        assert groups'[b] == before + [x];
      } else {
        assert f(x) != Some(b);
        assert Group(t, f, b) == Group(s[..i], f, b) + [];
      }
    }
  }

  /** No key is seen twice. */
  lemma {:induction false} FirstSeenDistinct<T, K>(s: seq<T>, f: T -> Option<K>)
    ensures forall i, j :: 0 <= i < j < |FirstSeen(s, f)| ==> FirstSeen(s, f)[i] != FirstSeen(s, f)[j]
  {
    if |s| > 0 {
      FirstSeenDistinct(s[..|s| - 1], f);
    }
  }

  /** Filing one more element appends it to its own key's group only. */
  lemma GroupSnoc<T, K>(s: seq<T>, x: T, f: T -> Option<K>, k: K)
    ensures Group(s + [x], f, k) == Group(s, f, k) + (if f(x) == Some(k) then [x] else [])
  {
    FilterConcat(s, [x], FiledUnder(f, k));
  }

  // ---- counting with a dictionary (`defaultdict(int)`, then `max`) ----

  /** Appending one element adds one to its own count only. */
  lemma {:induction false} CountSnoc<T>(s: seq<T>, x: T, y: T)
    ensures Count(s + [x], y) == Count(s, y) + (if x == y then 1 else 0)
  {
    if |s| > 0 {
      assert (s + [x])[1..] == s[1..] + [x];
      CountSnoc(s[1..], x, y);
    } else {
      assert [x][1..] == [];
    }
  }

  /** Appending does not move the first occurrence of what was already there. */
  lemma {:induction false} FirstIndexSnoc<T>(s: seq<T>, x: T, y: T)
    ensures FirstIndex(s + [x], y) == if y in s then FirstIndex(s, y) else if x == y then |s| else |s| + 1
  {
    if |s| > 0 {
      assert (s + [x])[1..] == s[1..] + [x];
      FirstIndexSnoc(s[1..], x, y);
    } else {
      assert [x][1..] == [];
    }
  }

  /** The distinct elements of `s` in order of first appearance: the keys of
      a dictionary filled from `s` left to right. */
  function Distinct<T(==)>(s: seq<T>): (d: seq<T>)
    ensures forall k :: 0 <= k < |d| ==> d[k] in s
    ensures forall k :: 0 <= k < |s| ==> s[k] in d
    ensures forall i, j :: 0 <= i < j < |d| ==> d[i] != d[j]
  {
    if |s| == 0 then []
    else
      var p := Distinct(s[..|s| - 1]);
      assert s == s[..|s| - 1] + [s[|s| - 1]];
      if s[|s| - 1] in p then p else p + [s[|s| - 1]]
  }

  /** A sequence has keys exactly when it is not empty. */
  lemma DistinctEmpty<T>(s: seq<T>)
    ensures |Distinct(s)| == 0 <==> |s| == 0
  {
    if |s| > 0 {
      assert s[0] in Distinct(s);
    }
  }

  /** The counts a `defaultdict(int)` holds after `counts[x] += 1` for each
      `x` of `xs` in turn. */
  function Tally<T(==)>(xs: seq<T>): map<T, nat> {
    if |xs| == 0 then map[]
    else
      var counts := Tally(xs[..|xs| - 1]);
      var x := xs[|xs| - 1];
      counts[x := if x in counts then counts[x] + 1 else 1]
  }

  /** The tally holds a key exactly for each element, and its number of
      occurrences. */
  lemma {:induction false} TallyCounts<T>(xs: seq<T>, k: T)
    ensures k in Tally(xs) <==> k in xs
    ensures k in Tally(xs) ==> Tally(xs)[k] == Count(xs, k)
  {
    if |xs| > 0 {
      var init := xs[..|xs| - 1];
      assert xs == init + [xs[|xs| - 1]];
      TallyCounts(init, k);
      CountSnoc(init, xs[|xs| - 1], k);
    }
  }

  /** Counting one more element: a new key goes last in the key order. */
  lemma TallySnoc<T>(xs: seq<T>, x: T)
    ensures Distinct(xs + [x]) == if x in Tally(xs) then Distinct(xs) else Distinct(xs) + [x]
    ensures Tally(xs + [x]) == Tally(xs)[x := if x in Tally(xs) then Tally(xs)[x] + 1 else 1]
  {
    assert (xs + [x])[..|xs|] == xs;
    TallyCounts(xs, x);
  }

  /** `counts[x] += 1` on a dictionary whose keys are `order`, when both
      tally `xs`, tallies `xs` with `x` appended. */
  lemma TallyStep<T>(order: seq<T>, counts: map<T, nat>, xs: seq<T>, x: T)
    requires order == Distinct(xs) && counts == Tally(xs)
    ensures (if x in counts then order else order + [x]) == Distinct(xs + [x])
    ensures counts[x := if x in counts then counts[x] + 1 else 1] == Tally(xs + [x])
  {
    TallySnoc(xs, x);
  }

  /** The keys come in the order their first occurrences do. */
  lemma {:induction false} DistinctOrder<T>(s: seq<T>)
    ensures forall i, j :: 0 <= i < j < |Distinct(s)| ==> FirstIndex(s, Distinct(s)[i]) < FirstIndex(s, Distinct(s)[j])
  {
    if |s| > 0 {
      var prefix := s[..|s| - 1];
      var x := s[|s| - 1];
      FrontLast(s);
      DistinctOrder(prefix);
      var p := Distinct(prefix);
      var d := Distinct(s);
      FirstIndexOfFront(prefix, x);
      forall i, j | 0 <= i < j < |d|
        ensures FirstIndex(s, d[i]) < FirstIndex(s, d[j])
      {
        assert d[i] == p[i];
      }
    }
  }

  /** First occurrences in `s + [x]`: those of `s` stay, and a new `x`
      comes last. */
  lemma FirstIndexOfFront<T>(s: seq<T>, x: T)
    ensures forall y :: y in s ==> FirstIndex(s + [x], y) == FirstIndex(s, y) < |s|
    ensures x !in s ==> FirstIndex(s + [x], x) == |s|
  {
    forall y | y in s
      ensures FirstIndex(s + [x], y) == FirstIndex(s, y) < |s|
    {
      FirstIndexSnoc(s, x, y);
    }
    FirstIndexSnoc(s, x, x);
  }

  /** Positions among the keys compare like first occurrences do. */
  lemma DistinctPositions<T>(s: seq<T>, a: nat, b: nat)
    requires a < |Distinct(s)| && b < |Distinct(s)|
    ensures a < b <==> FirstIndex(s, Distinct(s)[a]) < FirstIndex(s, Distinct(s)[b])
  {
    DistinctOrder(s);
    if b < a {
      assert FirstIndex(s, Distinct(s)[b]) < FirstIndex(s, Distinct(s)[a]);
    }
  }

  /** `max(keys, key=count)`: of the keys with the largest count in `xs`,
      the first (`max` only replaces its pick by a strictly larger one). */
  function FirstMaximal<T(==)>(keys: seq<T>, xs: seq<T>): (m: T)
    requires |keys| > 0
    ensures m in keys
    ensures forall k :: k in keys ==> Count(xs, k) <= Count(xs, m)
  {
    if |keys| == 1 then keys[0]
    else
      var b := FirstMaximal(keys[..|keys| - 1], xs);
      var last := keys[|keys| - 1];
      assert keys == keys[..|keys| - 1] + [last];
      if Count(xs, last) > Count(xs, b) then last else b
  }

  /** One more key replaces the pick only when its count is strictly larger. */
  lemma FirstMaximalSnoc<T>(keys: seq<T>, x: T, xs: seq<T>)
    requires |keys| > 0
    ensures FirstMaximal(keys + [x], xs)
         == if Count(xs, x) > Count(xs, FirstMaximal(keys, xs)) then x else FirstMaximal(keys, xs)
  {
    assert (keys + [x])[..|keys|] == keys;
  }

  /** One step of `max(counts, key=counts.get)` over the tally's keys: the
      next key replaces the pick only when its count is strictly larger. */
  lemma FirstMaximalStep<T>(order: seq<T>, counts: map<T, nat>, xs: seq<T>, j: nat, best: T)
    requires order == Distinct(xs) && counts == Tally(xs)
    requires 1 <= j < |order| && best == FirstMaximal(order[..j], xs) && best in xs
    ensures order[j] in xs && order[j] in counts && best in counts
    ensures (if counts[order[j]] > counts[best] then order[j] else best) == FirstMaximal(order[..j + 1], xs)
  {
    TallyCounts(xs, order[j]);
    TallyCounts(xs, best);
    FirstMaximalSnoc(order[..j], order[j], xs);
    TakeOneMore(order, j);
  }

  /** The shortest and the longest non-empty prefixes. */
  lemma TakeEnds<T>(s: seq<T>)
    requires |s| > 0
    ensures s[..1] == [s[0]] && s[..|s|] == s
  {
  }

  /** The whole sequence is its longest prefix. */
  lemma TakeAll<T>(s: seq<T>)
    ensures s[..|s|] == s
  {
  }

  /** A longer prefix is the shorter one with the next element appended. */
  lemma TakeOneMore<T>(s: seq<T>, j: nat)
    requires j < |s|
    ensures s[..j + 1] == s[..j] + [s[j]]
  {
  }

  /** Every key before the pick has a strictly smaller count. */
  lemma {:induction false} FirstMaximalIsFirst<T>(keys: seq<T>, xs: seq<T>)
    requires |keys| > 0
    ensures forall j :: 0 <= j < FirstIndex(keys, FirstMaximal(keys, xs)) ==> Count(xs, keys[j]) < Count(xs, FirstMaximal(keys, xs))
  {
    if |keys| > 1 {
      var init := keys[..|keys| - 1];
      var last := keys[|keys| - 1];
      assert keys == init + [last];
      var b := FirstMaximal(init, xs);
      var m := FirstMaximal(keys, xs);
      FirstMaximalIsFirst(init, xs);
      FirstIndexSnoc(init, last, m);
      if m == last && last != b {
        assert m !in init;
        forall j | 0 <= j < FirstIndex(keys, m)
          ensures Count(xs, keys[j]) < Count(xs, m)
        {
          assert keys[j] == init[j];
        }
      } else {
        forall j | 0 <= j < FirstIndex(keys, m)
          ensures Count(xs, keys[j]) < Count(xs, m)
        {
          assert keys[j] == init[j];
        }
      }
    }
  }

  /** The most common element of `xs`, ties going to the one seen first:
      `max(counts.items(), key=lambda x: x[1])[0]` over a dictionary of
      counts filled from `xs`. */
  function MostCommon<T(==)>(xs: seq<T>): T
    requires |xs| > 0
  {
    FirstMaximal(Distinct(xs), xs)
  }

  /** The most common element occurs in `xs`, no element occurs more often,
      and every element first seen before it occurs strictly less often. */
  lemma MostCommonIsFirstMostFrequent<T>(xs: seq<T>)
    requires |xs| > 0
    ensures MostCommon(xs) in xs
    ensures forall y :: y in xs ==> Count(xs, y) <= Count(xs, MostCommon(xs))
    ensures forall y :: y in xs && FirstIndex(xs, y) < FirstIndex(xs, MostCommon(xs)) ==> Count(xs, y) < Count(xs, MostCommon(xs))
  {
    var d := Distinct(xs);
    var m := MostCommon(xs);
    DistinctOrder(xs);
    FirstMaximalIsFirst(d, xs);
    forall y | y in xs && FirstIndex(xs, y) < FirstIndex(xs, m)
      ensures Count(xs, y) < Count(xs, m)
    {
      var a := FirstIndex(d, y);
      var b := FirstIndex(d, m);
      assert d[a] == y && d[b] == m;
      DistinctPositions(xs, a, b);
    }
  }

  /** A list of one value over and over has that value as most common. */
  lemma MostCommonOfConstant<T>(xs: seq<T>, v: T)
    requires |xs| > 0 && forall k :: 0 <= k < |xs| ==> xs[k] == v
    ensures MostCommon(xs) == v
  {
    assert xs[0] in xs;
  }

  /** The values `f` gives for the elements it accepts, in order: a loop
      that appends `f(x)` for each `x` when there is one. */
  function Collect<T, U>(s: seq<T>, f: T -> Option<U>): (r: seq<U>)
    ensures |r| <= |s|
  {
    if |s| == 0 then []
    else
      var rest := Collect(s[1..], f);
      match f(s[0])
      case Some(v) => [v] + rest
      case None => rest
  }

  /** Collecting over two blocks, one after the other. */
  lemma {:induction false} CollectConcat<T, U>(a: seq<T>, b: seq<T>, f: T -> Option<U>)
    ensures Collect(a + b, f) == Collect(a, f) + Collect(b, f)
  {
    if |a| > 0 {
      assert (a + b)[1..] == a[1..] + b;
      assert (a + b)[0] == a[0];
      CollectConcat(a[1..], b, f);
    } else {
      assert a + b == b;
    }
  }

  /** An accepted element contributes its value, placed after the values
      of the elements before it. */
  lemma CollectEntry<T, U>(s: seq<T>, f: T -> Option<U>, j: nat)
    requires j < |s| && f(s[j]).Some?
    ensures var n := |Collect(s[..j], f)|;
            n < |Collect(s, f)| && Collect(s, f)[n] == f(s[j]).value
  {
    assert s == s[..j] + ([s[j]] + s[j + 1..]);
    CollectConcat(s[..j], [s[j]] + s[j + 1..], f);
    assert ([s[j]] + s[j + 1..])[1..] == s[j + 1..];
  }

  /** Every collected value is what `f` gives for some element. */
  lemma {:induction false} CollectSource<T, U>(s: seq<T>, f: T -> Option<U>, k: nat)
    requires k < |Collect(s, f)|
    ensures exists j :: 0 <= j < |s| && f(s[j]) == Some(Collect(s, f)[k])
  {
    var rest := Collect(s[1..], f);
    if f(s[0]).Some? && k == 0 {
      assert f(s[0]) == Some(Collect(s, f)[0]);
    } else {
      var k' := if f(s[0]).Some? then k - 1 else k;
      assert Collect(s, f)[k] == rest[k'];
      CollectSource(s[1..], f, k');
      var j :| 0 <= j < |s| - 1 && f(s[1..][j]) == Some(rest[k']);
      assert f(s[j + 1]) == Some(Collect(s, f)[k]);
    }
  }

  /** Nothing is collected exactly when `f` accepts no element. */
  lemma {:induction false} CollectEmpty<T, U>(s: seq<T>, f: T -> Option<U>)
    ensures Collect(s, f) == [] <==> forall j :: 0 <= j < |s| ==> f(s[j]).None?
  {
    if |s| > 0 {
      CollectEmpty(s[1..], f);
      if forall j :: 0 <= j < |s| - 1 ==> f(s[1..][j]).None? {
        forall j | 0 < j < |s| ensures f(s[j]).None? {
          assert s[j] == s[1..][j - 1];
        }
      }
      if exists j :: 0 <= j < |s| - 1 && f(s[1..][j]).Some? {
        var j :| 0 <= j < |s| - 1 && f(s[1..][j]).Some?;
        assert f(s[j + 1]).Some?;
      }
    }
  }

  /** One step of collecting: the first element's value, then the rest. */
  lemma CollectHead<T, U>(s: seq<T>, f: T -> Option<U>)
    requires |s| > 0
    ensures Collect(s, f) == (if f(s[0]).Some? then [f(s[0]).value] else []) + Collect(s[1..], f)
  {
  }

  lemma AppendAssoc<T>(a: seq<T>, b: seq<T>, c: seq<T>)
    ensures a + (b + c) == (a + b) + c
  {
  }

  /** A non-empty sequence is its head before its tail. */
  lemma HeadTail<T>(s: seq<T>, x: T)
    requires |s| > 0
    ensures s == [s[0]] + s[1..] && s + [x] == [s[0]] + (s[1..] + [x])
  {
  }

  /** A non-empty sequence is its front before its last element. */
  lemma FrontLast<T>(s: seq<T>)
    requires |s| > 0
    ensures s == s[..|s| - 1] + [s[|s| - 1]]
  {
  }

  /** The front and the last element of a concatenation with a non-empty
      second part. */
  lemma ConcatFront<T>(a: seq<T>, b: seq<T>)
    requires |b| > 0
    ensures (a + b)[..|a + b| - 1] == a + b[..|b| - 1] && (a + b)[|a + b| - 1] == b[|b| - 1]
  {
  }

  /** A sequence is what comes before position `j`, the element there and
      what comes after. */
  lemma SplitAt<T>(s: seq<T>, j: nat)
    requires j < |s|
    ensures s == s[..j] + ([s[j]] + s[j + 1..])
  {
    assert s[j..] == [s[j]] + s[j + 1..];
    assert s == s[..j] + s[j..];
  }

  /** Appending nothing changes nothing. */
  lemma AppendEmpty<T>(a: seq<T>)
    ensures a + [] == a && [] + a == a
  {
  }
}
