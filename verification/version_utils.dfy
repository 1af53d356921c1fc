/** The version engine: the LTS policy check, the gap between the current
    and the recommended tag, and the detection of the version level (1 for
    major, 2 for minor, 3 for patch) that matters for an image. Custom rules
    are a map from image name to the rule loaded for it. */
module VersionUtils {
  import opened Wrappers
  import opened Strs
  import opened Seqs
  import opened Versions
  import opened RegistryUtils

  /** The custom rule of one image: each key of the JSON object is optional. */
  datatype Rule = Rule(
    level: Option<int>,
    ltsVersions: Option<seq<int>>,
    skipVersions: Option<seq<string>>,
    stepBy: Option<int>)

  /** `custom_rules`: `None` and `{}` are both the empty map. */
  type Rules = map<string, Rule>

  // ---------------------------------------------------------------------
  // check_lts_version
  // ---------------------------------------------------------------------

  /** `re.search(r'^\D*(\d+)', tag)`: the first run of digits, as a number. */
  function Major(tag: string): (m: Option<nat>)
    ensures m.None? <==> forall k :: 0 <= k < |tag| ==> !IsDigit(tag[k])
  {
    var runs := DigitRuns(tag);
    if |runs| == 0 then None else Some(NatOf(runs[0]))
  }

  /** The major read back from a written tag is the number written after
      its non-digit prefix. */
  lemma MajorOfWritten(prefix: string, n: nat, rest: string)
    requires forall k :: 0 <= k < |prefix| ==> !IsDigit(prefix[k])
    requires |rest| == 0 || !IsDigit(rest[0])
    ensures Major(prefix + NatToString(n) + rest) == Some(n)
  {
    var d := NatToString(n);
    assert prefix + d + rest == prefix + (d + rest);
    DigitRunsSkip(prefix, d + rest);
    FirstRun(d, rest);
    NatToStringRoundTrip(n);
  }

  /** Moving off an LTS release is allowed onto another LTS release, or past
      an LTS release that lies between the two; a side without a number, or
      a current release that is no LTS, is never held back. */
  predicate LtsUpgradeAllowed(lts: seq<int>, current: Option<nat>, recommended: Option<nat>) {
    || current.None?
    || recommended.None?
    || current.value !in lts
    || recommended.value in lts
    || exists l :: l in lts && current.value < l < recommended.value
  }

  /** `check_lts_version`: the policy applies only to images whose rule
      lists LTS versions. */
  predicate LtsValid(currentTag: string, recommendedTag: string, rules: Rules, imageBase: string) {
    || imageBase !in rules
    || rules[imageBase].ltsVersions.None?
    || LtsUpgradeAllowed(rules[imageBase].ltsVersions.value, Major(currentTag), Major(recommendedTag))
  }

  /** `sorted(xs)` for integers. */
  function SortInts(xs: seq<int>): (r: seq<int>)
    ensures multiset(r) == multiset(xs) && |r| == |xs|
    ensures forall i, j :: 0 <= i < j < |r| ==> r[i] <= r[j]
  {
    if |xs| == 0 then []
    else
      assert xs == xs[..|xs| - 1] + [xs[|xs| - 1]];
      InsertInt(SortInts(xs[..|xs| - 1]), xs[|xs| - 1])
  }

  function InsertInt(s: seq<int>, x: int): (r: seq<int>)
    requires forall i, j :: 0 <= i < j < |s| ==> s[i] <= s[j]
    ensures multiset(r) == multiset(s) + multiset{x} && |r| == |s| + 1
    ensures forall i, j :: 0 <= i < j < |r| ==> r[i] <= r[j]
    ensures |s| > 0 ==> r[0] == s[0] || r[0] == x
  {
    if |s| == 0 || x <= s[0] then [x] + s
    else
      assert s == [s[0]] + s[1..];
      [s[0]] + InsertInt(s[1..], x)
  }

  /** `check_lts_version`: the majors are the first digit runs of the two
      tags; the next LTS release is the first one above the current major
      in the sorted LTS list. */
  method CheckLtsVersion(currentTag: string, recommendedTag: string, rules: Rules, imageBase: string)
    returns (valid: bool)
    ensures valid == LtsValid(currentTag, recommendedTag, rules, imageBase)
  {
    if imageBase !in rules || rules[imageBase].ltsVersions.None? {
      return true;
    }
    var lts := rules[imageBase].ltsVersions.value;
    var currentMajor: Option<nat> := None;
    if currentTag != "" {
      currentMajor := Major(currentTag);
    }
    var recommendedMajor: Option<nat> := None;
    if recommendedTag != "" {
      recommendedMajor := Major(recommendedTag);
    }
    assert currentMajor == Major(currentTag) && recommendedMajor == Major(recommendedTag);
    if currentMajor.Some? && currentMajor.value !in lts {
      return true;
    }
    if recommendedMajor.Some? && recommendedMajor.value in lts {
      return true;
    }
    if currentMajor.Some? && recommendedMajor.Some? {
      var cm := currentMajor.value;
      var rm := recommendedMajor.value;
      var sorted := SortInts(lts);
      var nextLts: Option<int> := None;
      var k := 0;
      while k < |sorted|
        invariant 0 <= k <= |sorted|
        invariant nextLts.None?
        invariant forall q :: 0 <= q < k ==> sorted[q] <= cm
      {
        if sorted[k] > cm {
          nextLts := Some(sorted[k]);
          break;
        }
        k := k + 1;
      }
      if nextLts.Some? && nextLts.value != 0 && rm > nextLts.value {
        assert sorted[k] in multiset(lts);
        assert sorted[k] in lts && cm < sorted[k] < rm;
        return true;
      }
      NoLtsBetween(lts, sorted, k, cm, rm);
      return false;
    }
    return true;
  }

  /** When the first LTS release above `cm` in the sorted list is not below
      `rm` (or there is none), no LTS release lies strictly between. */
  lemma NoLtsBetween(lts: seq<int>, sorted: seq<int>, k: nat, cm: int, rm: int)
    requires multiset(sorted) == multiset(lts)
    requires forall i, j :: 0 <= i < j < |sorted| ==> sorted[i] <= sorted[j]
    requires k <= |sorted|
    requires forall q :: 0 <= q < k ==> sorted[q] <= cm
    requires k < |sorted| ==> rm <= sorted[k]
    requires k == |sorted| || cm < sorted[k]
    ensures forall l :: l in lts ==> !(cm < l < rm)
  {
    forall l | l in lts
      ensures !(cm < l < rm)
    {
      assert l in multiset(sorted);
      var q :| 0 <= q < |sorted| && sorted[q] == l;
      assert q < k || sorted[k] <= sorted[q];
    }
  }

  /** For plain numeric tags the check is the policy on the two numbers. */
  lemma LtsOnNumbers(c: nat, r: nat, lts: seq<int>)
    ensures LtsValid(NatToString(c), NatToString(r), map["node" := Rule(None, Some(lts), None, None)], "node")
        <==> LtsUpgradeAllowed(lts, Some(c), Some(r))
  {
    MajorOfWritten("", c, "");
    MajorOfWritten("", r, "");
    EmptyAround(NatToString(c));
    EmptyAround(NatToString(r));
  }

  /** The documented examples, with the LTS releases 16, 18, 20 and 22 of
      `node`: staying on or moving between LTS releases is allowed. */
  lemma LtsExamplesAllowed()
    ensures var rules := map["node" := Rule(None, Some([16, 18, 20, 22]), None, None)];
            && LtsValid("16", "16", rules, "node")
            && LtsValid("16", "18", rules, "node")
            && LtsValid("18", "20", rules, "node")
  {
    LtsOnNumbers(16, 16, [16, 18, 20, 22]);
    LtsOnNumbers(16, 18, [16, 18, 20, 22]);
    LtsOnNumbers(18, 20, [16, 18, 20, 22]);
    NodeReleasesWritten();
  }

  /** Leaving LTS release 16 for the next, non-LTS release 17 is refused. */
  lemma LtsRefusedSixteenToSeventeen()
    ensures !LtsValid("16", "17", map["node" := Rule(None, Some([16, 18, 20, 22]), None, None)], "node")
  {
    var lts := [16, 18, 20, 22];
    LtsOnNumbers(16, 17, lts);
    NodeReleasesWritten();
    assert !LtsUpgradeAllowed(lts, Some(16), Some(17));
  }

  /** Leaving LTS release 18 for the next, non-LTS release 19 is refused. */
  lemma LtsRefusedEighteenToNineteen()
    ensures !LtsValid("18", "19", map["node" := Rule(None, Some([16, 18, 20, 22]), None, None)], "node")
  {
    var lts := [16, 18, 20, 22];
    LtsOnNumbers(18, 19, lts);
    NodeReleasesWritten();
    assert !LtsUpgradeAllowed(lts, Some(18), Some(19));
  }

  /** A non-LTS release may move anywhere. */
  lemma LtsFromNonLts()
    ensures var rules := map["node" := Rule(None, Some([16, 18, 20, 22]), None, None)];
            && LtsValid("17", "18", rules, "node")
            && LtsValid("17", "19", rules, "node")
  {
    var lts := [16, 18, 20, 22];
    LtsOnNumbers(17, 18, lts);
    LtsOnNumbers(17, 19, lts);
    NodeReleasesWritten();
    assert 17 !in lts;
  }

  /** How `str` writes the release numbers of the examples above. */
  lemma NodeReleasesWritten()
    ensures NatToString(16) == "16"
    ensures NatToString(17) == "17"
    ensures NatToString(18) == "18"
    ensures NatToString(19) == "19"
    ensures NatToString(20) == "20"
  {
  }

  /** Moving past the next LTS release is allowed: 16 to 19 passes 18. */
  lemma LtsPastNextLts()
    ensures LtsValid("16", "19", map["node" := Rule(None, Some([16, 18, 20, 22]), None, None)], "node")
  {
    var lts := [16, 18, 20, 22];
    LtsOnNumbers(16, 19, lts);
    NodeReleasesWritten();
    assert 18 in lts;
  }

  /** An image without an LTS list is not checked. */
  lemma LtsExamplesNoRule()
    ensures LtsValid("3.9", "3.10", map[], "python")
    ensures LtsValid("3.9", "3.10", map["node" := Rule(None, Some([16, 18, 20, 22]), None, None)], "python")
  {
  }

  /** A tag without digits is never held back. */
  lemma LtsNumberless(currentTag: string, recommendedTag: string, rules: Rules, imageBase: string)
    requires (forall k :: 0 <= k < |currentTag| ==> !IsDigit(currentTag[k]))
          || (forall k :: 0 <= k < |recommendedTag| ==> !IsDigit(recommendedTag[k]))
    ensures LtsValid(currentTag, recommendedTag, rules, imageBase)
  {
  }

  // ---------------------------------------------------------------------
  // calculate_version_gap
  // ---------------------------------------------------------------------

  /** The gap in versions and the versions in between, newest last. */
  datatype Gap = Gap(gap: int, missing: seq<string>)

  /** The three numbers of a tag: the digit runs before its first `-` once
      the `v` is stripped, padded with zeros or cut to three; `None` when
      there is no digit. */
  function Components(tag: string): (c: Option<seq<nat>>)
    ensures c.Some? ==> |c.value| == 3
    ensures c.None? <==> DigitRuns(BeforeDash(StripV(tag))) == []
  {
    var runs := DigitRuns(BeforeDash(StripV(tag)));
    if |runs| == 0 then None
    else Some([Component(runs, 0), Component(runs, 1), Component(runs, 2)])
  }

  /** `int(parts[k])` once the runs are padded with `'0'`. */
  function Component(runs: seq<string>, k: nat): nat
    requires forall q :: 0 <= q < |runs| ==> AllDigits(runs[q])
  {
    if k < |runs| then NatOf(runs[k]) else 0
  }

  /** The versions `skip_versions` names for the image. */
  function SkipVersions(rules: Rules, imageBase: string): seq<string> {
    if imageBase in rules && rules[imageBase].skipVersions.Some? then rules[imageBase].skipVersions.value else []
  }

  /** The `step_by` of the image's rule, if any. */
  function StepBy(rules: Rules, imageBase: string): Option<int> {
    if imageBase in rules then rules[imageBase].stepBy else None
  }

  /** The number of components `range(version_level)` compares. */
  function Compared(level: int): (n: nat)
    ensures n <= 3
  {
    if level < 0 then 0 else if level > 3 then 3 else level
  }

  /** The first of the first `n` positions where `c` and `r` differ, or `n`. */
  function FirstDifference(c: seq<nat>, r: seq<nat>, n: nat): (i: nat)
    requires n <= |c| && n <= |r|
    ensures i <= n
    ensures forall q :: 0 <= q < i ==> c[q] == r[q]
    ensures i < n ==> c[i] != r[i]
  {
    if n == 0 then 0
    else
      var i := FirstDifference(c, r, n - 1);
      if i < n - 1 || c[n - 1] != r[n - 1] then i else n
  }

  /** What is written before the changing number of a missing version:
      nothing for a major, `<major>.` for a minor, `<major>.<minor>.` for a
      patch. */
  function Head(c: seq<nat>, i: nat): string
    requires |c| == 3
  {
    if i == 0 then ""
    else if i == 1 then NatToString(c[0]) + "."
    else NatToString(c[0]) + "." + NatToString(c[1]) + "."
  }

  /** The versions `prefix + head + str(j)` for `lo < j <= hi` whose number
      `str(j)` is not skipped, in ascending order. */
  function Missing(prefix: string, head: string, lo: nat, hi: nat, skip: seq<string>): seq<string>
    decreases hi
  {
    if hi <= lo then []
    else
      var rest := Missing(prefix, head, lo, hi - 1, skip);
      if NatToString(hi) in skip then rest else rest + [prefix + head + NatToString(hi)]
  }

  /** Python's `int(a / b)`: the quotient truncated toward zero. */
  function TruncDiv(a: int, b: int): int
    requires b != 0
  {
    if (a >= 0) == (b > 0) then Abs(a) / Abs(b) else -(Abs(a) / Abs(b))
  }

  function Abs(a: int): nat { if a < 0 then -a else a }

  /** The gap under a `step_by` rule for a major difference `diff > 0`:
      `int(steps)` when `steps = diff / step` is whole, otherwise
      `int(steps)` when `steps` is positive and 1 when it is not. */
  function StepGap(diff: nat, step: int): int
    requires step != 0
  {
    if diff % step == 0 then TruncDiv(diff, step)
    else if step > 0 then TruncDiv(diff, step)
    else 1
  }

  /** `calculate_version_gap`: compares the first `version_level`
      components; at the first one where the recommended tag is ahead, lists
      the versions in between and counts them (or the steps of a `step_by`
      rule for a major difference). `None` when a tag has no digit, or when a
      `step_by` of zero divides by zero. */
  function VersionGap(currentTag: string, recommendedTag: string, level: int, rules: Rules, imageBase: string): Option<Gap> {
    var cs := Components(currentTag);
    var rs := Components(recommendedTag);
    if cs.None? || rs.None? then None
    else
      var c := cs.value;
      var r := rs.value;
      var n := Compared(level);
      var i := FirstDifference(c, r, n);
      if i == n || r[i] < c[i] then Some(Gap(0, []))
      else
        var prefix := if StartsWith(recommendedTag, "v") then "v" else "";
        GapAhead(c, r, i, prefix, SkipVersions(rules, imageBase), StepBy(rules, imageBase))
  }

  /** The result once component `i` is the first where the recommended tag
      is ahead: the missing versions, counted, or under a `step_by` rule for
      a major difference the steps (`None` for a zero step). */
  function GapAhead(c: seq<nat>, r: seq<nat>, i: nat, prefix: string, skip: seq<string>, step: Option<int>): Option<Gap>
    requires |c| == 3 && |r| == 3 && i < 3 && c[i] < r[i]
  {
    var missing := Missing(prefix, Head(c, i), c[i], r[i], skip);
    if i == 0 && step.Some? then
      if step.value == 0 then None else Some(Gap(StepGap(r[0] - c[0], step.value), missing))
    else Some(Gap(|missing|, missing))
  }

  /** `while len(parts) < 3: parts.append('0')` */
  method PadToThree(parts: seq<string>) returns (padded: seq<string>)
    ensures |padded| == if |parts| < 3 then 3 else |parts|
    ensures forall k :: 0 <= k < |padded| ==> padded[k] == if k < |parts| then parts[k] else "0"
  {
    padded := parts;
    while |padded| < 3
      invariant |parts| <= |padded| <= (if |parts| < 3 then 3 else |parts|)
      invariant forall k :: 0 <= k < |padded| ==> padded[k] == if k < |parts| then parts[k] else "0"
      decreases 3 - |padded|
    {
      padded := padded + ["0"];
    }
  }

  /** The three numbers of a tag, computed as the source does. */
  method ParseComponents(tag: string, runs: seq<string>) returns (c: seq<nat>)
    requires runs == DigitRuns(BeforeDash(StripV(tag))) && |runs| > 0
    ensures Components(tag) == Some(c)
  {
    var padded := PadToThree(runs);
    PaddedComponents(runs, padded);
    c := Numbers(padded[..3]);
  }

  /** The first three of the padded runs, as numbers, are the components. */
  lemma PaddedComponents(runs: seq<string>, padded: seq<string>)
    requires forall q :: 0 <= q < |runs| ==> AllDigits(runs[q])
    requires |padded| == if |runs| < 3 then 3 else |runs|
    requires forall k :: 0 <= k < |padded| ==> padded[k] == if k < |runs| then runs[k] else "0"
    ensures forall k :: 0 <= k < 3 ==> AllDigits(padded[..3][k])
    ensures Numbers(padded[..3]) == [Component(runs, 0), Component(runs, 1), Component(runs, 2)]
  {
    assert NatOf("0") == 0;
    var c := Numbers(padded[..3]);
    forall k | 0 <= k < 3
      ensures c[k] == Component(runs, k)
    {
      assert padded[..3][k] == padded[k];
    }
    assert |c| == 3 && c[0] == Component(runs, 0) && c[1] == Component(runs, 1) && c[2] == Component(runs, 2);
  }

  /** The loop that collects the missing versions `prefix + head + str(j)`
      for `j` in `range(lo + 1, hi + 1)`, leaving out the skipped numbers. */
  method ListMissing(prefix: string, head: string, lo: nat, hi: nat, skip: seq<string>)
    returns (missing: seq<string>)
    ensures missing == Missing(prefix, head, lo, hi, skip)
  {
    missing := [];
    var j := lo + 1;
    while j < hi + 1
      invariant lo + 1 <= j <= (if hi < lo then lo else hi) + 1
      invariant missing == Missing(prefix, head, lo, j - 1, skip)
    {
      var versionStr := prefix + head + NatToString(j);
      if NatToString(j) !in skip {
        missing := missing + [versionStr];
      }
      j := j + 1;
    }
  }

  /** The branch of `calculate_version_gap` where component `i` is the
      first one at which the recommended tag is ahead. */
  method GapAtComponent(c: seq<nat>, r: seq<nat>, i: nat, prefix: string, skip: seq<string>, rules: Rules, imageBase: string)
    returns (result: Option<Gap>)
    requires |c| == 3 && |r| == 3 && i < 3 && c[i] < r[i]
    ensures result == GapAhead(c, r, i, prefix, skip, StepBy(rules, imageBase))
  {
    var head: string;
    if i == 0 {
      head := "";
    } else if i == 1 {
      head := NatToString(c[0]) + ".";
    } else {
      head := NatToString(c[0]) + "." + NatToString(c[1]) + ".";
    }
    var missing := ListMissing(prefix, head, c[i], r[i], skip);
    var realGap := |missing|;
    if imageBase in rules && rules[imageBase].stepBy.Some? {
      var stepBy := rules[imageBase].stepBy.value;
      if i == 0 {
        if stepBy == 0 {
          return None;
        }
        var diff := r[0] - c[0];
        if diff % stepBy == 0 {
          realGap := TruncDiv(diff, stepBy);
        } else {
          realGap := if stepBy > 0 then TruncDiv(diff, stepBy) else 1;
        }
      }
    }
    return Some(Gap(realGap, missing));
  }

  /** `calculate_version_gap(current_tag, recommended_tag, version_level,
      custom_rules, image_base)` */
  method CalculateVersionGap(currentTag: string, recommendedTag: string, level: int, rules: Rules, imageBase: string)
    returns (result: Option<Gap>)
    ensures result == VersionGap(currentTag, recommendedTag, level, rules, imageBase)
  {
    var skip: seq<string> := [];
    if imageBase in rules && rules[imageBase].skipVersions.Some? {
      skip := rules[imageBase].skipVersions.value;
    }
    var currentRuns := DigitRuns(BeforeDash(StripV(currentTag)));
    var recommendedRuns := DigitRuns(BeforeDash(StripV(recommendedTag)));
    if |currentRuns| == 0 || |recommendedRuns| == 0 {
      return None;
    }
    var c := ParseComponents(currentTag, currentRuns);
    var r := ParseComponents(recommendedTag, recommendedRuns);
    var prefix := if StartsWith(recommendedTag, "v") then "v" else "";
    var i := 0;
    while i < level
      invariant 0 <= i <= Compared(level)
      invariant forall q :: 0 <= q < i ==> c[q] == r[q]
    {
      if i >= 3 {
        break;
      }
      if r[i] > c[i] {
        GapOnceDifferent(currentTag, recommendedTag, level, rules, imageBase, c, r, i);
        result := GapAtComponent(c, r, i, prefix, skip, rules, imageBase);
        return;
      } else if r[i] < c[i] {
        GapOnceDifferent(currentTag, recommendedTag, level, rules, imageBase, c, r, i);
        return Some(Gap(0, []));
      }
      i := i + 1;
    }
    GapOnceDifferent(currentTag, recommendedTag, level, rules, imageBase, c, r, i);
    return Some(Gap(0, []));
  }

  /** `VersionGap` once the first differing compared component `i` (or the
      end of the compared components) is known. */
  lemma GapOnceDifferent(currentTag: string, recommendedTag: string, level: int, rules: Rules, imageBase: string,
                         c: seq<nat>, r: seq<nat>, i: nat)
    requires Components(currentTag) == Some(c) && Components(recommendedTag) == Some(r)
    requires i <= Compared(level)
    requires forall q :: 0 <= q < i ==> c[q] == r[q]
    requires i < Compared(level) ==> c[i] != r[i]
    ensures VersionGap(currentTag, recommendedTag, level, rules, imageBase)
         == if i == Compared(level) || r[i] < c[i] then Some(Gap(0, []))
            else GapAhead(c, r, i, if StartsWith(recommendedTag, "v") then "v" else "",
                          SkipVersions(rules, imageBase), StepBy(rules, imageBase))
  {
    assert FirstDifference(c, r, Compared(level)) == i;
  }

  /** `VersionGap` when component `i` is the first at which the recommended
      tag is ahead and no `step_by` applies: the missing versions, counted. */
  lemma GapListed(currentTag: string, recommendedTag: string, level: int, rules: Rules, imageBase: string,
                  c: seq<nat>, r: seq<nat>, i: nat, prefix: string, head: string, skip: seq<string>,
                  missing: seq<string>, count: nat)
    requires Components(currentTag) == Some(c) && Components(recommendedTag) == Some(r)
    requires i < Compared(level) && c[..i] == r[..i] && c[i] < r[i]
    requires i > 0 || StepBy(rules, imageBase).None?
    requires prefix == (if StartsWith(recommendedTag, "v") then "v" else "")
    requires head == Head(c, i) && skip == SkipVersions(rules, imageBase)
    requires Missing(prefix, head, c[i], r[i], skip) == missing && count == |missing|
    ensures VersionGap(currentTag, recommendedTag, level, rules, imageBase) == Some(Gap(count, missing))
  {
    forall q | 0 <= q < i
      ensures c[q] == r[q]
    {
      assert c[..i][q] == c[q] && r[..i][q] == r[q];
    }
    GapOnceDifferent(currentTag, recommendedTag, level, rules, imageBase, c, r, i);
  }

  /** `VersionGap` when the major component is the first at which the
      recommended tag is ahead and a non-zero `step_by` applies: the steps,
      with every missing version still listed. */
  lemma GapStepped(currentTag: string, recommendedTag: string, level: int, rules: Rules, imageBase: string,
                   c: seq<nat>, r: seq<nat>, step: int, prefix: string, skip: seq<string>,
                   missing: seq<string>, count: int)
    requires Components(currentTag) == Some(c) && Components(recommendedTag) == Some(r)
    requires 0 < Compared(level) && c[0] < r[0]
    requires StepBy(rules, imageBase) == Some(step) && step != 0
    requires prefix == (if StartsWith(recommendedTag, "v") then "v" else "")
    requires skip == SkipVersions(rules, imageBase)
    requires Missing(prefix, "", c[0], r[0], skip) == missing
    requires count == StepGap(r[0] - c[0], step)
    ensures VersionGap(currentTag, recommendedTag, level, rules, imageBase) == Some(Gap(count, missing))
  {
    GapOnceDifferent(currentTag, recommendedTag, level, rules, imageBase, c, r, 0);
  }

  // ---- what the gap means ----

  /** A written tag reads back as its first three groups, padded with
      zeros. */
  lemma ComponentsOfWritten(hasV: bool, groups: seq<string>, suffix: Option<string>)
    requires WellFormedParts(groups, suffix)
    ensures Components(RenderTag(hasV, groups, suffix))
         == Some([Component(groups, 0), Component(groups, 1), Component(groups, 2)])
  {
    RenderedShape(hasV, groups, suffix);
    DigitRunsOfJoin(groups, '.');
  }

  /** The missing versions are exactly the numbers above `lo` up to `hi`
      that are not skipped, each written after `prefix` and `head`. */
  lemma {:induction false} MissingMembers(prefix: string, head: string, lo: nat, hi: nat, skip: seq<string>)
    ensures lo <= hi ==> |Missing(prefix, head, lo, hi, skip)| <= hi - lo
    ensures forall x :: x in Missing(prefix, head, lo, hi, skip) <==>
              exists j: nat :: lo < j <= hi && NatToString(j) !in skip && x == prefix + head + NatToString(j)
    decreases hi
  {
    if hi > lo {
      var rest := Missing(prefix, head, lo, hi - 1, skip);
      var top := prefix + head + NatToString(hi);
      MissingMembers(prefix, head, lo, hi - 1, skip);
      assert Missing(prefix, head, lo, hi, skip) == if NatToString(hi) in skip then rest else rest + [top];
      forall x | x in Missing(prefix, head, lo, hi, skip)
        ensures exists j: nat :: lo < j <= hi && NatToString(j) !in skip && x == prefix + head + NatToString(j)
      {
        if x in rest {
          var j: nat :| lo < j <= hi - 1 && NatToString(j) !in skip && x == prefix + head + NatToString(j);
          assert lo < j <= hi;
        } else {
          assert x == top && NatToString(hi) !in skip;
        }
      }
      forall x | exists j: nat :: lo < j <= hi && NatToString(j) !in skip && x == prefix + head + NatToString(j)
        ensures x in Missing(prefix, head, lo, hi, skip)
      {
        var j: nat :| lo < j <= hi && NatToString(j) !in skip && x == prefix + head + NatToString(j);
        if j < hi {
          assert x in rest;
        }
      }
      assert forall x :: x in Missing(prefix, head, lo, hi, skip) <==>
               exists j: nat :: lo < j <= hi && NatToString(j) !in skip && x == prefix + head + NatToString(j);
    } else {
      assert Missing(prefix, head, lo, hi, skip) == [];
    }
  }

  /** The numbers above `lo` up to `hi` that are not skipped, in ascending
      order and each once. */
  function MissingNumbers(lo: nat, hi: nat, skip: seq<string>): (js: seq<nat>)
    ensures forall k :: 0 <= k < |js| ==> lo < js[k] <= hi && NatToString(js[k]) !in skip
    ensures forall k, l :: 0 <= k < l < |js| ==> js[k] < js[l]
    decreases hi
  {
    if hi <= lo then []
    else
      var rest := MissingNumbers(lo, hi - 1, skip);
      if NatToString(hi) in skip then rest else rest + [hi]
  }

  /** The missing versions are the missing numbers, in the same order, each
      written after `prefix` and `head`: ascending, with no repeats. */
  lemma {:induction false} MissingInOrder(prefix: string, head: string, lo: nat, hi: nat, skip: seq<string>)
    ensures |Missing(prefix, head, lo, hi, skip)| == |MissingNumbers(lo, hi, skip)|
    ensures forall k :: 0 <= k < |Missing(prefix, head, lo, hi, skip)| ==>
              Missing(prefix, head, lo, hi, skip)[k] == prefix + head + NatToString(MissingNumbers(lo, hi, skip)[k])
    decreases hi
  {
    if hi > lo {
      MissingInOrder(prefix, head, lo, hi - 1, skip);
    }
  }

  /** With no number skipped, every version from `lo + 1` to `hi` is
      missing, in ascending order. */
  lemma {:induction false} MissingUnskipped(prefix: string, head: string, lo: nat, hi: nat, skip: seq<string>)
    requires lo <= hi
    requires forall j :: lo < j <= hi ==> NatToString(j) !in skip
    ensures |Missing(prefix, head, lo, hi, skip)| == hi - lo
    ensures forall k :: 0 <= k < hi - lo ==> Missing(prefix, head, lo, hi, skip)[k] == prefix + head + NatToString(lo + 1 + k)
    decreases hi
  {
    if hi > lo {
      MissingUnskipped(prefix, head, lo, hi - 1, skip);
    }
  }

  /** A tag without digits (before its variant) cannot be compared. */
  lemma GapNeedsNumbers(currentTag: string, recommendedTag: string, level: int, rules: Rules, imageBase: string)
    ensures VersionGap(currentTag, recommendedTag, level, rules, imageBase).None? <==>
              || Components(currentTag).None?
              || Components(recommendedTag).None?
              || (&& FirstDifference(Components(currentTag).value, Components(recommendedTag).value, Compared(level)) == 0
                  && Compared(level) > 0
                  && Components(currentTag).value[0] < Components(recommendedTag).value[0]
                  && StepBy(rules, imageBase) == Some(0))
  {
  }

  /** Nothing is missing unless the recommended tag is newer in the
      compared components. */
  lemma GapZeroUnlessNewer(currentTag: string, recommendedTag: string, level: int, rules: Rules, imageBase: string)
    requires Components(currentTag).Some? && Components(recommendedTag).Some?
    requires var n := Compared(level);
             !Less(Components(currentTag).value[..n], Components(recommendedTag).value[..n])
    ensures VersionGap(currentTag, recommendedTag, level, rules, imageBase) == Some(Gap(0, []))
  {
    var c := Components(currentTag).value;
    var r := Components(recommendedTag).value;
    var n := Compared(level);
    var i := FirstDifference(c, r, n);
    LessAtDifference(c[..n], r[..n], i);
  }

  /** Without custom rules, a recommended tag that is newer in the compared
      components is a positive number of versions ahead, all of them
      listed. */
  lemma GapPositiveWhenNewer(currentTag: string, recommendedTag: string, level: int, imageBase: string)
    requires Components(currentTag).Some? && Components(recommendedTag).Some?
    requires var n := Compared(level);
             Less(Components(currentTag).value[..n], Components(recommendedTag).value[..n])
    ensures var g := VersionGap(currentTag, recommendedTag, level, map[], imageBase);
            g.Some? && g.value.gap > 0 && g.value.gap == |g.value.missing|
  {
    var c := Components(currentTag).value;
    var r := Components(recommendedTag).value;
    var n := Compared(level);
    var i := FirstDifference(c, r, n);
    LessAtDifference(c[..n], r[..n], i);
    assert i < n && c[i] < r[i];
    var prefix := if StartsWith(recommendedTag, "v") then "v" else "";
    assert VersionGap(currentTag, recommendedTag, level, map[], imageBase) == GapAhead(c, r, i, prefix, [], None);
    MissingUnskipped(prefix, Head(c, i), c[i], r[i], []);
  }

  /** Under a positive `step_by` the gap of a major difference is the number
      of whole steps, `diff / step` rounded down, and it is exact exactly
      when the step divides the difference. */
  lemma StepGapCountsSteps(diff: nat, step: int)
    requires step > 0
    ensures StepGap(diff, step) >= 0
    ensures StepGap(diff, step) * step <= diff < (StepGap(diff, step) + 1) * step
    ensures StepGap(diff, step) * step == diff <==> diff % step == 0
  {
    assert TruncDiv(diff, step) == diff / step;
  }

  // ---- the documented examples ----

  /** A tag written as three groups of digits reads back as their
      numbers. */
  lemma ComponentsOfThree(hasV: bool, a: string, b: string, c: string, suffix: Option<string>)
    requires |a| > 0 && AllDigits(a) && |b| > 0 && AllDigits(b) && |c| > 0 && AllDigits(c)
    requires suffix.Some? ==> |suffix.value| > 0 && forall k :: 0 <= k < |suffix.value| ==> IsLowerAlnum(suffix.value[k])
    ensures Components(RenderTag(hasV, [a, b, c], suffix)) == Some([NatOf(a), NatOf(b), NatOf(c)])
  {
    assert WellFormedParts([a, b, c], suffix);
    ComponentsOfWritten(hasV, [a, b, c], suffix);
  }

  /** `Components` of a tag `<x>.<y>.<z>` of single digits. */
  lemma ComponentsOfDigits(tag: string, x: nat, y: nat, z: nat)
    requires x < 10 && y < 10 && z < 10
    requires tag == [DigitChar(x), '.', DigitChar(y), '.', DigitChar(z)]
    ensures Components(tag) == Some([x, y, z])
  {
    var a, b, c := [DigitChar(x)], [DigitChar(y)], [DigitChar(z)];
    ComponentsOfTag(tag, a, b, c);
    assert NatOf(a) == x && NatOf(b) == y && NatOf(c) == z;
  }

  /** `Components` of a tag `v<x>.<y>.<z>` of single digits. */
  lemma ComponentsOfPrefixedDigits(tag: string, x: nat, y: nat, z: nat)
    requires x < 10 && y < 10 && z < 10
    requires tag == ['v', DigitChar(x), '.', DigitChar(y), '.', DigitChar(z)]
    ensures Components(tag) == Some([x, y, z])
  {
    var a, b, c := [DigitChar(x)], [DigitChar(y)], [DigitChar(z)];
    ComponentsOfPrefixedTag(tag, a, b, c);
    assert NatOf(a) == x && NatOf(b) == y && NatOf(c) == z;
  }

  /** `Components` of a tag `<x>.<y>.<z>-<variant>` of single digits. */
  lemma ComponentsOfVariantDigits(tag: string, x: nat, y: nat, z: nat, variant: string)
    requires x < 10 && y < 10 && z < 10
    requires |variant| > 0 && forall k :: 0 <= k < |variant| ==> IsLowerAlnum(variant[k])
    requires tag == [DigitChar(x), '.', DigitChar(y), '.', DigitChar(z), '-'] + variant
    ensures Components(tag) == Some([x, y, z])
  {
    var a, b, c := [DigitChar(x)], [DigitChar(y)], [DigitChar(z)];
    ComponentsOfVariantTag(tag, a, b, c, variant);
    assert NatOf(a) == x && NatOf(b) == y && NatOf(c) == z;
  }

  /** `Components` of a tag `<a>.<b>.<c>`. */
  lemma ComponentsOfTag(tag: string, a: string, b: string, c: string)
    requires |a| > 0 && AllDigits(a) && |b| > 0 && AllDigits(b) && |c| > 0 && AllDigits(c)
    requires tag == a + "." + b + "." + c
    ensures Components(tag) == Some([NatOf(a), NatOf(b), NatOf(c)])
  {
    ComponentsOfThree(false, a, b, c, None);
    JoinThree(a, b, c);
    RenderParts([a, b, c], "");
  }

  /** `Components` of a tag `v<a>.<b>.<c>`. */
  lemma ComponentsOfPrefixedTag(tag: string, a: string, b: string, c: string)
    requires |a| > 0 && AllDigits(a) && |b| > 0 && AllDigits(b) && |c| > 0 && AllDigits(c)
    requires tag == "v" + (a + "." + b + "." + c)
    ensures Components(tag) == Some([NatOf(a), NatOf(b), NatOf(c)])
  {
    ComponentsOfThree(true, a, b, c, None);
    JoinThree(a, b, c);
    RenderParts([a, b, c], "");
  }

  /** `Components` of a tag `<a>.<b>.<c>-<variant>`. */
  lemma ComponentsOfVariantTag(tag: string, a: string, b: string, c: string, variant: string)
    requires |a| > 0 && AllDigits(a) && |b| > 0 && AllDigits(b) && |c| > 0 && AllDigits(c)
    requires |variant| > 0 && forall k :: 0 <= k < |variant| ==> IsLowerAlnum(variant[k])
    requires tag == (a + "." + b + "." + c) + ("-" + variant)
    ensures Components(tag) == Some([NatOf(a), NatOf(b), NatOf(c)])
  {
    ComponentsOfThree(false, a, b, c, Some(variant));
    JoinThree(a, b, c);
    RenderParts([a, b, c], variant);
  }

  /** `RenderTag` without the empty pieces. */
  lemma RenderParts(groups: seq<string>, variant: string)
    ensures RenderTag(false, groups, None) == Join(groups, '.')
    ensures RenderTag(true, groups, None) == "v" + Join(groups, '.')
    ensures RenderTag(false, groups, Some(variant)) == Join(groups, '.') + ("-" + variant)
  {
    var d := Join(groups, '.');
    assert "" + d + "" == d;
    assert "v" + d + "" == "v" + d;
    assert "" + d + ("-" + variant) == d + ("-" + variant);
  }

  lemma JoinThree(a: string, b: string, c: string)
    ensures Join([a, b, c], '.') == a + "." + b + "." + c
  {
    assert [a, b, c][1..] == [b, c] && [b, c][1..] == [c];
    assert Join([b, c], '.') == b + "." + c;
    assert Join([a, b, c], '.') == a + "." + (b + "." + c);
  }

  lemma ComponentsTwoZeroZero()
    ensures Components("2.0.0") == Some([2, 0, 0])
    ensures Components("v2.0.0") == Some([2, 0, 0])
  {
    ComponentsOfDigits("2.0.0", 2, 0, 0);
    ComponentsOfPrefixedDigits("v2.0.0", 2, 0, 0);
  }

  lemma ComponentsFourZeroZero()
    ensures Components("4.0.0") == Some([4, 0, 0])
    ensures Components("v4.0.0") == Some([4, 0, 0])
  {
    ComponentsOfDigits("4.0.0", 4, 0, 0);
    ComponentsOfPrefixedDigits("v4.0.0", 4, 0, 0);
  }

  lemma MissingThreeFour()
    ensures Missing("", "", 2, 4, []) == ["3", "4"]
    ensures Missing("v", "", 2, 4, []) == ["v3", "v4"]
  {
    assert NatToString(3) == "3" && NatToString(4) == "4";
    assert Missing("", "", 2, 3, []) == ["" + "" + "3"];
    assert Missing("v", "", 2, 3, []) == ["v" + "" + "3"];
    assert "" + "" + "3" == "3" && "" + "" + "4" == "4";
    assert "v" + "" + "3" == "v3" && "v" + "" + "4" == "v4";
  }

  /** Two majors behind: `2.0.0` to `4.0.0` at level 1 misses 3 and 4. */
  lemma GapExampleMajor()
    ensures VersionGap("2.0.0", "4.0.0", 1, map[], "") == Some(Gap(2, ["3", "4"]))
  {
    ComponentsTwoZeroZero();
    ComponentsFourZeroZero();
    MajorGapFacts();
    GapListed("2.0.0", "4.0.0", 1, map[], "", [2, 0, 0], [4, 0, 0], 0, "", "", [], ["3", "4"], 2);
  }

  lemma MajorGapFacts()
    ensures 0 < Compared(1) && [2, 0, 0][..0] == [4, 0, 0][..0] && [2, 0, 0][0] < [4, 0, 0][0]
    ensures 0 > 0 || StepBy(map[], "").None?
    ensures "" == (if StartsWith("4.0.0", "v") then "v" else "")
    ensures "" == Head([2, 0, 0], 0) && [] == SkipVersions(map[], "")
    ensures Missing("", "", [2, 0, 0][0], [4, 0, 0][0], []) == ["3", "4"] && 2 == |["3", "4"]|
  {
    StartsWithChar("4.0.0", 'v');
    MissingThreeFour();
  }

  /** The missing versions take the `v` of the recommended tag. */
  lemma GapExamplePrefixed()
    ensures VersionGap("v2.0.0", "v4.0.0", 1, map[], "") == Some(Gap(2, ["v3", "v4"]))
  {
    ComponentsTwoZeroZero();
    ComponentsFourZeroZero();
    PrefixedGapFacts();
    GapListed("v2.0.0", "v4.0.0", 1, map[], "", [2, 0, 0], [4, 0, 0], 0, "v", "", [], ["v3", "v4"], 2);
  }

  lemma PrefixedGapFacts()
    ensures 0 < Compared(1) && [2, 0, 0][..0] == [4, 0, 0][..0] && [2, 0, 0][0] < [4, 0, 0][0]
    ensures 0 > 0 || StepBy(map[], "").None?
    ensures "v" == (if StartsWith("v4.0.0", "v") then "v" else "")
    ensures "" == Head([2, 0, 0], 0) && [] == SkipVersions(map[], "")
    ensures Missing("v", "", [2, 0, 0][0], [4, 0, 0][0], []) == ["v3", "v4"] && 2 == |["v3", "v4"]|
  {
    StartsWithChar("v4.0.0", 'v');
    MissingThreeFour();
  }

  /** Equal versions are no gap. */
  lemma GapExampleEqual()
    ensures VersionGap("2.0.0", "2.0.0", 1, map[], "") == Some(Gap(0, []))
  {
    ComponentsTwoZeroZero();
    GapOnceDifferent("2.0.0", "2.0.0", 1, map[], "", [2, 0, 0], [2, 0, 0], 1);
  }

  lemma ComponentsTwoOneZero()
    ensures Components("2.1.0") == Some([2, 1, 0])
  {
    ComponentsOfDigits("2.1.0", 2, 1, 0);
  }

  lemma ComponentsTwoFourZero()
    ensures Components("2.4.0") == Some([2, 4, 0])
  {
    ComponentsOfDigits("2.4.0", 2, 4, 0);
  }

  /** Three minors behind: `2.1.0` to `2.4.0` at level 2. */
  lemma GapExampleMinor()
    ensures VersionGap("2.1.0", "2.4.0", 2, map[], "") == Some(Gap(3, ["2.2", "2.3", "2.4"]))
  {
    ComponentsTwoOneZero();
    ComponentsTwoFourZero();
    MinorGapFacts();
    GapListed("2.1.0", "2.4.0", 2, map[], "", [2, 1, 0], [2, 4, 0], 1, "", "2.", [], ["2.2", "2.3", "2.4"], 3);
  }

  lemma MinorGapFacts()
    ensures 1 < Compared(2) && [2, 1, 0][..1] == [2, 4, 0][..1] && [2, 1, 0][1] < [2, 4, 0][1]
    ensures 1 > 0 || StepBy(map[], "").None?
    ensures "" == (if StartsWith("2.4.0", "v") then "v" else "")
    ensures "2." == Head([2, 1, 0], 1) && [] == SkipVersions(map[], "")
    ensures Missing("", "2.", [2, 1, 0][1], [2, 4, 0][1], []) == ["2.2", "2.3", "2.4"] && 3 == |["2.2", "2.3", "2.4"]|
  {
    StartsWithChar("2.4.0", 'v');
    MissingTwoTwoToFour();
  }

  lemma MissingTwoTwoToFour()
    ensures Missing("", "2.", 1, 4, []) == ["2.2", "2.3", "2.4"]
  {
    var head := "2.";
    assert NatToString(2) == "2" && NatToString(3) == "3" && NatToString(4) == "4";
    MissingUnskipped("", head, 1, 4, []);
    assert "" + head + NatToString(2) == "2.2";
    assert "" + head + NatToString(3) == "2.3";
    assert "" + head + NatToString(4) == "2.4";
  }

  lemma ComponentsTwoOneOne()
    ensures Components("2.1.1") == Some([2, 1, 1])
  {
    ComponentsOfDigits("2.1.1", 2, 1, 1);
  }

  lemma ComponentsTwoOneThree()
    ensures Components("2.1.3") == Some([2, 1, 3])
  {
    ComponentsOfDigits("2.1.3", 2, 1, 3);
  }

  /** Two patches behind: `2.1.1` to `2.1.3` at level 3. */
  lemma GapExamplePatch()
    ensures VersionGap("2.1.1", "2.1.3", 3, map[], "") == Some(Gap(2, ["2.1.2", "2.1.3"]))
  {
    ComponentsTwoOneOne();
    ComponentsTwoOneThree();
    PatchGapFacts();
    GapListed("2.1.1", "2.1.3", 3, map[], "", [2, 1, 1], [2, 1, 3], 2, "", "2.1.", [], ["2.1.2", "2.1.3"], 2);
  }

  lemma PatchGapFacts()
    ensures 2 < Compared(3) && [2, 1, 1][..2] == [2, 1, 3][..2] && [2, 1, 1][2] < [2, 1, 3][2]
    ensures 2 > 0 || StepBy(map[], "").None?
    ensures "" == (if StartsWith("2.1.3", "v") then "v" else "")
    ensures "2.1." == Head([2, 1, 1], 2) && [] == SkipVersions(map[], "")
    ensures Missing("", "2.1.", [2, 1, 1][2], [2, 1, 3][2], []) == ["2.1.2", "2.1.3"] && 2 == |["2.1.2", "2.1.3"]|
  {
    StartsWithChar("2.1.3", 'v');
    MissingPatches();
  }

  lemma MissingPatches()
    ensures Missing("", "2.1.", 1, 3, []) == ["2.1.2", "2.1.3"]
  {
    var head := "2.1.";
    assert NatToString(1) == "1" && NatToString(2) == "2" && NatToString(3) == "3";
    MissingUnskipped("", head, 1, 3, []);
    assert "" + head + NatToString(2) == "2.1.2";
    assert "" + head + NatToString(3) == "2.1.3";
  }

  lemma ComponentsTwoAlpine()
    ensures Components("2.0.0-alpine") == Some([2, 0, 0])
  {
    ComponentsOfVariantDigits("2.0.0-alpine", 2, 0, 0, "alpine");
  }

  lemma ComponentsFourAlpine()
    ensures Components("4.0.0-alpine") == Some([4, 0, 0])
  {
    ComponentsOfVariantDigits("4.0.0-alpine", 4, 0, 0, "alpine");
  }

  /** The variant does not take part: `2.0.0-alpine` to `4.0.0-alpine` is
      two majors. */
  lemma GapExampleVariant()
    ensures VersionGap("2.0.0-alpine", "4.0.0-alpine", 1, map[], "") == Some(Gap(2, ["3", "4"]))
  {
    ComponentsTwoAlpine();
    ComponentsFourAlpine();
    VariantGapFacts();
    GapListed("2.0.0-alpine", "4.0.0-alpine", 1, map[], "", [2, 0, 0], [4, 0, 0], 0, "", "", [], ["3", "4"], 2);
  }

  lemma VariantGapFacts()
    ensures 0 < Compared(1) && [2, 0, 0][..0] == [4, 0, 0][..0] && [2, 0, 0][0] < [4, 0, 0][0]
    ensures 0 > 0 || StepBy(map[], "").None?
    ensures "" == (if StartsWith("4.0.0-alpine", "v") then "v" else "")
    ensures "" == Head([2, 0, 0], 0) && [] == SkipVersions(map[], "")
    ensures Missing("", "", [2, 0, 0][0], [4, 0, 0][0], []) == ["3", "4"] && 2 == |["3", "4"]|
  {
    StartsWithChar("4.0.0-alpine", 'v');
    MissingThreeFour();
  }

  /** `Components` of a tag that is just a number. */
  lemma ComponentsOfNumeral(tag: string, n: nat)
    requires tag == NatToString(n)
    ensures Components(tag) == Some([n, 0, 0])
  {
    var g := [tag];
    NatToStringRoundTrip(n);
    assert Join(g, '.') == tag;
    RenderParts(g, "");
    assert WellFormedParts(g, None);
    ComponentsOfWritten(false, g, None);
  }

  lemma ComponentsOfNode()
    ensures Components("18") == Some([18, 0, 0])
    ensures Components("19") == Some([19, 0, 0])
    ensures Components("22") == Some([22, 0, 0])
  {
    ComponentsOfNumeral("18", 18);
    ComponentsOfNumeral("19", 19);
    ComponentsOfNumeral("22", 22);
  }

  lemma MissingNodeSkipped()
    ensures Missing("", "", 18, 22, ["19", "21", "23"]) == ["20", "22"]
  {
    var skip := ["19", "21", "23"];
    assert NatToString(19) == "19" && NatToString(20) == "20";
    assert NatToString(21) == "21" && NatToString(22) == "22";
    assert Missing("", "", 18, 18, skip) == [];
    assert Missing("", "", 18, 19, skip) == [];
    assert Missing("", "", 18, 20, skip) == ["" + "" + "20"];
    assert Missing("", "", 18, 21, skip) == ["" + "" + "20"];
    assert "" + "" + "20" == "20" && "" + "" + "22" == "22";
  }

  lemma MissingNode()
    ensures Missing("", "", 18, 22, []) == ["19", "20", "21", "22"]
    ensures Missing("", "", 18, 19, []) == ["19"]
  {
    MissingUnskipped("", "", 18, 22, []);
    MissingUnskipped("", "", 18, 19, []);
    assert NatToString(19) == "19" && NatToString(20) == "20";
    assert NatToString(21) == "21" && NatToString(22) == "22";
    assert "" + "" + "19" == "19" && "" + "" + "20" == "20";
    assert "" + "" + "21" == "21" && "" + "" + "22" == "22";
  }

  /** Skipped releases are neither listed nor counted: 18 to 22 with 19, 21
      and 23 skipped misses only 20 and 22. */
  lemma GapExampleSkipped()
    ensures VersionGap("18", "22", 1, map["node" := Rule(None, None, Some(["19", "21", "23"]), None)], "node")
         == Some(Gap(2, ["20", "22"]))
  {
    ComponentsOfNode();
    SkippedGapFacts();
    GapListed("18", "22", 1, map["node" := Rule(None, None, Some(["19", "21", "23"]), None)], "node", [18, 0, 0], [22, 0, 0], 0, "", "", ["19", "21", "23"], ["20", "22"], 2);
  }

  lemma SkippedGapFacts()
    ensures 0 < Compared(1) && [18, 0, 0][..0] == [22, 0, 0][..0] && [18, 0, 0][0] < [22, 0, 0][0]
    ensures 0 > 0 || StepBy(map["node" := Rule(None, None, Some(["19", "21", "23"]), None)], "node").None?
    ensures "" == (if StartsWith("22", "v") then "v" else "")
    ensures "" == Head([18, 0, 0], 0) && ["19", "21", "23"] == SkipVersions(map["node" := Rule(None, None, Some(["19", "21", "23"]), None)], "node")
    ensures Missing("", "", [18, 0, 0][0], [22, 0, 0][0], ["19", "21", "23"]) == ["20", "22"] && 2 == |["20", "22"]|
  {
    StartsWithChar("22", 'v');
    MissingNodeSkipped();
  }

  /** Under `step_by` 2, 18 to 22 is two steps; every release in between is
      still listed. */
  lemma GapExampleStep()
    ensures VersionGap("18", "22", 1, map["node" := Rule(None, None, None, Some(2))], "node")
         == Some(Gap(2, ["19", "20", "21", "22"]))
  {
    ComponentsOfNode();
    StepGapFacts();
    GapStepped("18", "22", 1, map["node" := Rule(None, None, None, Some(2))], "node", [18, 0, 0], [22, 0, 0], 2, "", [], ["19", "20", "21", "22"], 2);
  }

  lemma StepGapFacts()
    ensures 0 < Compared(1) && [18, 0, 0][0] < [22, 0, 0][0]
    ensures StepBy(map["node" := Rule(None, None, None, Some(2))], "node") == Some(2) && 2 != 0
    ensures "" == (if StartsWith("22", "v") then "v" else "")
    ensures [] == SkipVersions(map["node" := Rule(None, None, None, Some(2))], "node")
    ensures Missing("", "", [18, 0, 0][0], [22, 0, 0][0], []) == ["19", "20", "21", "22"]
    ensures 2 == StepGap([22, 0, 0][0] - [18, 0, 0][0], 2)
  {
    StartsWithChar("22", 'v');
    MissingNode();
    assert 4 % 2 == 0 && TruncDiv(4, 2) == 2;
  }

  /** Under `step_by` 2, 18 to 19 is half a step and is counted as no gap,
      although 19 is listed as missing. */
  lemma GapExampleHalfStep()
    ensures VersionGap("18", "19", 1, map["node" := Rule(None, None, None, Some(2))], "node")
         == Some(Gap(0, ["19"]))
  {
    ComponentsOfNode();
    HalfStepGapFacts();
    GapStepped("18", "19", 1, map["node" := Rule(None, None, None, Some(2))], "node", [18, 0, 0], [19, 0, 0], 2, "", [], ["19"], 0);
  }

  lemma HalfStepGapFacts()
    ensures 0 < Compared(1) && [18, 0, 0][0] < [19, 0, 0][0]
    ensures StepBy(map["node" := Rule(None, None, None, Some(2))], "node") == Some(2) && 2 != 0
    ensures "" == (if StartsWith("19", "v") then "v" else "")
    ensures [] == SkipVersions(map["node" := Rule(None, None, None, Some(2))], "node")
    ensures Missing("", "", [18, 0, 0][0], [19, 0, 0][0], []) == ["19"]
    ensures 0 == StepGap([19, 0, 0][0] - [18, 0, 0][0], 2)
  {
    StartsWithChar("19", 'v');
    MissingNode();
    assert 1 % 2 != 0 && TruncDiv(1, 2) == 0;
  }

  // ---------------------------------------------------------------------
  // detect_version_level
  // ---------------------------------------------------------------------

  /** `base_image_name.split('/')[-1]`: the last path segment of the name. */
  function ImageBase(name: string): (b: string)
    ensures '/' !in b
  {
    var parts := SplitOn(name, '/');
    parts[|parts| - 1]
  }

  /** The image base is the whole name, or what follows its last `/`. */
  lemma ImageBaseIsLastSegment(name: string)
    ensures var b := ImageBase(name);
            name == b || (|b| < |name| && name == name[..|name| - |b| - 1] + "/" + b)
  {
    var parts := SplitOn(name, '/');
    var b := parts[|parts| - 1];
    SplitJoin(name, '/');
    if |parts| > 1 {
      var init := parts[..|parts| - 1];
      assert parts == init + [b];
      JoinConcat(init, [b], '/');
      assert name == Join(init, '/') + "/" + b;
      assert name[..|name| - |b| - 1] == Join(init, '/');
    }
  }

  /** The levels fixed per image, looked up before any tag is read. */
  const KnownLevels: map<string, int> := map[
    "debian" := 1, "ubuntu" := 1, "centos" := 1, "alpine" := 2, "nginx" := 2,
    "node" := 1, "python" := 2, "php" := 2, "golang" := 2, "postgres" := 2,
    "mysql" := 1, "mariadb" := 2, "mongo" := 2, "redis" := 2]

  /** The tag with its `v` and its `-variant` removed. */
  function CleanTag(tag: string): string {
    BeforeDash(StripV(tag))
  }

  /** The number of dot-separated groups of the cleaned tag. */
  function PartCount(tag: string): nat {
    |SplitOn(CleanTag(tag), '.')|
  }

  /** A valid version tag cleans to a dotted numeric string, which
      `version.parse` always accepts. */
  lemma CleanTagsDotted(tags: seq<string>)
    requires forall k :: 0 <= k < |tags| ==> IsValidVersionTag(tags[k])
    ensures AllDotted(Map(tags, CleanTag))
  {
  }

  /** Part `k` of `parts` once `'0'` is appended up to three entries. */
  function PaddedPart(parts: seq<string>, k: nat): string {
    if k < |parts| then parts[k] else "0"
  }

  /** The level at which part lists `p` and `c` differ: one more than the
      first of their three leading parts, padded with `'0'`, whose texts
      differ; `None` when all three agree. */
  function PartsChange(p: seq<string>, c: seq<string>): (l: Option<nat>)
    ensures l.Some? ==> 1 <= l.value <= 3
  {
    if PaddedPart(p, 0) != PaddedPart(c, 0) then Some(1)
    else if PaddedPart(p, 1) != PaddedPart(c, 1) then Some(2)
    else if PaddedPart(p, 2) != PaddedPart(c, 2) then Some(3)
    else None
  }

  /** The level at which version `prev` changes into `curr`. */
  function ChangeLevel(prev: string, curr: string): (l: Option<nat>)
    ensures l.Some? ==> 1 <= l.value <= 3
  {
    PartsChange(SplitOn(prev, '.'), SplitOn(curr, '.'))
  }

  /** Parts change at level `l` exactly when they agree before part `l`
      and differ there, and do not change exactly when the first three
      parts agree. */
  lemma PartsChangeMeaning(p: seq<string>, c: seq<string>)
    ensures var l := PartsChange(p, c);
            && (l.None? <==> forall q :: 0 <= q < 3 ==> PaddedPart(p, q) == PaddedPart(c, q))
            && (l.Some? ==> && PaddedPart(p, l.value - 1) != PaddedPart(c, l.value - 1)
                            && forall q :: 0 <= q < l.value - 1 ==> PaddedPart(p, q) == PaddedPart(c, q))
  {
  }

  /** Which way round a pair is read does not change its level. */
  lemma ChangeLevelSymmetric(prev: string, curr: string)
    ensures ChangeLevel(prev, curr) == ChangeLevel(curr, prev)
  {
  }

  /** Every change level of neighbouring versions is 1, 2 or 3. */
  lemma ChangesInRange(sorted: seq<string>)
    ensures forall v :: v in PairValues(sorted, ChangeLevel) ==> 1 <= v <= 3
  {
    forall v | v in PairValues(sorted, ChangeLevel)
      ensures 1 <= v <= 3
    {
      PairValuesOfPairs(sorted, ChangeLevel, v);
      ChangeOfSomePair(sorted, v);
    }
  }

  /** The change level of some neighbouring pair is 1, 2 or 3. */
  lemma ChangeOfSomePair(sorted: seq<string>, v: nat)
    requires exists i :: 1 <= i < |sorted| && ChangeLevel(sorted[i - 1], sorted[i]) == Some(v)
    ensures 1 <= v <= 3
  {
    var i :| 1 <= i < |sorted| && ChangeLevel(sorted[i - 1], sorted[i]) == Some(v);
  }

  /** The change levels of the valid tags, cleaned and sorted by version;
      none for fewer than two tags. */
  function PairChanges(versionTags: seq<string>): seq<nat>
    requires forall k :: 0 <= k < |versionTags| ==> IsValidVersionTag(versionTags[k])
  {
    if |versionTags| < 2 then []
    else
      CleanTagsDotted(versionTags);
      PairValues(SortByVersion(Map(versionTags, CleanTag)), ChangeLevel)
  }

  /** `detect_version_level`: a custom `level` for the image base wins,
      then the fixed table; without valid version tags the level is 1;
      otherwise the level the valid tags show. */
  function DetectedLevel(tags: seq<string>, baseImageName: string, rules: Rules): int {
    var imageBase := ImageBase(baseImageName);
    if imageBase in rules && rules[imageBase].level.Some? then rules[imageBase].level.value
    else if imageBase in KnownLevels then KnownLevels[imageBase]
    else
      var versionTags := Filter(tags, IsValidVersionTag);
      if |versionTags| == 0 then 1 else LevelFromTags(versionTags)
  }

  /** The level the valid version tags themselves show: the most common
      change level of neighbouring versions, and failing that the most
      common group count (1 stays 1, anything more gives 2). */
  function LevelFromTags(versionTags: seq<string>): int
    requires |versionTags| > 0
    requires forall k :: 0 <= k < |versionTags| ==> IsValidVersionTag(versionTags[k])
  {
    var changes := PairChanges(versionTags);
    if |changes| > 0 then MostCommon(changes)
    else if MostCommon(Map(versionTags, PartCount)) == 1 then 1
    else 2
  }

  /** `max(counts.items(), key=lambda x: x[1])[0]`: the key with the
      largest count, the first such in key order. */
  method MostCounted(order: seq<nat>, counts: map<nat, nat>, ghost xs: seq<nat>) returns (best: nat)
    requires order == Distinct(xs) && counts == Tally(xs) && |xs| > 0
    ensures best == MostCommon(xs)
  {
    assert xs[0] in order;
    best := order[0];
    TakeEnds(order);
    for j := 1 to |order|
      invariant best == FirstMaximal(order[..j], xs) && best in xs
    {
      var next := order[j];
      FirstMaximalStep(order, counts, xs, j, best);
      if counts[next] > counts[best] {
        best := next;
      }
    }
  }

  /** The padded parts of two neighbouring versions and the first level at
      which they differ. */
  method PairChange(prev: string, curr: string) returns (change: Option<nat>)
    ensures change == ChangeLevel(prev, curr)
  {
    var prevSplit := SplitOn(prev, '.');
    var currSplit := SplitOn(curr, '.');
    var prevParts := PadToThree(prevSplit);
    var currParts := PadToThree(currSplit);
    for j := 0 to 3
      invariant forall q :: 0 <= q < j ==> PaddedPart(prevSplit, q) == PaddedPart(currSplit, q)
    {
      PartsChangeMeaning(prevSplit, currSplit);
      assert prevParts[j] == PaddedPart(prevSplit, j) && currParts[j] == PaddedPart(currSplit, j);
      if prevParts[j] != currParts[j] {
        return Some(j + 1);
      }
    }
    return None;
  }

  /** The `level_changes` loop over the version-sorted cleaned tags. */
  method CountLevelChanges(versionTags: seq<string>) returns (order: seq<nat>, counts: map<nat, nat>)
    requires forall k :: 0 <= k < |versionTags| ==> IsValidVersionTag(versionTags[k])
    requires |versionTags| > 1
    ensures order == Distinct(PairChanges(versionTags)) && counts == Tally(PairChanges(versionTags))
  {
    CleanTagsDotted(versionTags);
    var sorted := SortByVersion(Map(versionTags, CleanTag));
    order, counts := TallyChanges(sorted);
  }

  /** The `level_changes` loop: each neighbouring pair of `sorted` that
      changes is counted at its level. */
  method TallyChanges(sorted: seq<string>) returns (order: seq<nat>, counts: map<nat, nat>)
    ensures order == Distinct(PairValues(sorted, ChangeLevel))
    ensures counts == Tally(PairValues(sorted, ChangeLevel))
  {
    order, counts := [], map[];
    if |sorted| < 2 {
      return;
    }
    assert PairValues(sorted[..1], ChangeLevel) == [];
    for i := 1 to |sorted|
      invariant order == Distinct(PairValues(sorted[..i], ChangeLevel))
      invariant counts == Tally(PairValues(sorted[..i], ChangeLevel))
    {
      var change := PairChange(sorted[i - 1], sorted[i]);
      order, counts := CountChange(sorted, ChangeLevel, i, change, order, counts);
    }
    assert sorted[..|sorted|] == sorted;
  }

  /** `level_changes[j+1] += 1` for the pair ending at `i`, when it
      changes. */
  method CountChange<T>(s: seq<T>, f: (T, T) -> Option<nat>, i: nat, change: Option<nat>,
                        order: seq<nat>, counts: map<nat, nat>)
    returns (order': seq<nat>, counts': map<nat, nat>)
    requires 1 <= i < |s| && change == f(s[i - 1], s[i])
    requires order == Distinct(PairValues(s[..i], f)) && counts == Tally(PairValues(s[..i], f))
    ensures order' == Distinct(PairValues(s[..i + 1], f)) && counts' == Tally(PairValues(s[..i + 1], f))
  {
    ghost var before := PairValues(s[..i], f);
    PairValuesOneMore(s, i, f);
    if change.Some? {
      var level := change.value;
      assert PairValues(s[..i + 1], f) == before + [level];
      TallyStep(order, counts, before, level);
      order' := if level in counts then order else order + [level];
      counts' := counts[level := if level in counts then counts[level] + 1 else 1];
    } else {
      assert PairValues(s[..i + 1], f) == before;
      order', counts' := order, counts;
    }
  }

  /** `pattern_counts[len(clean_tag.split('.'))] += 1` for each tag. */
  method TallyPatterns(versionTags: seq<string>) returns (order: seq<nat>, counts: map<nat, nat>)
    ensures order == Distinct(Map(versionTags, PartCount)) && counts == Tally(Map(versionTags, PartCount))
  {
    order, counts := [], map[];
    for i := 0 to |versionTags|
      invariant order == Distinct(Map(versionTags[..i], PartCount))
      invariant counts == Tally(Map(versionTags[..i], PartCount))
    {
      ghost var before := Map(versionTags[..i], PartCount);
      var pattern := PartCount(versionTags[i]);
      MapOneMore(versionTags, i, PartCount);
      TallyStep(order, counts, before, pattern);
      order := if pattern in counts then order else order + [pattern];
      counts := counts[pattern := if pattern in counts then counts[pattern] + 1 else 1];
    }
    assert versionTags[..|versionTags|] == versionTags;
  }

  /** `detect_version_level`, step by step. */
  method DetectVersionLevel(tags: seq<string>, baseImageName: string, rules: Rules) returns (level: int)
    ensures level == DetectedLevel(tags, baseImageName, rules)
  {
    var imageBase := ImageBase(baseImageName);
    if imageBase in rules && rules[imageBase].level.Some? {
      return rules[imageBase].level.value;
    }
    if imageBase in KnownLevels {
      return KnownLevels[imageBase];
    }
    var versionTags := Filter(tags, IsValidVersionTag);
    if |versionTags| == 0 {
      return 1;
    }
    level := LevelOfVersionTags(versionTags);
  }

  /** The pattern counts and the pair statistics over the valid tags. */
  method LevelOfVersionTags(versionTags: seq<string>) returns (level: int)
    requires |versionTags| > 0
    requires forall k :: 0 <= k < |versionTags| ==> IsValidVersionTag(versionTags[k])
    ensures level == LevelFromTags(versionTags)
  {
    var patternOrder, patternCounts := TallyPatterns(versionTags);
    if |versionTags| > 1 {
      var changeOrder, changeCounts := CountLevelChanges(versionTags);
      DistinctEmpty(PairChanges(versionTags));
      if |changeOrder| > 0 {
        LevelOfChanges(versionTags);
        level := MostCounted(changeOrder, changeCounts, PairChanges(versionTags));
        return;
      }
    }
    LevelOfPatterns(versionTags);
    var mostCommonPattern := MostCounted(patternOrder, patternCounts, Map(versionTags, PartCount));
    if mostCommonPattern == 1 {
      level := 1;
    } else if mostCommonPattern == 2 {
      level := 2;
    } else {
      level := 2;
    }
  }

  // ---- what the detected level means ----

  /** Without a custom level the detected level is 1, 2 or 3. */
  lemma DetectedLevelRange(tags: seq<string>, baseImageName: string, rules: Rules)
    requires var b := ImageBase(baseImageName); !(b in rules && rules[b].level.Some?)
    ensures 1 <= DetectedLevel(tags, baseImageName, rules) <= 3
  {
    var versionTags := Filter(tags, IsValidVersionTag);
    KnownLevelsRange();
    if |versionTags| > 0 {
      LevelFromTagsRange(versionTags);
    }
  }

  lemma LevelFromTagsRange(versionTags: seq<string>)
    requires |versionTags| > 0
    requires forall k :: 0 <= k < |versionTags| ==> IsValidVersionTag(versionTags[k])
    ensures 1 <= LevelFromTags(versionTags) <= 3
  {
    var changes := PairChanges(versionTags);
    if |changes| > 0 {
      MostCommonIsFirstMostFrequent(changes);
      CleanTagsDotted(versionTags);
      ChangesInRange(SortByVersion(Map(versionTags, CleanTag)));
    }
  }

  /** When every neighbouring pair of the sorted versions that changes does
      so at the same level, that level is detected. */
  lemma UniformChanges(versionTags: seq<string>, level: nat)
    requires forall k :: 0 <= k < |versionTags| ==> IsValidVersionTag(versionTags[k])
    requires |PairChanges(versionTags)| > 0
    requires forall k :: 0 <= k < |PairChanges(versionTags)| ==> PairChanges(versionTags)[k] == level
    ensures LevelFromTags(versionTags) == level
  {
    MostCommonOfConstant(PairChanges(versionTags), level);
  }

  /** A single valid tag is judged by its number of groups. */
  lemma SingleTagLevel(tag: string, baseImageName: string)
    requires ImageBase(baseImageName) !in KnownLevels && IsValidVersionTag(tag)
    ensures DetectedLevel([tag], baseImageName, map[]) == if PartCount(tag) == 1 then 1 else 2
  {
    FilterAll([tag], IsValidVersionTag);
    MostCommonOfConstant(Map([tag], PartCount), PartCount(tag));
  }

  /** A plain dotted tag written from digit groups is a valid version tag
      that cleans to itself and splits back into its groups. */
  lemma PlainTag(groups: seq<string>)
    requires WellFormedParts(groups, None)
    requires |groups| <= 4 && TotalLength(groups) <= 8 && !(|groups| == 1 && |groups[0]| >= 6)
    ensures var t := Join(groups, '.');
            && IsValidVersionTag(t) && CleanTag(t) == t && IsDotted(t)
            && SplitOn(t, '.') == groups && Release(t) == Numbers(groups)
  {
    RenderedShape(false, groups, None);
    RenderedTagValidity(false, groups, None);
    assert DigitRuns("") == [];
    assert RenderTag(false, groups, None) == Join(groups, '.');
  }

  /** The name without a path is its own image base. */
  lemma ImageBaseOfPlainName(name: string)
    requires '/' !in name
    ensures ImageBase(name) == name
  {
    SplitNoSeparator(name, '/');
  }

  /** `library/debian` is filed under `debian`. */
  lemma ImageBaseExample()
    ensures ImageBase("library/debian") == "debian"
  {
    assert "library/debian" == "library" + ['/'] + "debian";
    ImageBaseOfPath("library", "debian");
  }

  /** A name with one path component before it is filed under the name. */
  lemma ImageBaseOfPath(dir: string, name: string)
    requires '/' !in dir && '/' !in name
    ensures ImageBase(dir + ['/'] + name) == name
  {
    SplitNoSeparator(name, '/');
    SplitNoSeparator(dir, '/');
    SplitConcat(dir, name, '/');
  }

  /** The fixed table gives levels 1 and 2 only. */
  lemma KnownLevelsRange()
    ensures forall b :: b in KnownLevels ==> 1 <= KnownLevels[b] <= 2
  {
  }

  /** Images in the fixed table get their level without a look at the tags. */
  lemma DetectKnownDebian()
    ensures DetectedLevel(["1.0", "2.0"], "debian", map[]) == 1
  {
    DebianAlpineListed();
    DetectListed(["1.0", "2.0"], "debian");
  }

  lemma DetectKnownAlpine()
    ensures DetectedLevel(["3.15", "3.16", "3.17"], "alpine", map[]) == 2
  {
    DebianAlpineListed();
    DetectListed(["3.15", "3.16", "3.17"], "alpine");
  }

  /** A plain name listed in the table, without custom rules, gets the
      table's level whatever the tags. */
  lemma DetectListed(tags: seq<string>, name: string)
    requires '/' !in name && name in KnownLevels
    ensures DetectedLevel(tags, name, map[]) == KnownLevels[name]
  {
    ImageBaseOfPlainName(name);
  }

  lemma DebianAlpineListed()
    ensures "debian" in KnownLevels && KnownLevels["debian"] == 1
    ensures "alpine" in KnownLevels && KnownLevels["alpine"] == 2
  {
  }

  /** A custom level overrides the table. */
  lemma DetectCustomDebian()
    ensures DetectedLevel(["1.0", "2.0"], "debian", map["debian" := Rule(Some(2), None, None, None)]) == 2
  {
    ImageBaseOfPlainName("debian");
  }

  lemma DetectCustomAlpine()
    ensures DetectedLevel(["3.15", "3.16", "3.17"], "alpine", map["alpine" := Rule(Some(1), None, None, None)]) == 1
  {
    ImageBaseOfPlainName("alpine");
  }

  /** No tags at all, or none that is a version, give level 1. */
  lemma DetectWithoutTags()
    ensures DetectedLevel([], "unknown", map[]) == 1
  {
    ImageBaseOfPlainName("unknown");
    UnknownUnlisted();
  }

  /** The table does not list `unknown`: only `mariadb` has its length. */
  lemma UnknownUnlisted()
    ensures "unknown" !in KnownLevels
  {
    assert "unknown"[0] != "mariadb"[0];
  }

  lemma DetectWithoutVersionTags()
    ensures DetectedLevel(["latest", "stable", "alpine"], "unknown", map[]) == 1
  {
    ImageBaseOfPlainName("unknown");
    UnknownUnlisted();
    WordTagInvalid();
    WordInvalid("stable");
    WordInvalid("alpine");
    assert Filter(["latest", "stable", "alpine"], IsValidVersionTag) == [];
  }

  /** A tag that does not start with `v` or a digit is not a version. */
  lemma WordInvalid(tag: string)
    requires |tag| > 0 && tag[0] != 'v' && !IsDigit(tag[0])
    ensures !IsValidVersionTag(tag)
  {
    assert StripV(tag) == tag;
    if MatchesVersionShape(tag) {
      ShapedTagStartsWithDigit(tag);
    }
  }

  /** Without custom rules, an image the table does not list is judged by
      its valid version tags. */
  lemma DetectUnlisted(tags: seq<string>, name: string)
    requires '/' !in name && name !in KnownLevels
    ensures var vt := Filter(tags, IsValidVersionTag);
            DetectedLevel(tags, name, map[]) == if |vt| == 0 then 1 else LevelFromTags(vt)
  {
    ImageBaseOfPlainName(name);
  }

  /** When every tag is a valid version tag, all of them are judged. */
  lemma DetectUnlistedValid(tags: seq<string>, name: string)
    requires '/' !in name && name !in KnownLevels && |tags| > 0
    requires forall k :: 0 <= k < |tags| ==> IsValidVersionTag(tags[k])
    ensures DetectedLevel(tags, name, map[]) == LevelFromTags(tags)
  {
    FilterAll(tags, IsValidVersionTag);
    DetectUnlisted(tags, name);
  }

  /** Two tags that are their own clean form and are given in version
      order stay as they are when cleaned and sorted. */
  lemma CleanSortedPair(a: string, b: string)
    requires CleanTag(a) == a && CleanTag(b) == b && IsDotted(a) && IsDotted(b)
    requires !Less(Key(b), Key(a))
    ensures AllDotted(Map([a, b], CleanTag)) && SortByVersion(Map([a, b], CleanTag)) == [a, b]
  {
    assert Map([a, b], CleanTag) == [a, b];
    assert Sorted([a, b]);
    SortByVersionOfSorted([a, b]);
  }

  /** Two valid tags that are their own clean form, given in version order,
      are judged by the one change between them. */
  lemma TwoTagsLevel(a: string, b: string)
    requires IsDotted(a) && IsDotted(b) && !Less(Key(b), Key(a)) && ChangeLevel(a, b).Some?
    requires CleanTag(a) == a && CleanTag(b) == b
    requires IsValidVersionTag(a) && IsValidVersionTag(b)
    ensures LevelFromTags([a, b]) == ChangeLevel(a, b).value
  {
    var v := ChangeLevel(a, b).value;
    PairChangesOfPair(a, b);
    LevelOfChanges([a, b]);
    MostCommonOfConstant([v], v);
  }

  /** Without change levels, the most common group count decides. */
  lemma LevelOfPatterns(versionTags: seq<string>)
    requires |versionTags| > 0
    requires forall k :: 0 <= k < |versionTags| ==> IsValidVersionTag(versionTags[k])
    requires |versionTags| > 1 ==> |PairChanges(versionTags)| == 0
    ensures LevelFromTags(versionTags) == if MostCommon(Map(versionTags, PartCount)) == 1 then 1 else 2
  {
  }

  /** The one change level of two tags in version order. */
  lemma PairChangesOfPair(a: string, b: string)
    requires IsValidVersionTag(a) && IsValidVersionTag(b)
    requires CleanTag(a) == a && CleanTag(b) == b && IsDotted(a) && IsDotted(b)
    requires !Less(Key(b), Key(a)) && ChangeLevel(a, b).Some?
    ensures PairChanges([a, b]) == [ChangeLevel(a, b).value]
  {
    CleanSortedPair(a, b);
    PairValuesOfTwo(a, b, ChangeLevel);
  }

  /** With at least one change level, the most common one is the level. */
  lemma LevelOfChanges(versionTags: seq<string>)
    requires |versionTags| > 0
    requires forall k :: 0 <= k < |versionTags| ==> IsValidVersionTag(versionTags[k])
    requires |PairChanges(versionTags)| > 0
    ensures LevelFromTags(versionTags) == MostCommon(PairChanges(versionTags))
  {
  }

  /** A tag of three single digits is a plain version tag whose release
      tuple is those digits. */
  lemma DigitTag(tag: string, x: nat, y: nat, z: nat)
    requires x < 10 && y < 10 && z < 10
    requires tag == [DigitChar(x), '.', DigitChar(y), '.', DigitChar(z)]
    ensures && IsValidVersionTag(tag) && CleanTag(tag) == tag && IsDotted(tag)
            && SplitOn(tag, '.') == [[DigitChar(x)], [DigitChar(y)], [DigitChar(z)]]
            && Release(tag) == [x, y, z]
  {
    var a, b, c := [DigitChar(x)], [DigitChar(y)], [DigitChar(z)];
    JoinThree(a, b, c);
    assert tag == a + "." + b + "." + c;
    var g := [a, b, c];
    TotalLengthThree(a, b, c);
    PlainTag(g);
    NumbersOfThree(a, b, c);
    assert NatOf(a) == x && NatOf(b) == y && NatOf(c) == z;
  }

  /** Two patch releases `x.y.z` and `x.y.w` of one minor series, with
      `0 < z < w` (such as `1.0.1` and `1.0.2`), give level 3: the pair
      statistics can detect the patch level. */
  lemma PatchSeriesLevel(x: nat, y: nat, z: nat, w: nat)
    requires x < 10 && y < 10 && 0 < z < w < 10
    ensures var a := [DigitChar(x), '.', DigitChar(y), '.', DigitChar(z)];
            var b := [DigitChar(x), '.', DigitChar(y), '.', DigitChar(w)];
            && IsValidVersionTag(a) && IsValidVersionTag(b) && LevelFromTags([a, b]) == 3
  {
    var a := [DigitChar(x), '.', DigitChar(y), '.', DigitChar(z)];
    var b := [DigitChar(x), '.', DigitChar(y), '.', DigitChar(w)];
    DigitTag(a, x, y, z);
    DigitTag(b, x, y, w);
    PatchKeys(x, y, z, w);
    assert [DigitChar(z)] != [DigitChar(w)] by {
      assert DigitValue(DigitChar(z)) != DigitValue(DigitChar(w));
    }
    assert ChangeLevel(a, b) == Some(3);
    TwoTagsLevel(a, b);
  }

  /** `x.y.w` is not older than `x.y.z` when `0 < z < w`. */
  lemma PatchKeys(x: nat, y: nat, z: nat, w: nat)
    requires 0 < z < w
    ensures DropTrailingZeros([x, y, z]) == [x, y, z] && DropTrailingZeros([x, y, w]) == [x, y, w]
    ensures !Less([x, y, w], [x, y, z])
  {
    assert [x, y, w][1..] == [y, w] && [x, y, z][1..] == [y, z];
    assert [y, w][1..] == [w] && [y, z][1..] == [z];
    assert [w][1..] == [] && [z][1..] == [];
    assert !Less([w], [z]);
    assert !Less([y, w], [y, z]);
  }
}
