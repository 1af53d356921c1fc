/** The registry side of tag checking (utils/registry_utils.py): which
    registries are refused, how a private-registry prefix is removed from an
    image name, which tags look like versions, and which tag is
    recommended among those a registry returned. */
module RegistryUtils {
  import opened Wrappers
  import opened Strs
  import opened Seqs
  import opened Versions

  // ---------------------------------------------------------------------
  // is_supported_registry
  // ---------------------------------------------------------------------

  /** Registries whose tags cannot be listed, in the order they are tried. */
  const UnsupportedRegistries: seq<string> :=
    ["gcr.io", "k8s.gcr.io", "asia.gcr.io", "eu.gcr.io", "us.gcr.io", "ghcr.io", "quay.io", "ecr.aws"]

  /** Index of the first registry of `regs` whose name occurs in `image`. */
  function FirstContained(regs: seq<string>, image: string): (k: nat)
    ensures k <= |regs|
    ensures forall j :: 0 <= j < k ==> !Contains(image, regs[j])
    ensures k < |regs| ==> Contains(image, regs[k])
  {
    FirstWhere(regs, r => Contains(image, r))
  }

  /** The unsupported registry an image name is reported for, if any. */
  function UnsupportedRegistryOf(image: string): Option<string> {
    var k := FirstContained(UnsupportedRegistries, image);
    if k < |UnsupportedRegistries| then Some(UnsupportedRegistries[k]) else None
  }

  /** Returns `(True, None)` when no unsupported registry name occurs in the
      image name, and otherwise `(False, r)` for the first such `r`. */
  method IsSupportedRegistry(image: string) returns (supported: bool, registry: Option<string>)
    ensures supported <==> forall j :: 0 <= j < |UnsupportedRegistries| ==> !Contains(image, UnsupportedRegistries[j])
    ensures supported <==> registry.None?
    ensures registry == UnsupportedRegistryOf(image)
  {
    var i := 0;
    while i < |UnsupportedRegistries|
      invariant 0 <= i <= |UnsupportedRegistries|
      invariant forall j :: 0 <= j < i ==> !Contains(image, UnsupportedRegistries[j])
    {
      if Contains(image, UnsupportedRegistries[i]) {
        return false, Some(UnsupportedRegistries[i]);
      }
      i := i + 1;
    }
    return true, None;
  }

  /** Because `gcr.io` is tried first, an image on one of the regional
      `*.gcr.io` registries is always reported as `gcr.io`: the later
      entries `k8s.gcr.io`, `asia.gcr.io`, `eu.gcr.io` and `us.gcr.io` are
      never reported. */
  lemma RegionalGcrReportedAsGcr(image: string)
    ensures UnsupportedRegistryOf(image) != Some("k8s.gcr.io")
    ensures UnsupportedRegistryOf(image) != Some("asia.gcr.io")
    ensures UnsupportedRegistryOf(image) != Some("eu.gcr.io")
    ensures UnsupportedRegistryOf(image) != Some("us.gcr.io")
  {
    var k := FirstContained(UnsupportedRegistries, image);
    if 1 <= k <= 4 {
      RegionalContainsGcr(image, k);
      assert false;
    }
  }

  /** An image containing a regional `*.gcr.io` registry contains `gcr.io`. */
  lemma RegionalContainsGcr(image: string, k: nat)
    requires 1 <= k <= 4 && Contains(image, UnsupportedRegistries[k])
    ensures Contains(image, UnsupportedRegistries[0])
  {
    var r := UnsupportedRegistries[k];
    var p := if k == 1 then "k8s." else if k == 2 then "asia." else if k == 3 then "eu." else "us.";
    assert r == p + "gcr.io";
    ContainsSuffixOf(image, r, p, "gcr.io");
  }

  // ---------------------------------------------------------------------
  // get_public_image_name
  // ---------------------------------------------------------------------

  /** The domain part of a private registry entry: its text before the
      first `/`. */
  function RegistryHost(registry: string): (host: string)
    ensures StartsWith(registry, host) && '/' !in host
  {
    FirstPieceIsPrefix(registry, '/');
    SplitOn(registry, '/')[0]
  }

  /** Index of the first `/`-separated part of the image name in which the
      host occurs. */
  function HostPart(parts: seq<string>, host: string): (i: nat)
    ensures i <= |parts|
    ensures forall j :: 0 <= j < i ==> !Contains(parts[j], host)
    ensures i < |parts| ==> Contains(parts[i], host)
  {
    FirstWhere(parts, p => Contains(p, host))
  }

  /** The image name with the private-registry prefix removed: for each
      registry in turn that occurs in the name, the parts of the name after
      the first part containing the registry's host; when no part contains
      it, the next registry is tried; the name itself when none applies. */
  function PublicImageName(image: string, registries: seq<string>): string
    decreases |registries|
  {
    if |registries| == 0 then image
    else if Contains(image, registries[0]) then
      var parts := SplitOn(image, '/');
      var i := HostPart(parts, RegistryHost(registries[0]));
      if i < |parts| then Join(parts[i + 1..], '/') else PublicImageName(image, registries[1..])
    else PublicImageName(image, registries[1..])
  }

  method GetPublicImageName(image: string, registries: seq<string>) returns (publicImage: string)
    ensures publicImage == PublicImageName(image, registries)
  {
    if |registries| == 0 {
      return image;
    }
    var k := 0;
    while k < |registries|
      invariant 0 <= k <= |registries|
      invariant PublicImageName(image, registries) == PublicImageName(image, registries[k..])
    {
      var registry := registries[k];
      assert registries[k..][1..] == registries[k + 1..];
      if Contains(image, registry) {
        var parts := SplitOn(image, '/');
        var base := SplitOn(registry, '/')[0];
        var i := 0;
        while i < |parts|
          invariant 0 <= i <= |parts|
          invariant forall j :: 0 <= j < i ==> !Contains(parts[j], base)
        {
          if Contains(parts[i], base) {
            assert HostPart(parts, RegistryHost(registry)) == i;
            return Join(parts[i + 1..], '/');
          }
          i := i + 1;
        }
        assert HostPart(parts, RegistryHost(registry)) == |parts|;
      }
      k := k + 1;
    }
    return image;
  }

  /** A registry that occurs in the name always has its host inside one of
      the name's parts, so the search over the parts never falls through. */
  lemma HostAlwaysFound(image: string, registry: string)
    requires Contains(image, registry)
    ensures HostPart(SplitOn(image, '/'), RegistryHost(registry)) < |SplitOn(image, '/')|
  {
    var host := RegistryHost(registry);
    ContainsPrefixOf(image, registry, host);
    ContainedInAPiece(image, host, '/');
  }

  /** What the prefix removal computes: nothing changes when no registry
      occurs in the name; otherwise the first registry that occurs decides,
      the result is the tail of the name after the part holding its host,
      and putting the removed parts back in front gives the name again. */
  lemma {:induction false} PublicImageNameSpec(image: string, registries: seq<string>)
    ensures var k := FirstContained(registries, image);
            k == |registries| ==> PublicImageName(image, registries) == image
    ensures var k := FirstContained(registries, image);
            var parts := SplitOn(image, '/');
            k < |registries| ==>
              var i := HostPart(parts, RegistryHost(registries[k]));
              && i < |parts|
              && PublicImageName(image, registries) == Join(parts[i + 1..], '/')
              && (i + 1 < |parts| ==>
                    image == Join(parts[..i + 1], '/') + "/" + PublicImageName(image, registries))
              && (i + 1 == |parts| ==> PublicImageName(image, registries) == "")
    decreases |registries|, 1
  {
    if |registries| > 0 {
      if Contains(image, registries[0]) {
        PublicImageNameFirst(image, registries);
      } else {
        PublicImageNameLater(image, registries);
      }
    }
  }

  /** The first registry occurs in the name. */
  lemma PublicImageNameFirst(image: string, registries: seq<string>)
    requires |registries| > 0 && Contains(image, registries[0])
    ensures var k := FirstContained(registries, image);
            k == |registries| ==> PublicImageName(image, registries) == image
    ensures var k := FirstContained(registries, image);
            var parts := SplitOn(image, '/');
            k < |registries| ==>
              var i := HostPart(parts, RegistryHost(registries[k]));
              && i < |parts|
              && PublicImageName(image, registries) == Join(parts[i + 1..], '/')
              && (i + 1 < |parts| ==>
                    image == Join(parts[..i + 1], '/') + "/" + PublicImageName(image, registries))
              && (i + 1 == |parts| ==> PublicImageName(image, registries) == "")
  {
    HostSplit(image, registries[0]);
    assert FirstContained(registries, image) == 0;
    var parts := SplitOn(image, '/');
    var i := HostPart(parts, RegistryHost(registries[0]));
    assert PublicImageName(image, registries) == Join(parts[i + 1..], '/');
  }

  /** The first registry does not occur in the name: the rest decide. */
  lemma {:induction false} PublicImageNameLater(image: string, registries: seq<string>)
    requires |registries| > 0 && !Contains(image, registries[0])
    ensures var k := FirstContained(registries, image);
            k == |registries| ==> PublicImageName(image, registries) == image
    ensures var k := FirstContained(registries, image);
            var parts := SplitOn(image, '/');
            k < |registries| ==>
              var i := HostPart(parts, RegistryHost(registries[k]));
              && i < |parts|
              && PublicImageName(image, registries) == Join(parts[i + 1..], '/')
              && (i + 1 < |parts| ==>
                    image == Join(parts[..i + 1], '/') + "/" + PublicImageName(image, registries))
              && (i + 1 == |parts| ==> PublicImageName(image, registries) == "")
    decreases |registries|, 0
  {
    PublicImageNameSpec(image, registries[1..]);
    FirstContainedShift(registries, image);
    var k := FirstContained(registries[1..], image);
    assert PublicImageName(image, registries) == PublicImageName(image, registries[1..]);
    if k < |registries| - 1 {
      assert registries[k + 1] == registries[1..][k];
    }
  }

  /** The name splits around the part holding the host of a registry it
      contains. */
  lemma HostSplit(image: string, registry: string)
    requires Contains(image, registry)
    ensures var parts := SplitOn(image, '/');
            var i := HostPart(parts, RegistryHost(registry));
            && i < |parts|
            && (i + 1 < |parts| ==> image == Join(parts[..i + 1], '/') + "/" + Join(parts[i + 1..], '/'))
            && (i + 1 == |parts| ==> Join(parts[i + 1..], '/') == "")
  {
    HostAlwaysFound(image, registry);
    var parts := SplitOn(image, '/');
    var i := HostPart(parts, RegistryHost(registry));
    if i + 1 < |parts| {
      SplitJoin(image, '/');
      assert parts == parts[..i + 1] + parts[i + 1..];
      JoinConcat(parts[..i + 1], parts[i + 1..], '/');
    } else {
      assert parts[i + 1..] == [];
    }
  }

  /** A first registry that does not occur moves the search one on. */
  lemma FirstContainedShift(registries: seq<string>, image: string)
    requires |registries| > 0 && !Contains(image, registries[0])
    ensures FirstContained(registries, image) == FirstContained(registries[1..], image) + 1
  {
    var k := FirstContained(registries[1..], image);
    assert forall j :: 0 < j < k + 1 ==> registries[j] == registries[1..][j - 1];
  }

  // ---------------------------------------------------------------------
  // is_valid_version_tag
  // ---------------------------------------------------------------------

  predicate IsLowerAlnum(c: char) { 'a' <= c <= 'z' || IsDigit(c) }

  /** `^v?\d+(\.\d+){0,3}(-[a-z0-9]+)?$`: an optional `v`, one to four
      dot-separated digit groups, and an optional `-` followed by lower-case
      letters and digits. */
  predicate MatchesVersionShape(tag: string) {
    var t := StripV(tag);
    var i := IndexOf(t, '-');
    && IsDotted(t[..i])
    && |SplitOn(t[..i], '.')| <= 4
    && (i == |t| || (i + 1 < |t| && forall k :: i < k < |t| ==> IsLowerAlnum(t[k])))
  }

  /** A tag that looks like a version and not like a date or a build id:
      not six or more bare digits, at most four runs of digits holding at
      most eight digits together, and the version shape. */
  predicate IsValidVersionTag(tag: string) {
    && !(|tag| >= 6 && AllDigits(tag))
    && |DigitRuns(tag)| <= 4
    && TotalLength(DigitRuns(tag)) <= 8
    && MatchesVersionShape(tag)
  }

  /** The parts a version-shaped tag is written from. */
  predicate WellFormedParts(groups: seq<string>, suffix: Option<string>) {
    && |groups| >= 1
    && (forall k :: 0 <= k < |groups| ==> |groups[k]| > 0 && AllDigits(groups[k]))
    && (suffix.Some? ==> |suffix.value| > 0 && forall k :: 0 <= k < |suffix.value| ==> IsLowerAlnum(suffix.value[k]))
  }

  /** The tail of a written tag after its numeric part. */
  function SuffixText(suffix: Option<string>): string {
    if suffix.Some? then "-" + suffix.value else ""
  }

  /** Writes a tag: `v` if asked, the groups joined by dots, then `-suffix`. */
  function RenderTag(hasV: bool, groups: seq<string>, suffix: Option<string>): string {
    (if hasV then "v" else "") + Join(groups, '.') + SuffixText(suffix)
  }

  /** The dot-separated groups of a tag's numeric part. */
  function TagGroups(tag: string): seq<string> {
    SplitOn(BeforeDash(StripV(tag)), '.')
  }

  /** The joined groups are non-empty and start with a digit. */
  lemma JoinedGroupsStartWithDigit(groups: seq<string>)
    requires WellFormedParts(groups, None)
    ensures |Join(groups, '.')| > 0 && IsDigit(Join(groups, '.')[0])
  {
    if |groups| > 1 {
      assert Join(groups, '.') == groups[0] + ['.'] + Join(groups[1..], '.');
    }
  }

  /** The joined groups hold digits and dots only. */
  lemma JoinedGroupsChars(groups: seq<string>)
    requires WellFormedParts(groups, None)
    ensures '-' !in Join(groups, '.')
    ensures |groups| > 1 ==> '.' in Join(groups, '.')
  {
    var d := Join(groups, '.');
    if |groups| > 1 {
      assert d == groups[0] + ['.'] + Join(groups[1..], '.');
      assert d[|groups[0]|] == '.';
    }
    if '-' in d {
      JoinChars(groups, '.', '-');
    }
  }

  lemma RenderedUnprefixed(hasV: bool, groups: seq<string>, suffix: Option<string>)
    requires WellFormedParts(groups, suffix)
    ensures StripV(RenderTag(hasV, groups, suffix)) == Join(groups, '.') + SuffixText(suffix)
    ensures hasV ==> RenderTag(hasV, groups, suffix) == "v" + Join(groups, '.') + SuffixText(suffix)
    ensures !hasV ==> RenderTag(hasV, groups, suffix) == Join(groups, '.') + SuffixText(suffix)
  {
    var d := Join(groups, '.');
    var x := SuffixText(suffix);
    JoinedGroupsStartWithDigit(groups);
    PrefixedText(d, x);
    if hasV {
      StripVOfV(d + x);
    } else {
      StripVDigitFirst(d, x);
    }
  }

  lemma PrefixedText(d: string, x: string)
    ensures "" + d + x == d + x && "v" + d + x == "v" + (d + x)
  {
  }

  /** A written tag loses exactly its `v` to `StripV`, and its numeric part
      ends at the first `-`. */
  lemma RenderedShape(hasV: bool, groups: seq<string>, suffix: Option<string>)
    requires WellFormedParts(groups, suffix)
    ensures var d := Join(groups, '.');
            var t := StripV(RenderTag(hasV, groups, suffix));
            && t == d + SuffixText(suffix)
            && IndexOf(t, '-') == |d|
            && t[..IndexOf(t, '-')] == d
            && SplitOn(d, '.') == groups
  {
    var d := Join(groups, '.');
    var t := d + SuffixText(suffix);
    RenderedUnprefixed(hasV, groups, suffix);
    JoinedGroupsStartWithDigit(groups);
    JoinedGroupsChars(groups);
    IndexOfConcat(d, SuffixText(suffix), '-');
    assert IndexOf(SuffixText(suffix), '-') == 0;
    assert t[..|d|] == d;
    assert forall k :: 0 <= k < |groups| ==> '.' !in groups[k];
    JoinSplit(groups, '.');
  }

  lemma DigitRunsAfterV(t: string)
    ensures DigitRuns("v" + t) == DigitRuns(t)
  {
    assert ("v" + t)[1..] == t;
  }

  /** The digit runs of the numeric part and suffix: the groups, then the
      runs inside the suffix. */
  lemma UnprefixedRuns(groups: seq<string>, suffix: Option<string>)
    requires WellFormedParts(groups, suffix)
    ensures DigitRuns(Join(groups, '.') + SuffixText(suffix)) == groups + DigitRuns(suffix.GetOr(""))
  {
    var d := Join(groups, '.');
    DigitRunsOfJoin(groups, '.');
    if suffix.Some? {
      assert d + SuffixText(suffix) == d + ['-'] + suffix.value;
      DigitRunsConcat(d, '-', suffix.value);
    } else {
      assert d + SuffixText(suffix) == d;
    }
  }

  /** The digit runs of a written tag: its groups, then the runs inside its
      suffix. */
  lemma RenderedRuns(hasV: bool, groups: seq<string>, suffix: Option<string>)
    requires WellFormedParts(groups, suffix)
    ensures DigitRuns(RenderTag(hasV, groups, suffix)) == groups + DigitRuns(suffix.GetOr(""))
  {
    var t := Join(groups, '.') + SuffixText(suffix);
    var rendered := RenderTag(hasV, groups, suffix);
    assert rendered == if hasV then "v" + t else t;
    assert DigitRuns(rendered) == DigitRuns(t) by {
      if hasV { DigitRunsAfterV(t); }
    }
    UnprefixedRuns(groups, suffix);
  }

  /** Only a single bare group is written with digits alone. */
  lemma RenderedAllDigits(hasV: bool, groups: seq<string>, suffix: Option<string>)
    requires WellFormedParts(groups, suffix)
    ensures AllDigits(RenderTag(hasV, groups, suffix)) <==> !hasV && suffix.None? && |groups| == 1
    ensures !hasV && suffix.None? && |groups| == 1 ==> RenderTag(hasV, groups, suffix) == groups[0]
  {
    var d := Join(groups, '.');
    var tag := RenderTag(hasV, groups, suffix);
    RenderedUnprefixed(hasV, groups, suffix);
    JoinedGroupsStartWithDigit(groups);
    JoinedGroupsChars(groups);
    if hasV {
      assert tag[0] == 'v';
    } else if suffix.Some? {
      assert tag == d + ("-" + suffix.value);
      assert tag[|d|] == '-';
    } else if |groups| > 1 {
      var j :| 0 <= j < |d| && d[j] == '.';
      assert tag == d;
      assert tag[j] == '.';
    } else {
      assert tag == d;
    }
  }

  /** A written tag has the version shape exactly when it has at most
      four groups. */
  lemma RenderedMatchesShape(hasV: bool, groups: seq<string>, suffix: Option<string>)
    requires WellFormedParts(groups, suffix)
    ensures MatchesVersionShape(RenderTag(hasV, groups, suffix)) <==> |groups| <= 4
  {
    var d := Join(groups, '.');
    var t := StripV(RenderTag(hasV, groups, suffix));
    RenderedShape(hasV, groups, suffix);
    var i := IndexOf(t, '-');
    assert IsDotted(t[..i]);
    if suffix.Some? {
      var sfx := suffix.value;
      assert t == d + ("-" + sfx);
      CharsAfterDash(t, d, sfx);
    } else {
      assert i == |t|;
    }
  }

  /** The characters after the dash of `d-sfx` are those of `sfx`. */
  lemma CharsAfterDash(t: string, d: string, sfx: string)
    requires t == d + ("-" + sfx)
    ensures |t| == |d| + 1 + |sfx| && forall k :: |d| < k < |t| ==> t[k] == sfx[k - |d| - 1]
  {
  }

  /** Which written tags are valid: exactly those with at most four digit
      runs in total (groups plus the runs inside the suffix), at most eight
      digits in total, and that are not a bare group of six or more digits. */
  lemma RenderedTagValidity(hasV: bool, groups: seq<string>, suffix: Option<string>)
    requires WellFormedParts(groups, suffix)
    ensures var sfx := suffix.GetOr("");
            IsValidVersionTag(RenderTag(hasV, groups, suffix)) <==>
              && |groups| + |DigitRuns(sfx)| <= 4
              && TotalLength(groups) + TotalLength(DigitRuns(sfx)) <= 8
              && !(!hasV && suffix.None? && |groups| == 1 && |groups[0]| >= 6)
  {
    var sfx := suffix.GetOr("");
    RenderedMatchesShape(hasV, groups, suffix);
    RenderedRuns(hasV, groups, suffix);
    RenderedAllDigits(hasV, groups, suffix);
    TotalLengthConcat(groups, DigitRuns(sfx));
  }

  /** A version-shaped tag splits into well-formed parts. */
  lemma ShapedTagParts(tag: string)
    requires MatchesVersionShape(tag)
    ensures WellFormedParts(TagGroups(tag), Variant(tag))
  {
    var t := StripV(tag);
    var i := IndexOf(t, '-');
    assert TagGroups(tag) == SplitOn(t[..i], '.');
    if i < |t| {
      var sfx := t[i + 1..];
      assert Variant(tag) == Some(sfx);
      assert forall k :: 0 <= k < |sfx| ==> sfx[k] == t[k + i + 1];
    }
  }

  /** A written tag in terms of its joined groups. */
  lemma RenderJoined(hasV: bool, groups: seq<string>, suffix: Option<string>, d: string)
    requires Join(groups, '.') == d
    ensures RenderTag(hasV, groups, suffix) == (if hasV then "v" else "") + d + SuffixText(suffix)
  {
  }

  /** The variant of a version-shaped tag is what follows its numeric part. */
  lemma ShapedTagSuffix(tag: string)
    requires MatchesVersionShape(tag)
    ensures SuffixText(Variant(tag)) == StripV(tag)[IndexOf(StripV(tag), '-')..]
  {
    var t := StripV(tag);
    var i := IndexOf(t, '-');
    if i < |t| {
      assert t[i..] == "-" + t[i + 1..];
    }
  }

  /** A version-shaped tag is written from its `v`, groups and variant. */
  lemma ShapedTagIsRendered(tag: string)
    requires MatchesVersionShape(tag)
    ensures tag == RenderTag(StartsWith(tag, "v"), TagGroups(tag), Variant(tag))
  {
    var t := StripV(tag);
    var i := IndexOf(t, '-');
    var d := t[..i];
    var prefix := if StartsWith(tag, "v") then "v" else "";
    ShapedTagSuffix(tag);
    SplitJoin(d, '.');
    StripVRestore(tag);
    RenderJoined(StartsWith(tag, "v"), TagGroups(tag), Variant(tag), d);
    Reassemble(tag, prefix, t, i, RenderTag(StartsWith(tag, "v"), TagGroups(tag), Variant(tag)));
  }

  lemma Reassemble(tag: string, prefix: string, t: string, i: nat, r: string)
    requires i <= |t| && tag == prefix + t && r == prefix + t[..i] + t[i..]
    ensures tag == r
  {
    assert t == t[..i] + t[i..];
  }

  /** Every valid tag is written from its own parts: `v` if present, its
      numeric groups and its variant. */
  lemma ValidTagIsRendered(tag: string)
    requires IsValidVersionTag(tag)
    ensures WellFormedParts(TagGroups(tag), Variant(tag))
    ensures tag == RenderTag(StartsWith(tag, "v"), TagGroups(tag), Variant(tag))
  {
    ShapedTagParts(tag);
    ShapedTagIsRendered(tag);
  }

  /** `1.24-alpine` is a valid tag. */
  lemma ValidAlpineTag()
    ensures IsValidVersionTag("1.24-alpine")
  {
    AlpineRendered();
    AlpineParts();
    RenderedTagValidity(false, ["1", "24"], Some("alpine"));
  }

  /** `1.24-alpine` written from its parts. */
  lemma AlpineRendered()
    ensures RenderTag(false, ["1", "24"], Some("alpine")) == "1.24-alpine"
  {
    assert Join(["1", "24"], '.') == "1.24";
  }

  /** The parts of `1.24-alpine` are well formed, and its variant holds no
      digit. */
  lemma AlpineParts()
    ensures WellFormedParts(["1", "24"], Some("alpine"))
    ensures DigitRuns("alpine") == []
  {
    assert forall k :: 0 <= k < |"alpine"| ==> !IsDigit("alpine"[k]);
  }

  /** A date-like run of digits is refused. */
  lemma DateTagInvalid()
    ensures !IsValidVersionTag("20220101")
  {
    assert AllDigits("20220101");
  }

  /** A version-shaped tag starts with a digit once its `v` is stripped. */
  lemma ShapedTagStartsWithDigit(tag: string)
    requires MatchesVersionShape(tag)
    ensures |StripV(tag)| > 0 && IsDigit(StripV(tag)[0])
  {
    var t := StripV(tag);
    var d := t[..IndexOf(t, '-')];
    FirstPieceIsPrefix(d, '.');
    assert d[0] == SplitOn(d, '.')[0][0];
  }

  /** A word is refused. */
  lemma WordTagInvalid()
    ensures !IsValidVersionTag("latest")
  {
    if MatchesVersionShape("latest") {
      ShapedTagStartsWithDigit("latest");
      assert false;
    }
  }

  /** Six numeric groups are refused. */
  lemma SixGroupsInvalid()
    ensures !IsValidVersionTag("1.2.3.4.5.6")
  {
    var groups := ["1", "2", "3", "4", "5", "6"];
    SixGroupsJoined();
    assert forall k :: 0 <= k < |groups| ==> |groups[k]| > 0 && AllDigits(groups[k]);
    DigitRunsOfJoin(groups, '.');
  }

  lemma SixGroupsJoined()
    ensures Join(["1", "2", "3", "4", "5", "6"], '.') == "1.2.3.4.5.6"
  {
  }

  // ---------------------------------------------------------------------
  // find_recommended_tag
  // ---------------------------------------------------------------------

  /** Development and test builds, skipped when versions are collected. */
  predicate IsPreRelease(tag: string) {
    Contains(tag, "alpha") || Contains(tag, "beta") || Contains(tag, "rc")
    || Contains(tag, "dev") || Contains(tag, "test")
  }

  /** The base version a tag is filed under, if it is filed at all: not a
      pre-release, of the shape `v?N(.N)*(-...)?`, and with a valid base. */
  function CandidateBase(tag: string): Option<string> {
    if IsPreRelease(tag) then None
    else
      match BaseVersion(tag)
      case Some(b) => if IsValidVersionTag(b) then Some(b) else None
      case None => None
  }

  /** The comparison key of a base: its release tuple once the `v` is
      stripped. */
  function BaseKey(b: string): seq<nat> {
    var s := StripV(b);
    if IsDotted(s) then Key(s) else []
  }

  /** The variant asked for, taken from the current tag. */
  function CurrentVariant(current: Option<string>): Option<string> {
    if current.Some? then Variant(current.value) else None
  }

  /** How tags are read for the selection: which base a tag is filed under
      (if any), which variant it carries, and the order key of a base. */
  datatype Reading = Reading(file: string -> Option<string>, variant: string -> Option<string>, key: string -> seq<nat>)

  /** The reading `find_recommended_tag` uses. */
  const Standard := Reading(CandidateBase, Variant, BaseKey)

  function Bases(tags: seq<string>, rd: Reading): seq<string> {
    FirstSeen(tags, rd.file)
  }

  /** The position `sorted(..., key=version)[-1]` picks: the sort is stable,
      so among the bases with the greatest key it is the last one. */
  function NewestBase(tags: seq<string>, rd: Reading): string
    requires |Bases(tags, rd)| > 0
  {
    var bases := Bases(tags, rd);
    bases[LastMaximum(Map(bases, rd.key))]
  }

  function VariantIndex(members: seq<string>, rd: Reading, v: string): (k: nat)
    ensures k <= |members|
    ensures forall j :: 0 <= j < k ==> rd.variant(members[j]) != Some(v)
    ensures k < |members| ==> rd.variant(members[k]) == Some(v)
  {
    FirstWhere(members, t => rd.variant(t) == Some(v))
  }

  function PrefixIndex(tags: seq<string>, p: string): (k: nat)
    ensures k <= |tags|
    ensures forall j :: 0 <= j < k ==> !StartsWith(tags[j], p)
    ensures k < |tags| ==> StartsWith(tags[k], p)
  {
    FirstWhere(tags, t => StartsWith(t, p))
  }

  /** The selection: the newest base's tag with variant `cv` if there is
      one; else the first tag of all that starts with
      `<newest base>-<cv>`; else the bare base if it is one of its own
      tags; else the first tag filed under the newest base. */
  function Recommend(tags: seq<string>, rd: Reading, cv: Option<string>): Option<string> {
    if |Bases(tags, rd)| == 0 then None
    else
      var nb := NewestBase(tags, rd);
      var members := Group(tags, rd.file, nb);
      FirstSeenGroups(tags, rd.file, nb);
      if cv.Some? && VariantIndex(members, rd, cv.value) < |members| then
        Some(members[VariantIndex(members, rd, cv.value)])
      else if cv.Some? && PrefixIndex(tags, nb + "-" + cv.value) < |tags| then
        Some(tags[PrefixIndex(tags, nb + "-" + cv.value)])
      else if nb in members then Some(nb)
      else Some(members[0])
  }

  /** `find_recommended_tag(tags, current)` */
  function RecommendedTag(tags: seq<string>, current: Option<string>): Option<string> {
    Recommend(tags, Standard, CurrentVariant(current))
  }

  /** The dictionary `base_versions`: every tag that is no pre-release and
      has a valid base, filed under that base; the keys kept in the order
      they were first seen. */
  method FileByBase(tags: seq<string>) returns (order: seq<string>, groups: map<string, seq<string>>)
    ensures order == FirstSeen(tags, CandidateBase)
    ensures forall b :: b in groups <==> b in order
    ensures forall b :: b in groups ==> groups[b] == Group(tags, CandidateBase, b)
  {
    order := [];
    groups := map[];
    var i := 0;
    while i < |tags|
      invariant 0 <= i <= |tags|
      invariant order == FirstSeen(tags[..i], CandidateBase)
      invariant forall b :: b in groups <==> b in order
      invariant forall b :: b in groups ==> groups[b] == Group(tags[..i], CandidateBase, b)
    {
      FileOneMore(tags, CandidateBase, i, order, groups);
      order, groups := FileTag(tags[i], order, groups);
      i := i + 1;
    }
    TakeAll(tags);
  }

  /** The loop body of the grouping: a tag that is no pre-release and has a
      valid base is appended to that base's list, the base being added to
      the dictionary first when it is new. */
  method FileTag(tag: string, order: seq<string>, groups: map<string, seq<string>>)
    returns (order': seq<string>, groups': map<string, seq<string>>)
    ensures var c := CandidateBase(tag);
            && order' == (if c.Some? && c.value !in groups then order + [c.value] else order)
            && groups' == if c.Some?
                          then groups[c.value := (if c.value in groups then groups[c.value] else []) + [tag]]
                          else groups
  {
    order', groups' := order, groups;
    if !IsPreRelease(tag) {
      var base := BaseVersion(tag);
      if base.Some? && IsValidVersionTag(base.value) {
        var filed := if base.value in groups then groups[base.value] else [];
        if base.value !in groups {
          order' := order + [base.value];
        }
        groups' := groups[base.value := filed + [tag]];
      }
    }
  }

  /** `sorted(numeric_versions, key=version)[-1]`, found by one pass that
      keeps the last of the greatest keys seen so far. */
  method NewestPosition(order: seq<string>) returns (best: nat)
    requires |order| > 0
    ensures best == LastMaximum(Map(order, BaseKey))
  {
    best := 0;
    var j := 1;
    while j < |order|
      invariant 1 <= j <= |order|
      invariant best == LastMaximum(Map(order[..j], BaseKey))
    {
      NewestOneMore(order, j, best);
      if !Less(BaseKey(order[j]), BaseKey(order[best])) {
        best := j;
      }
      j := j + 1;
    }
    assert order[..j] == order;
  }

  /** One more base in the scan for the newest: it takes over unless it is
      older than the newest so far. */
  lemma NewestOneMore(order: seq<string>, j: nat, best: nat)
    requires 1 <= j < |order| && best == LastMaximum(Map(order[..j], BaseKey))
    ensures best < j
    ensures LastMaximum(Map(order[..j + 1], BaseKey))
            == if Less(BaseKey(order[j]), BaseKey(order[best])) then best else j
  {
    var keys := Map(order[..j], BaseKey);
    MapOneMore(order, j, BaseKey);
    LastMaximumSnoc(keys, BaseKey(order[j]));
    assert keys[best] == BaseKey(order[best]) by {
      assert order[..j][best] == order[best];
    }
  }

  /** `for tag in newest_tags: if variant matches: return tag`, as the
      position of the first tag carrying variant `v`. */
  method SearchVariant(members: seq<string>, rd: Reading, v: string) returns (k: nat)
    ensures k == VariantIndex(members, rd, v)
  {
    k := 0;
    while k < |members| && rd.variant(members[k]) != Some(v)
      invariant k <= |members|
      invariant forall q :: 0 <= q < k ==> rd.variant(members[q]) != Some(v)
    {
      k := k + 1;
    }
    FirstWhereUnique(members, t => rd.variant(t) == Some(v), k);
  }

  /** `for tag in tags: if tag.startswith(search): return tag`, as the
      position of the first tag starting with `p`. */
  method SearchPrefix(tags: seq<string>, p: string) returns (k: nat)
    ensures k == PrefixIndex(tags, p)
  {
    k := 0;
    while k < |tags| && !StartsWith(tags[k], p)
      invariant k <= |tags|
      invariant forall q :: 0 <= q < k ==> !StartsWith(tags[q], p)
    {
      k := k + 1;
    }
    FirstWhereUnique(tags, t => StartsWith(t, p), k);
  }

  /** The searches that follow the sort, given the newest base and its
      tags: the tag carrying the current variant, the first tag starting
      `<base>-<variant>`, the bare base, and else the base's first tag. */
  method SelectFromNewest(tags: seq<string>, rd: Reading, cv: Option<string>, newest: string, newestTags: seq<string>)
    returns (r: Option<string>)
    requires |Bases(tags, rd)| > 0
    requires newest == NewestBase(tags, rd)
    requires newestTags == Group(tags, rd.file, newest)
    ensures r == Recommend(tags, rd, cv)
  {
    FirstSeenGroups(tags, rd.file, newest);
    if cv.Some? {
      var k := SearchVariant(newestTags, rd, cv.value);
      if k < |newestTags| {
        return Some(newestTags[k]);
      }
      var search := newest + "-" + cv.value;
      k := SearchPrefix(tags, search);
      if k < |tags| {
        return Some(tags[k]);
      }
    }
    if newest in newestTags {
      return Some(newest);
    }
    return Some(newestTags[0]);
  }

  /** `find_recommended_tag(tags, current)`: files the tags under their
      bases, takes the newest base and searches its tags. */
  method FindRecommendedTag(tags: seq<string>, current: Option<string>) returns (r: Option<string>)
    ensures r == RecommendedTag(tags, current)
  {
    if |tags| == 0 {
      return None;
    }
    var currentVariant: Option<string> := None;
    if current.Some? && current.value != "" {
      currentVariant := Variant(current.value);
    }
    assert currentVariant == CurrentVariant(current);
    var order, groups := FileByBase(tags);
    if |order| == 0 {
      return None;
    }
    var best := NewestPosition(order);
    var newest := order[best];
    FirstSeenGroups(tags, CandidateBase, newest);
    r := SelectFromNewest(tags, Standard, currentVariant, newest, groups[newest]);
  }

  /** There is an answer exactly when some tag is filed. */
  lemma RecommendNone(tags: seq<string>, rd: Reading, cv: Option<string>)
    ensures Recommend(tags, rd, cv).None? <==> forall k :: 0 <= k < |tags| ==> rd.file(tags[k]).None?
  {
    var bases := Bases(tags, rd);
    if |bases| > 0 {
      FirstSeenGroups(tags, rd.file, bases[0]);
    }
    if exists k :: 0 <= k < |tags| && rd.file(tags[k]).Some? {
      var k :| 0 <= k < |tags| && rd.file(tags[k]).Some?;
      FirstSeenGroups(tags, rd.file, rd.file(tags[k]).value);
    }
  }

  /** The newest base is at least as new as the base of every filed tag. */
  lemma NewestBaseIsMaximal(tags: seq<string>, rd: Reading, t: string)
    requires t in tags && rd.file(t).Some?
    ensures |Bases(tags, rd)| > 0
    ensures !Less(rd.key(NewestBase(tags, rd)), rd.key(rd.file(t).value))
  {
    var bases := Bases(tags, rd);
    var b := rd.file(t).value;
    var i :| 0 <= i < |tags| && tags[i] == t;
    FirstSeenGroups(tags, rd.file, b);
    var j :| 0 <= j < |bases| && bases[j] == b;
    var keys := Map(bases, rd.key);
    LastMaximumIsLast(keys);
    assert keys[j] == rd.key(b);
  }

  /** The answer is one of the tags; it is filed under the newest base or,
      only when a variant is asked for, starts with `<newest base>-<cv>`. */
  lemma RecommendFromNewest(tags: seq<string>, rd: Reading, cv: Option<string>)
    requires Recommend(tags, rd, cv).Some?
    ensures |Bases(tags, rd)| > 0
    ensures var nb := NewestBase(tags, rd);
            var r := Recommend(tags, rd, cv).value;
            && r in tags
            && (rd.file(r) == Some(nb) || (cv.Some? && StartsWith(r, nb + "-" + cv.value)))
  {
    var nb := NewestBase(tags, rd);
    var members := Group(tags, rd.file, nb);
    var r := Recommend(tags, rd, cv).value;
    FilterIsSublist(tags, FiledUnder(rd.file, nb));
    FirstSeenGroups(tags, rd.file, nb);
    if cv.Some? && VariantIndex(members, rd, cv.value) < |members| {
      assert r == members[VariantIndex(members, rd, cv.value)];
    } else if cv.Some? && PrefixIndex(tags, nb + "-" + cv.value) < |tags| {
      assert r == tags[PrefixIndex(tags, nb + "-" + cv.value)];
    } else if nb in members {
      assert r == nb;
    } else {
      assert r == members[0];
    }
    assert r in members ==> r in tags && FiledUnder(rd.file, nb)(r);
  }

  /** When the newest base has a tag with the variant asked for, the answer
      is such a tag. */
  lemma RecommendKeepsVariant(tags: seq<string>, rd: Reading, v: string)
    requires |Bases(tags, rd)| > 0
    requires exists k :: 0 <= k < |tags| && rd.variant(tags[k]) == Some(v)
                      && rd.file(tags[k]) == Some(NewestBase(tags, rd))
    ensures var r := Recommend(tags, rd, Some(v));
            r.Some? && rd.variant(r.value) == Some(v) && rd.file(r.value) == Some(NewestBase(tags, rd))
  {
    var nb := NewestBase(tags, rd);
    var members := Group(tags, rd.file, nb);
    FilterIsSublist(tags, FiledUnder(rd.file, nb));
    var k :| 0 <= k < |tags| && rd.variant(tags[k]) == Some(v) && rd.file(tags[k]) == Some(nb);
    assert tags[k] in members;
    var q :| 0 <= q < |members| && members[q] == tags[k];
    var vi := VariantIndex(members, rd, v);
    assert vi <= q;
    assert FiledUnder(rd.file, nb)(members[vi]);
  }

  /** When no variant is asked for and the newest base is one of its own
      tags, the answer is that bare base. */
  lemma RecommendPrefersBareBase(tags: seq<string>, rd: Reading)
    requires |Bases(tags, rd)| > 0
    requires NewestBase(tags, rd) in tags && rd.file(NewestBase(tags, rd)) == Some(NewestBase(tags, rd))
    ensures Recommend(tags, rd, None) == Some(NewestBase(tags, rd))
  {
    FilterIsSublist(tags, FiledUnder(rd.file, NewestBase(tags, rd)));
  }

  /** A base is an optional `v` followed by a dotted number. */
  lemma BaseShape(tag: string, b: string)
    requires BaseVersion(tag) == Some(b)
    ensures var d := BeforeDash(StripV(tag));
            && IsDotted(d)
            && b == (if StartsWith(tag, "v") then "v" else "") + d
  {
    var t := StripV(tag);
    var i := IndexOf(t, '-');
    var prefix := if StartsWith(tag, "v") then "v" else "";
    StripVRestore(tag);
    assert |tag| - |t| == |prefix|;
    assert b == tag[..|prefix| + i];
    assert tag[..|prefix| + i] == prefix + t[..i];
  }

  /** An optional `v` followed by a dotted number is its own base and no
      pre-release. */
  lemma BareBase(prefix: string, d: string)
    requires IsDotted(d) && (prefix == "" || prefix == "v")
    ensures BaseVersion(prefix + d) == Some(prefix + d)
    ensures !IsPreRelease(prefix + d)
  {
    BareBaseVersion(prefix, d);
    DottedChars(d);
    assert forall x :: x in prefix + d ==> x == 'v' || IsDigit(x) || x == '.';
    VersionCharsNoPreRelease(prefix + d);
  }

  /** An optional `v` followed by a dotted number is its own base. */
  lemma BareBaseVersion(prefix: string, d: string)
    requires IsDotted(d) && (prefix == "" || prefix == "v")
    ensures BaseVersion(prefix + d) == Some(prefix + d)
  {
    var b := prefix + d;
    DottedChars(d);
    if prefix == "v" {
      StripVOfV(d);
    } else {
      StripVDigitFirst(d, "");
      assert b == d;
    }
    assert '-' !in d;
    IndexOfConcat(d, "", '-');
    EmptyAround(d);
    assert d[..|d|] == d;
    assert StripV(b)[..IndexOf(StripV(b), '-')] == d;
    assert b[..|b| - |d| + |d|] == b;
  }

  /** A text of `v`s, digits and dots names no pre-release. */
  lemma VersionCharsNoPreRelease(b: string)
    requires forall x :: x in b ==> x == 'v' || IsDigit(x) || x == '.'
    ensures !IsPreRelease(b)
  {
    forall w | w in ["alpha", "beta", "rc", "dev", "test"]
      ensures !Contains(b, w)
    {
      assert w[0] in "abrdt";
      if Contains(b, w) {
        ContainsFirstChar(b, w);
      }
    }
  }

  /** A base is filed under itself. */
  lemma BaseIsOwnBase(tag: string, b: string)
    requires CandidateBase(tag) == Some(b)
    ensures CandidateBase(b) == Some(b)
  {
    BaseShape(tag, b);
    BareBase(if StartsWith(tag, "v") then "v" else "", BeforeDash(StripV(tag)));
  }

  /** No recommendation exactly when no tag is a non-pre-release version
      with a valid base. */
  lemma RecommendedNone(tags: seq<string>, current: Option<string>)
    ensures RecommendedTag(tags, current).None?
        <==> forall k :: 0 <= k < |tags| ==> CandidateBase(tags[k]).None?
  {
    RecommendNone(tags, Standard, CurrentVariant(current));
  }

  /** The recommendation is one of the tags, from the newest base; a
      pre-release is recommended only through the `<base>-<variant>` prefix
      search. */
  lemma RecommendedFromNewestBase(tags: seq<string>, current: Option<string>)
    requires RecommendedTag(tags, current).Some?
    ensures |Bases(tags, Standard)| > 0
    ensures var nb := NewestBase(tags, Standard);
            var r := RecommendedTag(tags, current).value;
            var cv := CurrentVariant(current);
            && r in tags
            && (CandidateBase(r) == Some(nb) || (cv.Some? && StartsWith(r, nb + "-" + cv.value)))
            && (IsPreRelease(r) ==> cv.Some? && StartsWith(r, nb + "-" + cv.value))
            && forall k :: 0 <= k < |tags| && CandidateBase(tags[k]).Some? ==>
                 !Less(BaseKey(nb), BaseKey(CandidateBase(tags[k]).value))
    ensures StartsWith(RecommendedTag(tags, current).value, NewestBase(tags, Standard))
  {
    RecommendFromNewest(tags, Standard, CurrentVariant(current));
    RecommendedStartsWithBase(tags, current);
    forall k | 0 <= k < |tags| && CandidateBase(tags[k]).Some?
      ensures !Less(BaseKey(NewestBase(tags, Standard)), BaseKey(CandidateBase(tags[k]).value))
    {
      NewestBaseIsMaximal(tags, Standard, tags[k]);
    }
  }

  /** The recommendation starts with the newest base version, whether it
      was filed under it or found by the `<base>-<variant>` prefix search. */
  lemma RecommendedStartsWithBase(tags: seq<string>, current: Option<string>)
    requires RecommendedTag(tags, current).Some?
    ensures |Bases(tags, Standard)| > 0
    ensures StartsWith(RecommendedTag(tags, current).value, NewestBase(tags, Standard))
  {
    RecommendFromNewest(tags, Standard, CurrentVariant(current));
    BaseOrVariantPrefix(RecommendedTag(tags, current).value, NewestBase(tags, Standard), CurrentVariant(current));
  }

  /** A tag filed under base `b`, or starting with `b-<variant>`, starts
      with `b`. */
  lemma BaseOrVariantPrefix(tag: string, b: string, cv: Option<string>)
    requires CandidateBase(tag) == Some(b) || (cv.Some? && StartsWith(tag, b + "-" + cv.value))
    ensures StartsWith(tag, b)
  {
    if CandidateBase(tag) != Some(b) {
      assert tag[..|b|] == (b + "-" + cv.value)[..|b|];
    }
  }

  /** With a variant asked for that the newest base has, the recommendation
      carries that variant. */
  lemma RecommendedKeepsVariant(tags: seq<string>, current: Option<string>, v: string)
    requires CurrentVariant(current) == Some(v) && |Bases(tags, Standard)| > 0
    requires exists k :: 0 <= k < |tags| && Variant(tags[k]) == Some(v)
                      && CandidateBase(tags[k]) == Some(NewestBase(tags, Standard))
    ensures var r := RecommendedTag(tags, current);
            r.Some? && Variant(r.value) == Some(v) && CandidateBase(r.value) == Some(NewestBase(tags, Standard))
  {
    RecommendKeepsVariant(tags, Standard, v);
  }

  /** With no variant asked for, a bare newest base among the tags is the
      recommendation. */
  lemma RecommendedPrefersBareBase(tags: seq<string>, current: Option<string>)
    requires CurrentVariant(current).None? && |Bases(tags, Standard)| > 0
    requires NewestBase(tags, Standard) in tags
    ensures RecommendedTag(tags, current) == Some(NewestBase(tags, Standard))
  {
    var nb := NewestBase(tags, Standard);
    FirstSeenGroups(tags, CandidateBase, nb);
    var k :| 0 <= k < |tags| && CandidateBase(tags[k]) == Some(nb);
    BaseIsOwnBase(tags[k], nb);
    RecommendPrefersBareBase(tags, Standard);
  }
}
