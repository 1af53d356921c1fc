/** `analyze_image_tags`: the decision tree that classifies one image as
    UNKNOWN, WARNING, UP-TO-DATE or OUTDATED. The tags fetched from the
    registry are a parameter; the recommended tag is computed from them as
    the fetch does. */
module ImageAnalyzer {
  import opened Wrappers
  import opened Strs
  import opened RegistryUtils
  import opened VersionUtils

  /** The `status` dictionary the analysis returns. */
  datatype Status = Status(
    image: string,
    status: string,
    gap: Option<int>,
    recommended: Option<string>,
    current: Option<string>,
    message: string)

  /** The four values the `status` field takes. */
  predicate IsVerdict(s: string) {
    s == "UNKNOWN" || s == "WARNING" || s == "UP-TO-DATE" || s == "OUTDATED"
  }

  /** `{1: "major", 2: "minor", 3: "patch"}[level]`; any other level is a
      `KeyError`. */
  function LevelName(level: int): (name: Option<string>)
    ensures name.Some? <==> 1 <= level <= 3
  {
    if level == 1 then Some("major")
    else if level == 2 then Some("minor")
    else if level == 3 then Some("patch")
    else None
  }

  /** `public_image.split(':')[1]` when there is a second part. */
  function CurrentTag(publicImage: string): Option<string> {
    var parts := SplitOn(publicImage, ':');
    if |parts| > 1 then Some(parts[1]) else None
  }

  /** `public_image.split(':')[0]`. */
  function BaseImage(publicImage: string): string {
    SplitOn(publicImage, ':')[0]
  }

  /** `force_level if force_level else detect_version_level(...)`: `None`
      and `0` are both falsy. */
  function Level(forceLevel: Option<int>, tags: seq<string>, baseImage: string, rules: Rules): int {
    if forceLevel.Some? && forceLevel.value != 0 then forceLevel.value
    else DetectedLevel(tags, baseImage, rules)
  }

  /** The status every analysis starts from. */
  function Initial(imageName: string): Status {
    Status(imageName, "UNKNOWN", None, None, None, "Status could not be determined")
  }

  /** "Image is {gap} {level_name} version(s) behind". */
  function Behind(gap: nat, levelName: string): string {
    "Image is " + NatToString(gap) + " " + levelName + " version(s) behind"
  }

  /** What the analysis learns about one image, in the order it learns it:
      the unsupported registry the name is on (if any), whether tags were
      fetched, the explicit tag, the name of the version level, the
      recommended tag, the gap between the two tags, and whether the
      upgrade keeps to the LTS policy. */
  datatype Facts = Facts(
    unsupported: Option<string>,
    hasTags: bool,
    current: Option<string>,
    levelName: Option<string>,
    recommended: Option<string>,
    gap: Option<Gap>,
    ltsValid: bool)

  /** The decision tree of `analyze_image_tags` over what it has learnt: the
      first stage that fails decides, and once a recommended tag is known
      the image is up to date unless the gap is positive and reaches the
      threshold, which makes it outdated, or a warning when the upgrade
      breaks the LTS policy. A level without a name is the `KeyError`. */
  function Decide(imageName: string, f: Facts, threshold: int): Result<Status, string> {
    var initial := Initial(imageName);
    if f.unsupported.Some? then
      Success(initial.(message := "Registry " + f.unsupported.value + " not supported"))
    else if !f.hasTags then
      Success(initial.(message := "No tags found or repository not accessible"))
    else if f.current.None? || f.current.value == "" then
      Success(initial.(message := "No explicit tag specified (using 'latest')", status := "WARNING"))
    else if f.levelName.None? then
      Failure("KeyError")
    else if f.recommended.None? then
      Success(initial.(message := "Could not determine newest version"))
    else
      Success(Verdict(imageName, f.current.value, f.recommended.value, f.levelName.value, f.gap,
                      f.ltsValid, threshold))
  }

  /** The last stage of the decision tree, once the explicit tag, the level
      name and the recommended tag are known: up to date unless the gap is
      positive and reaches the threshold, which makes the image outdated,
      or a warning when the upgrade breaks the LTS policy. */
  function Verdict(imageName: string, current: string, recommended: string, levelName: string,
                   gapInfo: Option<Gap>, ltsValid: bool, threshold: int): Status
  {
    var upToDate := Status(imageName, "UP-TO-DATE", None, Some(recommended), Some(current), "Image is up-to-date");
    if current == recommended || gapInfo.None? then upToDate
    else
      var gap := gapInfo.value.gap;
      if gap > 0 then
        if gap >= threshold then
          if !ltsValid then
            upToDate.(gap := Some(gap), status := "WARNING",
                      message := Behind(gap, levelName) + " but violates LTS policy")
          else
            upToDate.(gap := Some(gap), status := "OUTDATED", message := Behind(gap, levelName))
        else
          upToDate.(gap := Some(gap),
                    message := Behind(gap, levelName) + " but within threshold ("
                               + NatToString(threshold) + ")")
      else upToDate.(gap := Some(gap))
  }

  /** What `analyze_image_tags` learns about an image from its name, the
      fetched `tags` and the custom rules. */
  function Learn(imageName: string, forceLevel: Option<int>, registries: seq<string>,
                 rules: Rules, tags: seq<string>): Facts
  {
    var publicImage := PublicImageName(imageName, registries);
    LearnFromParts(UnsupportedRegistryOf(imageName), |tags| > 0, CurrentTag(publicImage), BaseImage(publicImage),
                   forceLevel, rules, tags)
  }

  /** What `analyze_image_tags` learns once the registry check, the fetch
      and the split of the public name into `baseImage` and `current` are
      done. */
  function LearnFromParts(unsupported: Option<string>, hasTags: bool, current: Option<string>, baseImage: string,
                          forceLevel: Option<int>, rules: Rules, tags: seq<string>): Facts
  {
    var imageBase := ImageBase(baseImage);
    var level := Level(forceLevel, tags, baseImage, rules);
    var recommended := RecommendedTag(tags, current);
    var both := current.Some? && recommended.Some?;
    Facts(
      unsupported,
      hasTags,
      current,
      LevelName(level),
      recommended,
      if both then VersionGap(current.value, recommended.value, level, rules, imageBase) else None,
      both ==> LtsValid(current.value, recommended.value, rules, imageBase))
  }

  /** The status `analyze_image_tags` returns for the fetched `tags`, or the
      `KeyError` it raises for a level other than 1, 2 and 3. */
  function Analysis(imageName: string, threshold: int, forceLevel: Option<int>, registries: seq<string>,
                    rules: Rules, tags: seq<string>): Result<Status, string>
  {
    Decide(imageName, Learn(imageName, forceLevel, registries, rules, tags), threshold)
  }

  /** `analyze_image_tags(image_name, ..., threshold, force_level,
      private_registries, custom_rules)`: the status record is filled in
      along the branches of the decision tree. */
  method AnalyzeImageTags(imageName: string, threshold: int, forceLevel: Option<int>, registries: seq<string>,
                          rules: Rules, tags: seq<string>)
    returns (result: Result<Status, string>)
    ensures result == Analysis(imageName, threshold, forceLevel, registries, rules, tags)
  {
    var status := Initial(imageName);
    var supported, registryName := IsSupportedRegistry(imageName);
    if !supported {
      status := status.(message := "Registry " + registryName.value + " not supported");
      return Success(status);
    }
    if |tags| == 0 {
      status := status.(message := "No tags found or repository not accessible");
      return Success(status);
    }
    result := AnalyzeTagged(status, threshold, forceLevel, registries, rules, tags);
  }

  /** The part of `analyze_image_tags` that runs once the registry is
      supported and tags were fetched: the explicit tag, the level, the
      recommended tag and the verdict. */
  method AnalyzeTagged(status0: Status, threshold: int, forceLevel: Option<int>, registries: seq<string>,
                       rules: Rules, tags: seq<string>)
    returns (result: Result<Status, string>)
    requires status0 == Initial(status0.image)
    requires UnsupportedRegistryOf(status0.image).None? && |tags| > 0
    ensures result == Analysis(status0.image, threshold, forceLevel, registries, rules, tags)
  {
    var imageName := status0.image;
    var status := status0;
    var publicImage := GetPublicImageName(imageName, registries);
    var parts := SplitOn(publicImage, ':');
    var baseImage := parts[0];
    var currentTag := if |parts| > 1 then Some(parts[1]) else None;
    if currentTag.None? || currentTag.value == "" {
      status := status.(message := "No explicit tag specified (using 'latest')");
      status := status.(status := "WARNING");
      AnalysisWithoutTag(imageName, threshold, forceLevel, registries, rules, tags);
      return Success(status);
    }
    result := AnalyzeExplicit(status, threshold, forceLevel, rules, tags, baseImage, currentTag.value);
    AnalysisOfParts(imageName, threshold, forceLevel, registries, rules, tags, currentTag.value, baseImage);
  }

  /** A supported image with tags whose public name has no explicit tag is
      a warning. */
  lemma AnalysisWithoutTag(imageName: string, threshold: int, forceLevel: Option<int>, registries: seq<string>,
                           rules: Rules, tags: seq<string>)
    requires UnsupportedRegistryOf(imageName).None? && |tags| > 0
    requires var current := CurrentTag(PublicImageName(imageName, registries)); current.None? || current.value == ""
    ensures Analysis(imageName, threshold, forceLevel, registries, rules, tags)
            == Success(Initial(imageName).(message := "No explicit tag specified (using 'latest')", status := "WARNING"))
  {
  }

  /** Once the registry is supported, tags were fetched and the public name
      splits into `baseImage` and an explicit tag `current`, the analysis is
      the decision over what is learnt from those parts. */
  lemma AnalysisOfParts(imageName: string, threshold: int, forceLevel: Option<int>, registries: seq<string>,
                        rules: Rules, tags: seq<string>, current: string, baseImage: string)
    requires UnsupportedRegistryOf(imageName).None? && |tags| > 0
    requires CurrentTag(PublicImageName(imageName, registries)) == Some(current)
    requires BaseImage(PublicImageName(imageName, registries)) == baseImage
    ensures Analysis(imageName, threshold, forceLevel, registries, rules, tags)
            == Decide(imageName, LearnFromParts(None, true, Some(current), baseImage, forceLevel, rules, tags), threshold)
  {
  }

  /** The part of `analyze_image_tags` that runs once the public name
      carries an explicit tag: the level, the recommended tag and the
      verdict. */
  method AnalyzeExplicit(status0: Status, threshold: int, forceLevel: Option<int>,
                         rules: Rules, tags: seq<string>, baseImage: string, current: string)
    returns (result: Result<Status, string>)
    requires status0 == Initial(status0.image) && current != ""
    ensures result == Decide(status0.image, LearnFromParts(None, true, Some(current), baseImage, forceLevel, rules, tags),
                             threshold)
  {
    var status := status0;
    var currentTag := Some(current);
    var imageBase := ImageBase(baseImage);
    var level: int;
    if forceLevel.Some? && forceLevel.value != 0 {
      level := forceLevel.value;
    } else {
      level := DetectVersionLevel(tags, baseImage, rules);
    }
    var levelName := LevelName(level);
    if levelName.None? {
      return Failure("KeyError");
    }
    var recommendedTag := FindRecommendedTag(tags, currentTag);
    if recommendedTag.None? {
      status := status.(message := "Could not determine newest version");
      return Success(status);
    }
    var recommended := recommendedTag.value;
    status := Conclude(status, current, recommended, level, levelName.value, threshold, rules, imageBase);
    return Success(status);
  }

  /** The branch of `analyze_image_tags` that runs once the recommended tag
      is known: the LTS check, the gap, and the verdict they give. */
  method Conclude(status0: Status, current: string, recommended: string, level: int, levelName: string,
                  threshold: int, rules: Rules, imageBase: string)
    returns (status: Status)
    requires status0 == Initial(status0.image) && current != ""
    ensures status == Verdict(status0.image, current, recommended, levelName,
                              VersionGap(current, recommended, level, rules, imageBase),
                              LtsValid(current, recommended, rules, imageBase), threshold)
  {
    status := status0;
    var isValidUpgrade := true;
    if imageBase in rules && rules[imageBase].ltsVersions.Some? {
      isValidUpgrade := CheckLtsVersion(current, recommended, rules, imageBase);
    }
    status := status.(status := "UP-TO-DATE", recommended := Some(recommended), current := Some(current));
    status := status.(message := "Image is up-to-date");
    if current != recommended {
      var gapInfo := CalculateVersionGap(current, recommended, level, rules, imageBase);
      status := Grade(status, levelName, gapInfo, isValidUpgrade, threshold);
    }
  }

  /** The gap branch of `analyze_image_tags`, applied to the up-to-date
      record of two different tags. */
  method Grade(status0: Status, levelName: string, gapInfo: Option<Gap>, isValidUpgrade: bool, threshold: int)
    returns (status: Status)
    requires status0.current.Some? && status0.recommended.Some?
    requires status0.current.value != status0.recommended.value
    requires status0 == Status(status0.image, "UP-TO-DATE", None, status0.recommended, status0.current,
                               "Image is up-to-date")
    ensures status == Verdict(status0.image, status0.current.value, status0.recommended.value, levelName,
                              gapInfo, isValidUpgrade, threshold)
  {
    status := status0;
    if gapInfo.Some? {
      var gap := gapInfo.value.gap;
      status := status.(gap := Some(gap));
      if gap > 0 {
        if gap >= threshold {
          if !isValidUpgrade {
            status := status.(status := "WARNING");
            status := status.(message := Behind(gap, levelName) + " but violates LTS policy");
          } else {
            status := status.(status := "OUTDATED");
            status := status.(message := Behind(gap, levelName));
          }
        } else {
          status := status.(message := Behind(gap, levelName) + " but within threshold ("
                                       + NatToString(threshold) + ")");
        }
      }
    }
  }

  // ---------------------------------------------------------------------
  // Properties of the decision tree
  // ---------------------------------------------------------------------

  /** Every status is one of the four verdicts and names the image. */
  lemma DecideVerdict(imageName: string, f: Facts, threshold: int)
    ensures var r := Decide(imageName, f, threshold);
            r.Success? ==> IsVerdict(r.value.status) && r.value.image == imageName
  {
  }

  /** An image on an unsupported registry is UNKNOWN whatever else is
      known: the tag source is never consulted. */
  lemma UnsupportedIsUnknown(imageName: string, f: Facts, g: Facts, threshold: int)
    requires f.unsupported.Some? && g.unsupported == f.unsupported
    ensures var r := Decide(imageName, f, threshold);
            && r == Decide(imageName, g, threshold)
            && r == Success(Status(imageName, "UNKNOWN", None, None, None,
                                   "Registry " + f.unsupported.value + " not supported"))
  {
  }

  /** The error is raised exactly for a level without a name, once the
      registry is supported, tags were fetched and an explicit tag given. */
  lemma FailsOnlyForUnnamedLevel(imageName: string, f: Facts, threshold: int)
    ensures Decide(imageName, f, threshold).Failure? <==>
              && f.unsupported.None? && f.hasTags && f.current.Some? && f.current.value != ""
              && f.levelName.None?
  {
  }

  /** OUTDATED only when a gap was computed between two different tags, is
      positive, reaches the threshold, and the upgrade keeps to the LTS
      policy. */
  lemma OutdatedMeansBehind(imageName: string, f: Facts, threshold: int)
    requires var r := Decide(imageName, f, threshold); r.Success? && r.value.status == "OUTDATED"
    ensures var s := Decide(imageName, f, threshold).value;
            && f.gap.Some? && s.gap == Some(f.gap.value.gap)
            && s.gap.value > 0 && s.gap.value >= threshold && f.ltsValid
            && s.current == f.current && s.recommended == f.recommended
            && s.current.Some? && s.recommended.Some? && s.current != s.recommended
  {
  }

  /** A WARNING is either a missing explicit tag (no gap, no versions) or a
      gap that reaches the threshold on an upgrade the LTS policy refuses. */
  lemma WarningCases(imageName: string, f: Facts, threshold: int)
    requires var r := Decide(imageName, f, threshold); r.Success? && r.value.status == "WARNING"
    ensures var s := Decide(imageName, f, threshold).value;
            || (&& s.message == "No explicit tag specified (using 'latest')"
                && s.gap.None? && s.current.None? && s.recommended.None?
                && (f.current.None? || f.current.value == ""))
            || (&& s.gap.Some? && s.gap.value > 0 && s.gap.value >= threshold && !f.ltsValid
                && s.current.Some? && s.recommended.Some? && s.current != s.recommended)
  {
  }

  /** UNKNOWN carries no gap and no versions: the registry is unsupported,
      no tags were fetched, or no newest version could be determined. */
  lemma UnknownCases(imageName: string, f: Facts, threshold: int)
    requires var r := Decide(imageName, f, threshold); r.Success? && r.value.status == "UNKNOWN"
    ensures var s := Decide(imageName, f, threshold).value;
            && s.gap.None? && s.current.None? && s.recommended.None?
            && (f.unsupported.Some? || !f.hasTags || f.recommended.None?)
  {
  }

  /** UP-TO-DATE means the recommended tag is known and either no positive
      gap was computed or it stays below the threshold; the same tag never
      gets a gap. */
  lemma UpToDateCases(imageName: string, f: Facts, threshold: int)
    requires var r := Decide(imageName, f, threshold); r.Success? && r.value.status == "UP-TO-DATE"
    ensures var s := Decide(imageName, f, threshold).value;
            && s.current == f.current && s.recommended == f.recommended
            && s.current.Some? && s.recommended.Some?
            && (s.gap.None? || s.gap.value <= 0 || s.gap.value < threshold)
            && (s.current == s.recommended ==> s.gap.None? && s.message == "Image is up-to-date")
  {
  }

  /** A positive gap below the threshold keeps the image UP-TO-DATE and
      says so. */
  lemma WithinThreshold(imageName: string, f: Facts, threshold: int)
    requires f.unsupported.None? && f.hasTags && f.current.Some? && f.current.value != ""
    requires f.levelName.Some? && f.recommended.Some? && f.current != f.recommended
    requires f.gap.Some? && 0 < f.gap.value.gap < threshold
    ensures var r := Decide(imageName, f, threshold);
            && r.Success? && r.value.status == "UP-TO-DATE" && r.value.gap == Some(f.gap.value.gap)
            && r.value.message == Behind(f.gap.value.gap, f.levelName.value)
                                  + " but within threshold (" + NatToString(threshold) + ")"
  {
  }

  /** The gap is computed from the two tags at the level in force, and the
      LTS policy is that of the image base, as `analyze_image_tags` calls
      `calculate_version_gap` and `check_lts_version`. */
  lemma LearnedGap(imageName: string, forceLevel: Option<int>, registries: seq<string>,
                   rules: Rules, tags: seq<string>)
    ensures var f := Learn(imageName, forceLevel, registries, rules, tags);
            var publicImage := PublicImageName(imageName, registries);
            var baseImage := BaseImage(publicImage);
            var level := Level(forceLevel, tags, baseImage, rules);
            && f.current == CurrentTag(publicImage)
            && f.recommended == RecommendedTag(tags, f.current)
            && (f.levelName.Some? <==> 1 <= level <= 3)
            && (f.current.Some? && f.recommended.Some? ==>
                  && f.gap == VersionGap(f.current.value, f.recommended.value, level, rules, ImageBase(baseImage))
                  && f.ltsValid == LtsValid(f.current.value, f.recommended.value, rules, ImageBase(baseImage)))
  {
  }
}
