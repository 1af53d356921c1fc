# Image version analyzer: the version engine, modelled in Dafny

The image version analyzer decides whether the base images of a project's
Dockerfiles are up to date. For each image it takes the tags its registry
offers and does the following:

- it drops pre-releases and picks the newest base version, keeping the
  variant (`-alpine`, `-slim`) the image already uses;
- it works out which version component matters for the image (major,
  minor or patch);
- it counts how many versions of that component the image is behind;
- it checks the upgrade against the image's LTS policy;
- it classifies the image as UP-TO-DATE, OUTDATED, WARNING or UNKNOWN.

Around this engine sit several smaller pieces of string and list logic:

- the `FROM`-line parser for Dockerfiles;
- the ignore-pattern manager and its command-line options;
- the private-registry options;
- the filter that narrows the tag list to tags like the current one;
- the summary, verdicts and formatter choice shared by the report formatters.

This project models that core, module by module:

| file | module | models |
|---|---|---|
| `versions.dfy` | `Versions` | tag anatomy (`v` prefix, dotted base, `-variant`) and the release order `packaging.version` applies to dotted numbers |
| `registry_utils.dfy` | `RegistryUtils` | `utils/registry_utils.py`: registry support, public image names, tag validity, the recommended tag |
| `version_utils.dfy` | `VersionUtils` | `version_utils.py`: the LTS check, the version gap, the version level |
| `image_analyzer.dfy` | `ImageAnalyzer` | `src/image_analyzer.py`: the classification of one image |
| `image_ignore.dfy` | `ImageIgnore` | `image_ignore.py`: the ignore-pattern manager (a class) and `parse_ignore_options` |
| `tag_filter.dfy` | `TagFilter` | `filter_similar_tags` of `src/main.py` |
| `dockerfile_parser.dfy` | `DockerfileParser` | `docker/dockerfile_parser.py` |
| `private_registries.dfy` | `PrivateRegistries` | `parse_private_registries` of `utils.py` |
| `formatters.dfy` | `Formatters` | `get_summary`, the overall and security verdicts, and `get_formatter` of `utils/formatters.py` |
| `command_line.dfy` | `CommandLine` | the "value after a flag" lookup shared by the option parsers |
| `strs.dfy`, `seqs.dfy`, `wrappers.dfy` | `Strs`, `Seqs`, `Wrappers` | Python's string and list operations as used by the core (`strip`, `split`, `lower`, `\d+` runs, comprehensions, `Counter`-style tallies), plus `Option` and `Result` |

## How the code is modelled

The code that changes state step by step is modelled as imperative Dafny:

- `ImageIgnoreManager` is a class whose `patterns` field its methods
  extend in place.
- These loops are methods with loop invariants:
  - the gap calculation's padding and missing-version loops;
  - the level detector's counting loops;
  - the LTS scan;
  - the recommender's grouping and searches;
  - the Dockerfile and registry-file loops;
  - the argument scanners.
- `analyze_image_tags` is a method that fills one status record branch by branch.

Each method's postcondition ties its result to a specification function. The
properties of the source are proved about that function as lemmas. The pure
parts (`is_valid_version_tag`, `filter_similar_tags`, the formatter
summary) are functions.

Python's semantics are written out where they matter:

- `\s` is the Unicode whitespace set, which is the set `str.isspace` uses.
- `re.IGNORECASE` folds ASCII letters, and also the Kelvin sign and the
  long s onto `k` and `s`.
- `str.strip()` and `str.split(sep)` are modelled as defined in Python.
- `\d` and `int(...)` are read on ASCII `0-9` only (see "## Left out"). `int(...)` of a digit run ignores leading zeros.
- `packaging.version` on dotted numbers compares the integer release
  tuples with trailing zeros dropped, so `1.0 == 1.0.0` and `01 == 1`.
- `sorted` is stable and keeps the last of equal maxima. The `base_versions`
  dictionary keeps first-insertion order.

The tag list is an input to the analysis; fetching it is not modelled. The
contents of files (Dockerfile, ignore file, registry file) are inputs too,
given as `Option` values where `None` means the file is missing or
unreadable. The `regex:` search of an ignore pattern is a function
parameter that returns `None` for an invalid expression.

### Where the code differs from its documentation

The model follows the code in each of these places:

- `find_recommended_tag` has no "stable"/"latest" fallback. It returns
  `None` as soon as no tag yields a numeric base version
  (`utils/registry_utils.py:158-159`).
- When the newest group lacks the current variant, the second search runs
  over the unfiltered tag list (`utils/registry_utils.py:181`). It can
  therefore return a pre-release tag such as `2.0-rc1-alpine`.
- The adjacent-pair statistics of `detect_version_level` can give level 3:
  `1.0.1, 1.0.2` differ first in the patch component
  (`VersionUtils.PatchSeriesLevel`). Only the dot-count fallback is capped at 2.
- `step_by` divides with truncation (`int()` of a float quotient,
  `version_utils.py:150-158`). So 18→19 with a step of 2 gives a gap of
  0 while the missing list is `["19"]` (`VersionUtils.GapExampleHalfStep`).
  A negative quotient that is not whole is replaced by 1.
- The `0.x` branch of the missing-version loop (`version_utils.py:120-124`)
  cannot be reached, because the recommended major is larger there.
- When the current tag equals the recommended one, `analyze_image_tags`
  never sets `gap` (`src/image_analyzer.py:109`, `:150-153`), so it stays
  `None`; `tests/test_image_analyzer..py:80,87` expects `0` there (with
  `calculate_version_gap` patched, a call the code does not make). The
  model keeps `None` (`ImageAnalyzer.UpToDateCases`).
- `get_summary` reads `r['status']` on every counted entry. An entry with
  no status raises `KeyError`, modelled as `Failure("KeyError")`.
- The JSON report counts security statuses over all results, and only the
  three known statuses count as scanned. The HTML report leaves out the
  ignored-images entry and counts every result with a security record
  (`Formatters.HtmlAgreesWithJson`).

## Model

| member | source | states |
|---|---|---|
| Versions.StripV | utils/registry_utils.py:150-152 | the tag loses exactly one leading `v`, or is unchanged when it has none |
| Versions.StripVRestore | utils/registry_utils.py:150-152 | putting the `v` back restores the tag: stripping loses nothing else |
| Versions.BeforeDash | version_utils.py:81-85 | a prefix of the tag without `-`, followed in the tag by a `-` or by nothing: the text before the first `-`, the whole tag when it has none |
| Versions.DottedChars | utils/registry_utils.py:132 | a dotted version starts with a digit and holds only digits and dots |
| Versions.DropTrailingZeros | utils/registry_utils.py:153 | the result is a prefix of the release tuple, followed only by zeros, and does not end in zero |
| Versions.LessIrreflexive | utils/registry_utils.py:162 | no version sorts before itself |
| Versions.LessAsymmetric | utils/registry_utils.py:162 | two versions never both sort before each other |
| Versions.LessTransitive | utils/registry_utils.py:162 | the version order is transitive |
| Versions.LessTotal | utils/registry_utils.py:162 | any two release keys are equal or ordered one way |
| Versions.LessAtDifference | utils/registry_utils.py:162 | for equal-length keys the first differing component decides |
| Versions.LastMaximum | utils/registry_utils.py:162-165 | the chosen position is inside the list |
| Versions.LastMaximumIsLast | utils/registry_utils.py:162-165 | the last element after a stable sort: no key exceeds it, and every later key is strictly smaller |
| Versions.TrailingZerosIgnored | utils/registry_utils.py:153 | `1.0` and `1.0.0` compare as the same version |
| Versions.LeadingZerosIgnored | utils/registry_utils.py:153 | `01` and `1` compare as the same version |
| Versions.NumericComponents | utils/registry_utils.py:153 | components compare as numbers: `1.9` comes before `1.10` |
| Versions.SortByVersion | version_utils.py:255 | sorting by version keeps the same tags, as a permutation |
| Versions.SortByVersionSorted | version_utils.py:255 | the sorted list is ordered by version |
| Versions.SortByVersionOfSorted | version_utils.py:255 | an already-ordered list is left as it is |
| Versions.SortByVersionStable | version_utils.py:255 | the sort is stable: for every key, the tags with that key come out in the order they went in, so the input order of equal-key tags such as `1.0` and `1.00` decides which neighbouring pairs are compared |
| RegistryUtils.FirstContained | utils/registry_utils.py:17-22 | the index of the first registry that is a substring of the name, or the length when none is |
| RegistryUtils.IsSupportedRegistry | utils/registry_utils.py:5-22 | supported exactly when no listed registry occurs in the name; otherwise the first one that occurs is reported |
| RegistryUtils.RegionalGcrReportedAsGcr | utils/registry_utils.py:7-22 | regional `*.gcr.io` names are reported as `gcr.io`, which comes first in the list |
| RegistryUtils.RegistryHost | utils/registry_utils.py:216-217 | the host is a prefix of the registry with no `/` |
| RegistryUtils.HostPart | utils/registry_utils.py:219-220 | the index of the first path segment containing the host |
| RegistryUtils.HostAlwaysFound | utils/registry_utils.py:212-224 | when the registry occurs in the name, some segment contains its host, so the loop always returns |
| RegistryUtils.PublicImageNameSpec | utils/registry_utils.py:208-226 | no registries or none contained leaves the name unchanged; otherwise the name loses every segment up to and including the first that holds the first contained registry's host |
| RegistryUtils.GetPublicImageName | utils/registry_utils.py:197-226 | the early-return loops compute the public name |
| RegistryUtils.RenderedTagValidity | utils/registry_utils.py:91-108 | a tag written as optional `v`, digit groups and optional suffix is valid iff it has at most 4 groups and at most 8 digits over at most 4 digit runs, is not a lone group of 6 or more digits, and the suffix adds no digit run past those limits |
| RegistryUtils.RenderedMatchesShape | utils/registry_utils.py:108 | such a tag matches the accepted shape exactly when it has 1 to 4 groups |
| RegistryUtils.RenderedRuns | utils/registry_utils.py:98-102 | the `\d+` runs of such a tag are its groups followed by the runs of its suffix |
| RegistryUtils.RenderedAllDigits | utils/registry_utils.py:94 | such a tag is all digits exactly when it is one bare group |
| RegistryUtils.ShapedTagIsRendered | utils/registry_utils.py:108 | every tag of the accepted shape is its prefix, groups and suffix written out |
| RegistryUtils.ValidTagIsRendered | utils/registry_utils.py:91-108 | every valid tag is written as optional `v`, groups and suffix |
| RegistryUtils.ValidAlpineTag | test_registry_utils.py:71 | `1.24-alpine` is a valid version tag |
| RegistryUtils.DateTagInvalid | test_registry_utils.py:74 | `20220101` is not |
| RegistryUtils.WordTagInvalid | test_registry_utils.py:75 | `latest` is not |
| RegistryUtils.SixGroupsInvalid | test_registry_utils.py:77 | `1.2.3.4.5.6`, with more than four digit runs, is not |
| RegistryUtils.FileByBase | utils/registry_utils.py:124-144 | the grouping loop builds each base's tags in input order, with bases in order of first appearance |
| RegistryUtils.FileTag | utils/registry_utils.py:126-143 | one tag is appended to its candidate base's list only when it is no pre-release and has a valid base; a base seen for the first time joins the key order last |
| RegistryUtils.NewestPosition | utils/registry_utils.py:147-167 | the scan picks the last base of greatest version, as the stable sort does |
| RegistryUtils.SearchVariant | utils/registry_utils.py:172-175 | the loop finds the first newest-group tag with the current variant |
| RegistryUtils.SearchPrefix | utils/registry_utils.py:178-184 | the loop finds the first tag of the whole list starting with `{base}-{variant}` |
| RegistryUtils.SelectFromNewest | utils/registry_utils.py:169-195 | the choice within the newest group follows the documented preference order |
| RegistryUtils.FindRecommendedTag | utils/registry_utils.py:110-195 | the method computes the recommended tag function |
| RegistryUtils.RecommendNone | utils/registry_utils.py:112-113 | there is no recommendation exactly when no tag yields a valid non-pre-release base version, with no other fallback (also lines 158-159) |
| RegistryUtils.RecommendedNone | utils/registry_utils.py:112-113 | the empty tag list has no recommendation |
| RegistryUtils.NewestBaseIsMaximal | utils/registry_utils.py:162-167 | no candidate base is newer than the chosen one |
| RegistryUtils.RecommendedFromNewestBase | utils/registry_utils.py:126-167 | a recommended tag is an input tag and starts with the newest base version; it is filed under that base or found by the `<base>-<variant>` prefix search, and only that search can return a pre-release (as in `2.0-rc1-alpine`); no candidate base is newer than that base |
| RegistryUtils.RecommendedKeepsVariant | utils/registry_utils.py:116-121 | when some tag of the newest base version carries the current variant, the recommendation is such a tag: it carries that variant and is filed under the newest base (also lines 170-175) |
| RegistryUtils.RecommendedPrefersBareBase | utils/registry_utils.py:188-192 | without a current variant, the bare base tag is preferred when present |
| RegistryUtils.BaseIsOwnBase | utils/registry_utils.py:132-138 | a base version is its own base |
| VersionUtils.Major | version_utils.py:27-34 | the first digit run after leading non-digits; none exactly when the tag has no digit |
| VersionUtils.MajorOfWritten | version_utils.py:27-34 | a number written after non-digits is read back as that number |
| VersionUtils.SortInts | version_utils.py:41 | `sorted(lts_versions)`: a permutation in ascending order |
| VersionUtils.CheckLtsVersion | version_utils.py:5-56 | the scan over the sorted LTS list computes the LTS policy function |
| VersionUtils.NoLtsBetween | version_utils.py:41-48 | the `break` stops at the smallest LTS value above the current major |
| VersionUtils.LtsExamplesAllowed | tests/test_version_utils.py:20-25 | 16→16, 16→18 and 18→20 respect the policy `[16, 18, 20, 22]` |
| VersionUtils.LtsRefusedSixteenToSeventeen | tests/test_version_utils.py:27-28 | 16→17 leaves an LTS line and is refused |
| VersionUtils.LtsRefusedEighteenToNineteen | tests/test_version_utils.py:29 | 18→19 is refused |
| VersionUtils.LtsFromNonLts | tests/test_version_utils.py:31-33 | 17→18 and 17→19 start from a non-LTS major and are allowed |
| VersionUtils.LtsPastNextLts | version_utils.py:41-51 | 16→19 passes the next LTS and is allowed |
| VersionUtils.LtsExamplesNoRule | tests/test_version_utils.py:35-37 | an image without an LTS rule allows every upgrade |
| VersionUtils.LtsNumberless | version_utils.py:30-34 | a tag without digits allows the upgrade |
| VersionUtils.LtsOnNumbers | version_utils.py:14-53 | for plain numbers the policy is: current not LTS, or recommended LTS, or recommended beyond the next LTS above current |
| VersionUtils.Components | version_utils.py:80-102 | three numbers from the digit runs of the base, none exactly when there are no digits |
| VersionUtils.PadToThree | version_utils.py:95-102 | the padding loop appends "0" up to three parts and keeps the rest |
| VersionUtils.ParseComponents | version_utils.py:78-102 | the parsing steps compute the three components |
| VersionUtils.FirstDifference | version_utils.py:108-112 | the first compared index where the two tags differ, or the count when none does |
| VersionUtils.ListMissing | version_utils.py:117-139 | the loops list exactly the intermediate versions |
| VersionUtils.GapAtComponent | version_utils.py:113-162 | the gap at the first larger component, with missing list, skips and `step_by` |
| VersionUtils.CalculateVersionGap | version_utils.py:58-173 | the method computes the version gap function |
| VersionUtils.GapNeedsNumbers | version_utils.py:80-92 | the gap is None exactly when a tag has no digits, or when a `step_by` of zero divides a major difference by zero (also lines 145-150, 171-173) |
| VersionUtils.GapOnceDifferent | version_utils.py:108-170 | the result is decided at the first compared index where the tags differ |
| VersionUtils.GapZeroUnlessNewer | version_utils.py:165-170 | equal compared components, or an older recommended tag, give `(0, [])` |
| VersionUtils.GapPositiveWhenNewer | version_utils.py:113-142 | without rules, a newer recommended tag gives a gap equal to the number of missing versions, and at least one |
| VersionUtils.MissingMembers | version_utils.py:117-139 | a version is missing iff it is the prefix, head and a number in range that is not skipped; there are at most as many as numbers in range |
| VersionUtils.MissingNumbers | version_utils.py:117-139 | the unskipped numbers in range, each in range and not skipped, strictly ascending (so no number twice) |
| VersionUtils.MissingInOrder | version_utils.py:117-139 | the missing versions are the missing numbers in the same order, each written after prefix and head, so they are ascending and never repeat, with or without skips |
| VersionUtils.MissingUnskipped | version_utils.py:117-139 | without skips, every number in range is listed, in order |
| VersionUtils.StepGapCountsSteps | version_utils.py:145-158 | for a positive step the gap is the number of whole steps in the difference, exact iff it divides |
| VersionUtils.GapExampleMajor | tests/test_version_utils.py:42-44 | 2.0.0→4.0.0 at level 1 gives `(2, ["3", "4"])` |
| VersionUtils.GapExamplePrefixed | tests/test_version_utils.py:57-59 | v2.0.0→v4.0.0 gives `(2, ["v3", "v4"])` |
| VersionUtils.GapExampleEqual | tests/test_version_utils.py:66-68 | equal tags give `(0, [])` |
| VersionUtils.GapExampleMinor | tests/test_version_utils.py:47-49 | 2.1.0→2.4.0 at level 2 gives 3 and lists `2.2`, `2.3`, `2.4` |
| VersionUtils.GapExamplePatch | tests/test_version_utils.py:52-54 | 2.1.1→2.1.3 at level 3 gives `(2, ["2.1.2", "2.1.3"])` |
| VersionUtils.GapExampleVariant | tests/test_version_utils.py:62-63 | variants are ignored: 2.0.0-alpine→4.0.0-alpine gives a gap of 2 |
| VersionUtils.GapExampleSkipped | tests/test_version_utils.py:71-78 | 18→22 with skips 19, 21, 23 gives `(2, ["20", "22"])` |
| VersionUtils.GapExampleStep | tests/test_version_utils.py:81-87 | 18→22 with a step of 2 gives a gap of 2, while all four versions are still listed |
| VersionUtils.GapExampleHalfStep | version_utils.py:150-158 | 18→19 with a step of 2 gives a gap of 0 but still lists `19` |
| VersionUtils.ImageBase | version_utils.py:187 | the image base has no `/` |
| VersionUtils.ImageBaseIsLastSegment | version_utils.py:187 | it is the text after the last `/` |
| VersionUtils.ChangeLevel | version_utils.py:261-270 | the change level of two tags is 1 to 3 when defined |
| VersionUtils.PartsChangeMeaning | version_utils.py:263-270 | the level is one more than the first differing padded component |
| VersionUtils.ChangeLevelSymmetric | version_utils.py:261-270 | the change level does not depend on the pair's order |
| VersionUtils.MostCounted | version_utils.py:278-285 | the loop picks the first most frequent value, as `max` over a dict does |
| VersionUtils.PairChange | version_utils.py:261-273 | the per-pair loop computes the change level |
| VersionUtils.TallyChanges | version_utils.py:260-275 | the loop counts every adjacent pair's change level |
| VersionUtils.CountChange | version_utils.py:271-275 | one more pair updates the counts and first-seen order |
| VersionUtils.CountLevelChanges | version_utils.py:240-275 | the counts are those of the sorted tags' pair changes |
| VersionUtils.TallyPatterns | version_utils.py:225-237 | the loop counts the dot-group counts of the version tags |
| VersionUtils.LevelOfVersionTags | version_utils.py:225-293 | the statistics stage computes its level function |
| VersionUtils.DetectVersionLevel | version_utils.py:175-293 | the method computes the detected level function |
| VersionUtils.DetectedLevelRange | version_utils.py:175-293 | without a custom level the detected level is 1, 2 or 3 |
| VersionUtils.LevelFromTagsRange | version_utils.py:225-293 | the statistics give 1, 2 or 3 |
| VersionUtils.UniformChanges | version_utils.py:276-279 | when every adjacent pair changes at the same level, that level is chosen |
| VersionUtils.SingleTagLevel | version_utils.py:225-293 | a single valid tag gives 1 for one group, otherwise 2 |
| VersionUtils.KnownLevelsRange | version_utils.py:197-215 | the fixed table only holds levels 1 and 2 |
| VersionUtils.DetectKnownDebian | tests/test_version_utils.py:92 | `debian` is level 1 |
| VersionUtils.DetectKnownAlpine | tests/test_version_utils.py:93 | `alpine` is level 2 |
| VersionUtils.DetectCustomDebian | tests/test_version_utils.py:96-100 | a custom level for `debian` wins over the table |
| VersionUtils.DetectCustomAlpine | tests/test_version_utils.py:96-101 | a custom level for `alpine` wins over the table |
| VersionUtils.DetectWithoutTags | tests/test_version_utils.py:112 | no tags gives 1 |
| VersionUtils.DetectWithoutVersionTags | tests/test_version_utils.py:115 | no valid version tags gives 1 |
| VersionUtils.DetectUnlisted | version_utils.py:217-293 | an unlisted image is decided by its valid version tags alone |
| VersionUtils.DetectUnlistedValid | version_utils.py:225-293 | for all-valid tags of an unlisted image, the statistics decide |
| VersionUtils.TwoTagsLevel | version_utils.py:240-279 | two ordered tags that differ give their change level |
| VersionUtils.PatchSeriesLevel | version_utils.py:240-279 | two patch releases `x.y.z`, `x.y.w` with `0 < z < w` (such as `1.0.1, 1.0.2`) are valid version tags and give level 3 |
| ImageAnalyzer.LevelName | src/image_analyzer.py:53 | only levels 1, 2 and 3 have a name |
| ImageAnalyzer.AnalyzeImageTags | src/image_analyzer.py:5-159 | the branch-by-branch status record equals the analysis of the image |
| ImageAnalyzer.AnalyzeTagged | src/image_analyzer.py:36-159 | the same once the registry is supported and tags exist |
| ImageAnalyzer.AnalyzeExplicit | src/image_analyzer.py:48-159 | once the explicit tag and the base image are known, the record is the decision over the level, the recommended tag, the gap and the LTS check learnt from them |
| ImageAnalyzer.AnalysisWithoutTag | src/image_analyzer.py:36-46 | a supported image with tags whose public name carries no explicit tag (none, or empty after the colon) is a WARNING with the "using 'latest'" message |
| ImageAnalyzer.AnalysisOfParts | src/image_analyzer.py:36-39 | the analysis of a supported image with tags depends on its name only through the base image and explicit tag of its public name |
| ImageAnalyzer.Conclude | src/image_analyzer.py:74-159 | the verdict once both tags are known |
| ImageAnalyzer.Grade | src/image_analyzer.py:109-130 | for two different tags the gap decides: no gap or a non-positive gap stays UP-TO-DATE, a gap under the threshold keeps UP-TO-DATE with the threshold message, otherwise OUTDATED, or WARNING when the LTS policy is broken |
| ImageAnalyzer.DecideVerdict | src/image_analyzer.py:5-159 | every status is one of the four verdicts and names the image |
| ImageAnalyzer.UnsupportedIsUnknown | src/image_analyzer.py:18-23 | an unsupported registry gives UNKNOWN with its message, whatever else is known |
| ImageAnalyzer.FailsOnlyForUnnamedLevel | src/image_analyzer.py:53 | the lookup error happens only for a level without a name |
| ImageAnalyzer.OutdatedMeansBehind | src/image_analyzer.py:117-124 | OUTDATED implies a positive gap reaching the threshold on an LTS-valid upgrade between different tags |
| ImageAnalyzer.WarningCases | src/image_analyzer.py:40-46 | a WARNING is a missing explicit tag or an LTS violation at or above the threshold (also lines 125-128) |
| ImageAnalyzer.UnknownCases | src/image_analyzer.py:8-33 | UNKNOWN means unsupported registry, no tags or no recommended tag, and carries no gap (also lines 154-155) |
| ImageAnalyzer.UpToDateCases | src/image_analyzer.py:83-86 | UP-TO-DATE means no positive gap at or above the threshold; the same tag never gets a gap (also lines 109-130) |
| ImageAnalyzer.WithinThreshold | src/image_analyzer.py:129-130 | a positive gap below the threshold stays UP-TO-DATE with the threshold message |
| ImageAnalyzer.LearnedGap | src/image_analyzer.py:36-80 | the facts come from the public name, the recommended tag, the level in force, the gap and the LTS check (also lines 109-115) |
| ImageIgnore.Kept | image_ignore.py:25-26 | at most the one stripped pattern is kept |
| ImageIgnore.KeptAllConcat | image_ignore.py:38-40 | adding two lists in turn equals adding their concatenation |
| ImageIgnore.KeptAllOfClean | image_ignore.py:38-40 | adding already-clean patterns keeps them all |
| ImageIgnore.FilePatternsFromLines | image_ignore.py:54-66 | each loaded pattern is non-blank, is no comment and is the stripped text of a line of the file |
| ImageIgnore.FileLineBecomesPattern | image_ignore.py:54-66 | every stripped line that is neither blank nor a comment is loaded, right after the patterns of the lines above it, so the patterns keep file order |
| ImageIgnore.GlobLiteral | image_ignore.py:97-99 | a pattern without wildcards matches only its own text |
| ImageIgnore.GlobStar | image_ignore.py:97-99 | `*` matches every name |
| ImageIgnore.GlobPrefix | image_ignore.py:97-99 | `prefix*` matches exactly the names starting with the prefix |
| ImageIgnore.GlobPythonMatches | test_image_ignore.py:89 | `python:3.9*` ignores `python:3.9-alpine` |
| ImageIgnore.GlobPythonSkips | test_image_ignore.py:93 | `python:3.9*` does not ignore `python:3.10` |
| ImageIgnore.GlobNodeExamples | test_image_ignore.py:91-92 | `node:16` matches only itself |
| ImageIgnore.ImageIgnoreManager.constructor | image_ignore.py:11-13 | a new manager has no patterns |
| ImageIgnore.ImageIgnoreManager.AddPattern | image_ignore.py:15-26 | appends the stripped pattern if it is not blank; nothing else changes |
| ImageIgnore.ImageIgnoreManager.AddPatternsFromList | image_ignore.py:28-40 | adds each element in order; None is a no-op |
| ImageIgnore.ImageIgnoreManager.LoadPatternsFromLines | image_ignore.py:42-70 | a missing file returns false and changes nothing; otherwise the file's patterns are appended |
| ImageIgnore.ImageIgnoreManager.ShouldIgnore | image_ignore.py:72-99 | true exactly when some pattern matches, by regex search or glob |
| ImageIgnore.ImageIgnoreManager.GetPatterns | image_ignore.py:101-103 | the copy equals the patterns and is a separate value |
| ImageIgnore.IgnoreFromIsFlagged | image_ignore.py:119-130 | the index walk collects the values of `--ignore` not starting with `--` |
| ImageIgnore.IgnoreArguments | image_ignore.py:115-130 | the loop collects those values in order |
| ImageIgnore.IgnoreArgumentExamples | test_image_ignore.py:143-167 | two `--ignore` options give both patterns; a trailing bare one gives none |
| ImageIgnore.ParseIgnoreOptions | image_ignore.py:106-156 | the manager holds the `--ignore` patterns followed by the file's patterns |
| CommandLine.ValueAfter | image_ignore.py:136-143 | a value is found only for a flag present, and never starts with `--` |
| CommandLine.ValueAfterFirst | utils.py:9-17 | the value is the argument after the first occurrence of the flag, when that exists and does not start with `--` |
| TagFilter.CurrentVariant | src/main.py:123-126 | a found variant is non-empty and follows the dotted version and a `-` |
| TagFilter.VariantOfTag | src/main.py:124-126 | `[v]digits-variant` yields that variant |
| TagFilter.AlpineVariant | src/main.py:124-126 | `1.24-alpine` yields `alpine` |
| TagFilter.NoVariantWithoutDash | src/main.py:124-126 | a tag without `-` has no variant |
| TagFilter.FilterSimilarIsSublist | src/main.py:117-151 | the result is an order-preserving sublist of the tags |
| TagFilter.NoCurrentTag | src/main.py:119-120 | a missing or empty current tag returns the tags unchanged |
| TagFilter.VariantFirst | src/main.py:128-132 | with a variant found in some tag, exactly the tags containing `-variant` |
| TagFilter.PrefixSecond | src/main.py:134-138 | otherwise for a `v` tag, exactly the `v` tags when there are any |
| TagFilter.BareThird | src/main.py:140-148 | otherwise exactly the bare version tags when there are any |
| TagFilter.AllTagsLast | src/main.py:150-151 | otherwise all tags |
| TagFilter.NoSharedVariant | src/main.py:129-131 | no tag with the variant means the variant branch is empty |
| DockerfileParser.Word | docker/dockerfile_parser.py:13 | the greedy `[^\s]+` token: a non-space prefix ending at space or end |
| DockerfileParser.ImageIsWord | docker/dockerfile_parser.py:13-19 | a parsed image is one non-space token |
| DockerfileParser.KeywordRead | docker/dockerfile_parser.py:13 | indentation, `FROM` in any case and a space start a `FROM` line |
| DockerfileParser.PlainFromLine | tests/test_dockerfile_parser.py:25-41 | `FROM image` gives the image and no stage |
| DockerfileParser.StagedFromLine | docker/dockerfile_parser.py:13-20 | `FROM image AS name` gives the image and the stage text `AS name` |
| DockerfileParser.PlatformFromLine | docker/dockerfile_parser.py:13-19 | `FROM --platform=p image` skips the flag |
| DockerfileParser.CommentIsNotFrom | docker/dockerfile_parser.py:13 | a comment line is never a `FROM` line |
| DockerfileParser.StageOfNothing | docker/dockerfile_parser.py:20 | no `AS` clause gives no stage |
| DockerfileParser.FromLineGivesEntry | docker/dockerfile_parser.py:15-24 | every `FROM` line gives an entry at its position among the `FROM` lines |
| DockerfileParser.EntryFromSomeLine | docker/dockerfile_parser.py:15-24 | every entry comes from some line |
| DockerfileParser.NoFromNoImages | docker/dockerfile_parser.py:26-28 | no `FROM` line gives no images, and only then |
| DockerfileParser.ExtractBaseImages | docker/dockerfile_parser.py:4-33 | the loop collects the entries of all lines; a missing file gives `[]` |
| PrivateRegistries.ParsePrivateRegistries | utils.py:4-41 | the list built step by step equals the registries function |
| PrivateRegistries.AppendFileRegistries | utils.py:25-35 | the file loop appends the file's registries |
| PrivateRegistries.NoFlagsNoRegistries | utils.py:6-41 | no flags give `[]` |
| PrivateRegistries.FlagValueComesFirst | utils.py:9-17 | the value after the first `--private-registry` comes first |
| PrivateRegistries.FlagWithoutValueGivesDefault | utils.py:18-20 | a flag without a value gives `docker-registry.gitlab:4567` |
| PrivateRegistries.FileRegistryIsALine | utils.py:27-35 | each file registry is a stripped, non-blank, non-comment line |
| PrivateRegistries.FileLineIsTaken | utils.py:27-35 | every such line is taken, in order |
| PrivateRegistries.RegistryLineRoundTrip | utils.py:29-33 | a name on its own line is read back; a comment line is skipped |
| Formatters.SummaryFailsOnMissingStatus | utils/formatters.py:61-66 | the summary fails exactly when an entry has no status |
| Formatters.TotalLeavesOutInfo | utils/formatters.py:61-72 | the total and the INFO entries make up all results |
| Formatters.BucketMembers | utils/formatters.py:63-66 | each bucket is an order-preserving filter holding exactly the entries of its status |
| Formatters.BucketCounts | utils/formatters.py:63-80 | the four counts add up to at most the total, and exactly to it iff no counted entry has another status |
| Formatters.IgnoredInfoIsFirst | utils/formatters.py:69-81 | `ignored_info` is the first ignored-images entry, none only when there is no such entry |
| Formatters.FiveResultsSummary | tests/test_formatters.py:28-50 | the five-result example gives 5, 2, 1, 1, 1 with outdated images in input order |
| Formatters.VerdictOfResults | utils/formatters.py:131-136 | outdated iff some counted entry is; all up to date iff none is outdated, warning or unknown (also lines 363-377) |
| Formatters.SecurityVerdict | utils/formatters.py:183-190 | vulnerable if any entry is, else a warning if any errored, else secure (also lines 1138-1143) |
| Formatters.JsonSecurityCounts | utils/formatters.py:172-190 | the JSON section exists iff some result has security data, and counts no more than those |
| Formatters.HtmlAgreesWithJson | utils/formatters.py:1106-1143 | without an ignored-images entry, the HTML and JSON reports agree on the security verdict |
| Formatters.FormatterByName | utils/formatters.py:1168-1187 | the lookup is case-insensitive, unknown names give text, and the timestamp flag is passed on |
| Formatters.FormatterNameRoundTrip | utils/formatters.py:1179-1187 | every formatter is found under its name in any case |
| Formatters.FormatterExamples | tests/test_formatters.py:256-261 | `JSON`, `Html` and `invalid` select JSON, HTML and text |

## Left out

- Fetching tags from Docker Hub (`get_image_tags`, including its pagination and the golang early stop): the tag list is an input.
- Reading files: the Dockerfile, the ignore file and the registry file are given as their contents, with `None` for a missing or unreadable file. A read that fails after some lines were processed is not modelled.
- `load_custom_rules` (JSON loading): the rules are an input map.
- Regular-expression search for `regex:` ignore patterns: a function parameter returning `None` for an invalid expression.
- `fnmatch` character classes (`[...]`): only `*`, `?` and literal characters are modelled.
- Strs.IsDigit: digits are ASCII `0-9`. In a `str` pattern without `re.ASCII`, Python's `\d` matches every Unicode decimal digit, and `int()` converts those digits too. This affects `version_utils.py:16,22,88-89`, `utils/registry_utils.py:94-132` and `src/main.py:124,144`. So a tag such as Arabic-Indic `١٦` reads as major 16 and is a valid version tag in the source. In the model it has no major number and is not valid. Docker tag names are restricted to ASCII, so no real tag takes that path.
- Python's full Unicode case folding: `re.IGNORECASE` is modelled for ASCII letters, the Kelvin sign and the long s.
- How `$` matches before a final newline and `.` skips newlines in the tag regular expressions: tags are taken to hold no newline.
- Floating point in the `step_by` rule: the quotient is exact and truncated; a zero step takes the exception path and gives `None`.
- The unreachable `0.x` branch of the missing-version loop (`version_utils.py:120-124`).
- Printed narration, colour output and exit codes.
- The scanners, the GUI, the Slack notifier and the command-line glue in `src/main.py`, `main.py` and `main_integration.py`.
- The report bodies (`format` methods, templates, `save_to_file`, timestamps) and the older duplicate `formatters.py`.
- A security record without a `status` key (a `KeyError` in the source) is not modelled: each record's status is a string.
