/** The report-independent part of `utils/formatters.py`: the summary every
    formatter draws from the analysis results, the overall verdict it ends
    with, the security verdict, and the choice of formatter by name. */
module Formatters {
  import opened Wrappers
  import opened Strs
  import opened Seqs

  /** One analysis result as the formatters read it: `r.get('image')`,
      `r.get('status')`, and the status of `r['security']` when the result
      carries a security record. */
  datatype Entry = Entry(image: Option<string>, status: Option<string>, security: Option<string>)

  /** The image name of the entry that reports the ignored images. */
  const IgnoredSummaryImage: string := "IGNORED_IMAGES_SUMMARY"

  /** `get_summary(results)`; each count is the length of its list. */
  datatype Summary = Summary(
    total: nat,
    outdated: seq<Entry>,
    warnings: seq<Entry>,
    unknown: seq<Entry>,
    upToDate: seq<Entry>,
    ignoredInfo: Option<Entry>)

  // ---------------------------------------------------------------------
  // The summary
  // ---------------------------------------------------------------------

  predicate NotInfo(r: Entry) { r.status != Some("INFO") }

  predicate IsInfo(r: Entry) { r.status == Some("INFO") }

  /** `r['status'] == status` */
  function HasStatus(status: string): Entry -> bool {
    (r: Entry) => r.status == Some(status)
  }

  /** A status none of the four buckets takes (`ERROR`, say). */
  predicate OtherStatus(r: Entry) {
    && r.status != Some("OUTDATED") && r.status != Some("WARNING")
    && r.status != Some("UNKNOWN") && r.status != Some("UP-TO-DATE")
  }

  predicate IsIgnoredSummary(r: Entry) { r.image == Some(IgnoredSummaryImage) }

  /** The entries the report bodies list: all but the ignored-images one. */
  predicate Shown(r: Entry) { !IsIgnoredSummary(r) }

  /** `[r for r in filtered_results if r['status'] == status]` */
  function Bucket(results: seq<Entry>, status: string): seq<Entry> {
    Filter(Filter(results, NotInfo), HasStatus(status))
  }

  /** `get_summary(results)`: the entries other than `INFO` are counted
      and sorted into the four buckets; a counted entry with no status at
      all makes `r['status']` raise `KeyError`. */
  function GetSummary(results: seq<Entry>): Result<Summary, string> {
    var filtered := Filter(results, NotInfo);
    if exists k :: 0 <= k < |filtered| && filtered[k].status.None? then Failure("KeyError")
    else
      var i := FirstWhere(results, IsIgnoredSummary);
      Success(Summary(
        |filtered|,
        Bucket(results, "OUTDATED"),
        Bucket(results, "WARNING"),
        Bucket(results, "UNKNOWN"),
        Bucket(results, "UP-TO-DATE"),
        if i < |results| then Some(results[i]) else None))
  }

  /** The summary fails exactly when some non-`INFO` entry has no status. */
  lemma SummaryFailsOnMissingStatus(results: seq<Entry>)
    ensures GetSummary(results).Failure? <==>
              exists k :: 0 <= k < |results| && results[k].status.None?
  {
    var filtered := Filter(results, NotInfo);
    FilterIsSublist(results, NotInfo);
    if exists k :: 0 <= k < |results| && results[k].status.None? {
      var k :| 0 <= k < |results| && results[k].status.None?;
      assert results[k] in results && NotInfo(results[k]);
      assert results[k] in filtered;
      var j :| 0 <= j < |filtered| && filtered[j] == results[k];
    }
    if exists k :: 0 <= k < |filtered| && filtered[k].status.None? {
      var k :| 0 <= k < |filtered| && filtered[k].status.None?;
      assert filtered[k] in results;
    }
  }

  /** The total leaves out exactly the `INFO` entries. */
  lemma {:induction false} TotalLeavesOutInfo(results: seq<Entry>)
    ensures |Filter(results, NotInfo)| + |Filter(results, IsInfo)| == |results|
  {
    if |results| > 0 {
      TotalLeavesOutInfo(results[1..]);
    }
  }

  /** Each bucket holds, in their original order, exactly the results with
      its status. */
  lemma BucketMembers(results: seq<Entry>, status: string)
    requires status != "INFO"
    ensures IsSublist(Bucket(results, status), results)
    ensures forall r :: r in Bucket(results, status) <==> r in results && r.status == Some(status)
  {
    var filtered := Filter(results, NotInfo);
    FilterIsSublist(results, NotInfo);
    FilterIsSublist(filtered, HasStatus(status));
    SublistTrans(Bucket(results, status), filtered, results);
  }

  /** The four buckets and the entries with any other status share out the
      counted entries. */
  lemma {:induction false} BucketsPartition(s: seq<Entry>)
    ensures |Filter(s, HasStatus("OUTDATED"))| + |Filter(s, HasStatus("WARNING"))|
            + |Filter(s, HasStatus("UNKNOWN"))| + |Filter(s, HasStatus("UP-TO-DATE"))|
            + |Filter(s, OtherStatus)| == |s|
  {
    if |s| > 0 {
      BucketsPartition(s[1..]);
    }
  }

  /** The four counts add up to at most the total, and to the total exactly
      when every counted entry has one of the four statuses. */
  lemma BucketCounts(results: seq<Entry>)
    requires GetSummary(results).Success?
    ensures var s := GetSummary(results).value;
            |s.outdated| + |s.warnings| + |s.unknown| + |s.upToDate| <= s.total
    ensures var s := GetSummary(results).value;
            |s.outdated| + |s.warnings| + |s.unknown| + |s.upToDate| == s.total
            <==> forall k :: 0 <= k < |results| && NotInfo(results[k]) ==> !OtherStatus(results[k])
  {
    BucketsPartition(Filter(results, NotInfo));
    NoOtherStatus(results);
  }

  /** No counted entry has a status outside the four buckets exactly when
      filtering for such statuses leaves nothing. */
  lemma NoOtherStatus(results: seq<Entry>)
    ensures |Filter(Filter(results, NotInfo), OtherStatus)| == 0
            <==> forall k :: 0 <= k < |results| && NotInfo(results[k]) ==> !OtherStatus(results[k])
  {
    var filtered := Filter(results, NotInfo);
    FilterNonEmpty(filtered, OtherStatus);
    if exists k :: 0 <= k < |results| && NotInfo(results[k]) && OtherStatus(results[k]) {
      var k :| 0 <= k < |results| && NotInfo(results[k]) && OtherStatus(results[k]);
      CountedIndex(results, k);
    }
    if exists j :: 0 <= j < |filtered| && OtherStatus(filtered[j]) {
      var j :| 0 <= j < |filtered| && OtherStatus(filtered[j]);
      CountedSource(results, j);
    }
  }

  /** A counted result has a position among the counted ones. */
  lemma CountedIndex(results: seq<Entry>, k: nat)
    requires k < |results| && NotInfo(results[k])
    ensures exists j :: 0 <= j < |Filter(results, NotInfo)| && Filter(results, NotInfo)[j] == results[k]
  {
    FilterIsSublist(results, NotInfo);
    assert results[k] in Filter(results, NotInfo);
  }

  /** Every counted result is one of the results. */
  lemma CountedSource(results: seq<Entry>, j: nat)
    requires j < |Filter(results, NotInfo)|
    ensures exists k :: 0 <= k < |results| && results[k] == Filter(results, NotInfo)[j]
  {
    FilterIsSublist(results, NotInfo);
    assert Filter(results, NotInfo)[j] in Filter(results, NotInfo);
    assert Filter(results, NotInfo)[j] in results;
  }

  /** `ignored_info` is the first entry reporting the ignored images, and
      there is none only when no entry does. */
  lemma IgnoredInfoIsFirst(results: seq<Entry>)
    requires GetSummary(results).Success?
    ensures var info := GetSummary(results).value.ignoredInfo;
            && (info.None? <==> forall k :: 0 <= k < |results| ==> !IsIgnoredSummary(results[k]))
            && (info.Some? ==> exists i :: 0 <= i < |results| && results[i] == info.value
                                 && IsIgnoredSummary(info.value)
                                 && forall k :: 0 <= k < i ==> !IsIgnoredSummary(results[k]))
  {
    var i := FirstWhere(results, IsIgnoredSummary);
    if i < |results| {
      assert results[i] == GetSummary(results).value.ignoredInfo.value;
    }
  }

  /** The summary of the results in `tests/test_formatters.py`: two
      outdated images, in input order, and one of each other status. */
  lemma FiveResultsSummary()
    ensures var results := [
              Entry(Some("image1"), Some("OUTDATED"), None),
              Entry(Some("image2"), Some("WARNING"), None),
              Entry(Some("image3"), Some("UNKNOWN"), None),
              Entry(Some("image4"), Some("UP-TO-DATE"), None),
              Entry(Some("image5"), Some("OUTDATED"), None)];
            var s := GetSummary(results);
            && s.Success? && s.value.total == 5
            && |s.value.outdated| == 2 && |s.value.warnings| == 1
            && |s.value.unknown| == 1 && |s.value.upToDate| == 1
            && s.value.outdated[0].image == Some("image1")
            && s.value.outdated[1].image == Some("image5")
  {
    var results := [
      Entry(Some("image1"), Some("OUTDATED"), None),
      Entry(Some("image2"), Some("WARNING"), None),
      Entry(Some("image3"), Some("UNKNOWN"), None),
      Entry(Some("image4"), Some("UP-TO-DATE"), None),
      Entry(Some("image5"), Some("OUTDATED"), None)];
    SummaryOfFive(results);
  }

  /** The summary of five entries with the statuses of the example above,
      whatever their images. */
  lemma SummaryOfFive(results: seq<Entry>)
    requires |results| == 5
    requires results[0].status == Some("OUTDATED") && results[1].status == Some("WARNING")
    requires results[2].status == Some("UNKNOWN") && results[3].status == Some("UP-TO-DATE")
    requires results[4].status == Some("OUTDATED")
    ensures var s := GetSummary(results);
            && s.Success? && s.value.total == 5
            && s.value.outdated == [results[0], results[4]] && s.value.warnings == [results[1]]
            && s.value.unknown == [results[2]] && s.value.upToDate == [results[3]]
  {
    FilterAll(results, NotInfo);
    BucketOfFive(results, "OUTDATED");
    BucketOfFive(results, "WARNING");
    BucketOfFive(results, "UNKNOWN");
    BucketOfFive(results, "UP-TO-DATE");
  }

  /** The bucket of five entries, entry by entry. */
  lemma BucketOfFive(results: seq<Entry>, status: string)
    requires |results| == 5
    ensures var f := HasStatus(status);
            Filter(results, f)
            == (if f(results[0]) then [results[0]] else []) + ((if f(results[1]) then [results[1]] else [])
               + ((if f(results[2]) then [results[2]] else []) + ((if f(results[3]) then [results[3]] else [])
               + (if f(results[4]) then [results[4]] else []))))
  {
    var f := HasStatus(status);
    assert results[5..] == [];
    FilterStep(results, 4, f);
    AppendEmpty(if f(results[4]) then [results[4]] else []);
    FilterStep(results, 3, f);
    FilterStep(results, 2, f);
    FilterStep(results, 1, f);
    FilterStep(results, 0, f);
    assert results[0..] == results;
  }

  // ---------------------------------------------------------------------
  // The overall verdict
  // ---------------------------------------------------------------------

  datatype Verdict = AllUpToDate | Outdated | Warning

  /** The closing line of the text and markdown reports. */
  function OverallVerdict(s: Summary): Verdict {
    if |s.outdated| == 0 && |s.warnings| == 0 && |s.unknown| == 0 then AllUpToDate
    else if |s.outdated| > 0 then Outdated
    else Warning
  }

  /** The verdict in terms of the results: outdated as soon as one counted
      entry is, a warning when one is a warning or unknown, all up to date
      otherwise. */
  lemma VerdictOfResults(results: seq<Entry>)
    requires GetSummary(results).Success?
    ensures var v := OverallVerdict(GetSummary(results).value);
            var counted := Filter(results, NotInfo);
            && (v == Outdated <==> exists r :: r in counted && r.status == Some("OUTDATED"))
            && (v == AllUpToDate <==> forall r :: r in counted ==>
                  r.status != Some("OUTDATED") && r.status != Some("WARNING") && r.status != Some("UNKNOWN"))
  {
    var counted := Filter(results, NotInfo);
    BucketNonEmpty(counted, "OUTDATED");
    BucketNonEmpty(counted, "WARNING");
    BucketNonEmpty(counted, "UNKNOWN");
  }

  /** A bucket is non-empty exactly when some entry has its status. */
  lemma BucketNonEmpty(counted: seq<Entry>, status: string)
    ensures |Filter(counted, HasStatus(status))| > 0 <==> exists r :: r in counted && r.status == Some(status)
  {
    FilterIsSublist(counted, HasStatus(status));
    FilterNonEmpty(counted, HasStatus(status));
  }

  // ---------------------------------------------------------------------
  // The security verdict
  // ---------------------------------------------------------------------

  datatype SecurityStatus = Vulnerable | SecurityWarning | Secure

  /** `'VULNERABLE' if vulnerable else 'WARNING' if errors else 'SECURE'` */
  function SecurityStatusOf(vulnerable: nat, errors: nat): SecurityStatus {
    if vulnerable > 0 then Vulnerable else if errors > 0 then SecurityWarning else Secure
  }

  function HasSecurity(status: string): Entry -> bool {
    (r: Entry) => r.security == Some(status)
  }

  predicate Scanned(r: Entry) { r.security.Some? }

  /** The security section of the JSON report: counted over all results,
      and absent when no result carries a security record. */
  datatype SecurityReport = SecurityReport(scanned: nat, vulnerable: nat, secure: nat, errors: nat, status: SecurityStatus)

  function JsonSecurity(results: seq<Entry>): Option<SecurityReport> {
    if forall k :: 0 <= k < |results| ==> !Scanned(results[k]) then None
    else
      var vulnerable := |Filter(results, HasSecurity("VULNERABLE"))|;
      var secure := |Filter(results, HasSecurity("SECURE"))|;
      var errors := |Filter(results, HasSecurity("ERROR"))|;
      Some(SecurityReport(vulnerable + secure + errors, vulnerable, secure, errors,
                          SecurityStatusOf(vulnerable, errors)))
  }

  /** The security status of the HTML report, counted over the results
      other than the ignored-images entry, with the number of results that
      carry a security record. */
  function HtmlSecurity(results: seq<Entry>): (Option<SecurityStatus>, nat) {
    var shown := Filter(results, Shown);
    if forall k :: 0 <= k < |shown| ==> !Scanned(shown[k]) then (None, 0)
    else
      (Some(SecurityStatusOf(|Filter(shown, HasSecurity("VULNERABLE"))|, |Filter(shown, HasSecurity("ERROR"))|)),
       |Filter(shown, Scanned)|)
  }

  /** The security verdict in terms of the results it is counted over:
      vulnerable when one is, a warning when none is but one failed to be
      scanned, secure otherwise. */
  lemma SecurityVerdict(results: seq<Entry>)
    ensures SecurityStatusOf(|Filter(results, HasSecurity("VULNERABLE"))|, |Filter(results, HasSecurity("ERROR"))|)
            == if exists k :: 0 <= k < |results| && results[k].security == Some("VULNERABLE") then Vulnerable
               else if exists k :: 0 <= k < |results| && results[k].security == Some("ERROR") then SecurityWarning
               else Secure
  {
    FilterNonEmpty(results, HasSecurity("VULNERABLE"));
    FilterNonEmpty(results, HasSecurity("ERROR"));
  }

  /** The JSON section appears exactly when some result was scanned, and
      its scanned count never exceeds the number of results that were. */
  lemma JsonSecurityCounts(results: seq<Entry>)
    ensures JsonSecurity(results).Some? <==> exists k :: 0 <= k < |results| && Scanned(results[k])
    ensures JsonSecurity(results).Some? ==> JsonSecurity(results).value.scanned <= |Filter(results, Scanned)|
  {
    ScannedAtLeast(results);
  }

  /** Without an ignored-images entry the HTML and JSON reports agree on
      whether there is a security verdict and on what it is; the HTML
      report counts every scanned result, the JSON one only those with one
      of the three known statuses. */
  lemma HtmlAgreesWithJson(results: seq<Entry>)
    requires forall k :: 0 <= k < |results| ==> !IsIgnoredSummary(results[k])
    ensures HtmlSecurity(results).0.Some? <==> JsonSecurity(results).Some?
    ensures JsonSecurity(results).Some? ==>
              && HtmlSecurity(results).0.value == JsonSecurity(results).value.status
              && JsonSecurity(results).value.scanned <= HtmlSecurity(results).1
  {
    FilterAll(results, Shown);
    ScannedAtLeast(results);
  }

  lemma {:induction false} ScannedAtLeast(s: seq<Entry>)
    ensures |Filter(s, HasSecurity("VULNERABLE"))| + |Filter(s, HasSecurity("SECURE"))|
            + |Filter(s, HasSecurity("ERROR"))| <= |Filter(s, Scanned)|
  {
    if |s| > 0 {
      ScannedAtLeast(s[1..]);
    }
  }

  // ---------------------------------------------------------------------
  // Choosing a formatter
  // ---------------------------------------------------------------------

  datatype FormatterKind = Text | Json | Csv | Markdown | Html

  datatype Formatter = Formatter(kind: FormatterKind, includeTimestamp: bool)

  /** `get_formatter(format_type, include_timestamp)`: the name is looked up
      in lower case, and an unknown name gives the text formatter. */
  function GetFormatter(formatType: string, includeTimestamp: bool): Formatter {
    var name := Lower(formatType);
    var kind :=
      if name == "json" then Json
      else if name == "csv" then Csv
      else if name == "markdown" then Markdown
      else if name == "html" then Html
      else Text;
    Formatter(kind, includeTimestamp)
  }

  /** The name each formatter is registered under. */
  function KindName(kind: FormatterKind): string {
    match kind
    case Text => "text"
    case Json => "json"
    case Csv => "csv"
    case Markdown => "markdown"
    case Html => "html"
  }

  /** A name selects a formatter other than text exactly when its lower
      case is that formatter's name; every other name selects text. */
  lemma FormatterByName(formatType: string, includeTimestamp: bool)
    ensures var f := GetFormatter(formatType, includeTimestamp);
            && f.includeTimestamp == includeTimestamp
            && (f.kind != Text ==> Lower(formatType) == KindName(f.kind))
            && (f.kind == Text <==> Lower(formatType) !in ["json", "csv", "markdown", "html"])
  {
  }

  /** Every formatter is found under its own name, in any capitalisation. */
  lemma FormatterNameRoundTrip(kind: FormatterKind, formatType: string)
    requires Lower(formatType) == KindName(kind)
    ensures GetFormatter(formatType, true).kind == kind
  {
  }

  /** The lookups in `tests/test_formatters.py`. */
  lemma FormatterExamples()
    ensures GetFormatter("JSON", true).kind == Json
    ensures GetFormatter("Html", true).kind == Html
    ensures GetFormatter("invalid", true).kind == Text
  {
    JsonByAnyCase();
    HtmlByAnyCase();
    assert |Lower("invalid")| == 7;
  }

  lemma JsonByAnyCase()
    ensures GetFormatter("JSON", true).kind == Json
  {
    assert Lower("JSON") == "json";
  }

  lemma HtmlByAnyCase()
    ensures GetFormatter("Html", true).kind == Html
  {
    assert Lower("Html") == "html";
    assert "html"[0] != "json"[0];
  }
}
