/** `image_ignore.py`: the list of ignore patterns an analysis run skips
    images by, and the scan of the command line that fills it. */
module ImageIgnore {
  import opened Wrappers
  import opened Strs
  import opened Seqs
  import opened CommandLine

  // ---------------------------------------------------------------------
  // Patterns as they are kept
  // ---------------------------------------------------------------------

  /** A pattern as the manager keeps it: not blank, and neither starting
      nor ending with whitespace. */
  predicate IsClean(p: string) {
    |p| > 0 && !IsSpace(p[0]) && !IsSpace(p[|p| - 1])
  }

  /** A clean pattern is its own stripped form. */
  lemma CleanIsStripped(p: string)
    requires IsClean(p)
    ensures Strip(p) == p
  {
    assert TrimLeft(p) == p;
    assert TrimRight(p) == p;
  }

  predicate AllClean(patterns: seq<string>) {
    forall k :: 0 <= k < |patterns| ==> IsClean(patterns[k])
  }

  lemma CleanConcat(a: seq<string>, b: seq<string>)
    requires AllClean(a) && AllClean(b)
    ensures AllClean(a + b)
  {
    forall k | 0 <= k < |a + b|
      ensures IsClean((a + b)[k])
    {
      if k < |a| { assert (a + b)[k] == a[k]; } else { assert (a + b)[k] == b[k - |a|]; }
    }
  }

  /** What `add_pattern` keeps of a pattern: the stripped pattern, unless
      that is blank. */
  function Kept(pattern: string): (r: seq<string>)
    ensures |r| <= 1 && AllClean(r)
  {
    StripMeaning(pattern);
    if Strip(pattern) != "" then [Strip(pattern)] else []
  }

  /** What `add_pattern` keeps of each pattern of a list, in order. */
  function KeptAll(patterns: seq<string>): (r: seq<string>)
    ensures AllClean(r)
  {
    if |patterns| == 0 then []
    else
      var init := KeptAll(patterns[..|patterns| - 1]);
      var last := Kept(patterns[|patterns| - 1]);
      CleanConcat(init, last);
      init + last
  }

  /** The pattern a line of an ignore file gives: the stripped line, unless
      it is blank or a `#` comment. */
  function LinePattern(line: string): (r: seq<string>)
    ensures |r| <= 1 && AllClean(r)
  {
    var l := Strip(line);
    if l == "" || StartsWith(l, "#") then [] else Kept(l)
  }

  /** The patterns of an ignore file, in file order. */
  function FilePatterns(lines: seq<string>): (r: seq<string>)
    ensures AllClean(r)
  {
    if |lines| == 0 then []
    else
      var init := FilePatterns(lines[..|lines| - 1]);
      var last := LinePattern(lines[|lines| - 1]);
      CleanConcat(init, last);
      init + last
  }

  /** One more pattern of a list adds what is kept of it. */
  lemma KeptAllOneMore(patterns: seq<string>, i: nat)
    requires i < |patterns|
    ensures KeptAll(patterns[..i + 1]) == KeptAll(patterns[..i]) + Kept(patterns[i])
  {
    assert patterns[..i + 1][..i] == patterns[..i];
  }

  /** One more line of a file adds the pattern it gives. */
  lemma FilePatternsOneMore(lines: seq<string>, i: nat)
    requires i < |lines|
    ensures FilePatterns(lines[..i + 1]) == FilePatterns(lines[..i]) + LinePattern(lines[i])
  {
    assert lines[..i + 1][..i] == lines[..i];
  }

  /** Keeping patterns one list after another keeps them in order. */
  lemma {:induction false} KeptAllConcat(a: seq<string>, b: seq<string>)
    ensures KeptAll(a + b) == KeptAll(a) + KeptAll(b)
    decreases |b|
  {
    if |b| == 0 {
      AppendEmpty(a);
      AppendEmpty(KeptAll(a));
    } else {
      var front := b[..|b| - 1];
      ConcatFront(a, b);
      KeptAllConcat(a, front);
      AppendAssoc(KeptAll(a), KeptAll(front), Kept(b[|b| - 1]));
    }
  }

  /** Patterns that are already stripped and not blank are kept as given. */
  lemma {:induction false} KeptAllOfClean(patterns: seq<string>)
    requires AllClean(patterns)
    ensures KeptAll(patterns) == patterns
  {
    if |patterns| > 0 {
      var init := patterns[..|patterns| - 1];
      var last := patterns[|patterns| - 1];
      assert AllClean(init) by {
        forall k | 0 <= k < |init| ensures IsClean(init[k]) {
          assert init[k] == patterns[k];
        }
      }
      KeptAllOfClean(init);
      CleanIsStripped(last);
      assert Kept(last) == [last];
      FrontLast(patterns);
    }
  }

  /** Every pattern of a file is a stripped line of it that is neither
      blank nor a comment. */
  lemma {:induction false} FilePatternsFromLines(lines: seq<string>)
    ensures forall k :: 0 <= k < |FilePatterns(lines)| ==>
              var p := FilePatterns(lines)[k];
              p != "" && !StartsWith(p, "#") && exists j :: 0 <= j < |lines| && Strip(lines[j]) == p
  {
    if |lines| > 0 {
      var init := lines[..|lines| - 1];
      var last := lines[|lines| - 1];
      var front := FilePatterns(init);
      var lp := LinePattern(last);
      assert FilePatterns(lines) == front + lp;
      FilePatternsFromLines(init);
      LinePatternFromLine(last);
      forall k | 0 <= k < |FilePatterns(lines)|
        ensures var p := FilePatterns(lines)[k];
                p != "" && !StartsWith(p, "#") && exists j :: 0 <= j < |lines| && Strip(lines[j]) == p
      {
        if k < |front| {
          assert FilePatterns(lines)[k] == front[k];
          var j :| 0 <= j < |init| && Strip(init[j]) == front[k];
          assert lines[j] == init[j];
        } else {
          assert FilePatterns(lines)[k] == lp[k - |front|] == Strip(last);
        }
      }
    }
  }

  /** The pattern of a line, if any, is the stripped line and no comment. */
  lemma LinePatternFromLine(line: string)
    ensures LinePattern(line) == [] || (LinePattern(line) == [Strip(line)] && !StartsWith(Strip(line), "#"))
  {
    var l := Strip(line);
    if l != "" && !StartsWith(l, "#") {
      StripIdempotent(line);
    }
  }

  /** A line that is neither blank nor a comment gives its stripped text. */
  lemma LineGivesPattern(line: string)
    requires Strip(line) != "" && !StartsWith(Strip(line), "#")
    ensures LinePattern(line) == [Strip(line)]
  {
    StripIdempotent(line);
  }

  /** Every line of a file that is neither blank nor a comment gives a
      pattern, right after the patterns of the lines above it: the patterns
      come in file order. */
  lemma FileLineBecomesPattern(lines: seq<string>, j: nat)
    requires j < |lines| && Strip(lines[j]) != "" && !StartsWith(Strip(lines[j]), "#")
    ensures |FilePatterns(lines[..j])| < |FilePatterns(lines)|
    ensures FilePatterns(lines)[|FilePatterns(lines[..j])|] == Strip(lines[j])
  {
    var above := lines[..j];
    var rest := lines[j + 1..];
    SplitAt(lines, j);
    FilePatternsConcat(above, [lines[j]] + rest);
    FirstLineBecomesPattern(lines[j], rest);
  }

  /** A first line that is neither blank nor a comment gives the first
      pattern. */
  lemma FirstLineBecomesPattern(line: string, rest: seq<string>)
    requires Strip(line) != "" && !StartsWith(Strip(line), "#")
    ensures FilePatterns([line] + rest) == [Strip(line)] + FilePatterns(rest)
  {
    FilePatternsConcat([line], rest);
    assert FilePatterns([line]) == [Strip(line)] by {
      assert [line][..0] == [];
      LineGivesPattern(line);
    }
  }

  /** The patterns of two pieces of a file, one after the other. */
  lemma {:induction false} FilePatternsConcat(a: seq<string>, b: seq<string>)
    ensures FilePatterns(a + b) == FilePatterns(a) + FilePatterns(b)
    decreases |b|
  {
    if |b| == 0 {
      assert a + b == a;
      AppendEmpty(FilePatterns(a));
    } else {
      var front := b[..|b| - 1];
      ConcatFront(a, b);
      FilePatternsConcat(a, front);
      AppendAssoc(FilePatterns(a), FilePatterns(front), LinePattern(b[|b| - 1]));
    }
  }

  // ---------------------------------------------------------------------
  // Matching
  // ---------------------------------------------------------------------

  /** `fnmatch.fnmatch(name, pattern)` for patterns built from `*` (any
      text), `?` (any one character) and literal characters. */
  predicate Glob(pattern: string, name: string)
    decreases |pattern| + |name|
  {
    if |pattern| == 0 then |name| == 0
    else if pattern[0] == '*' then Glob(pattern[1..], name) || (|name| > 0 && Glob(pattern, name[1..]))
    else |name| > 0 && (pattern[0] == '?' || pattern[0] == name[0]) && Glob(pattern[1..], name[1..])
  }

  /** A pattern without wildcards. */
  predicate IsLiteral(pattern: string) {
    forall k :: 0 <= k < |pattern| ==> pattern[k] != '*' && pattern[k] != '?'
  }

  /** A pattern without wildcards matches exactly the name it spells. */
  lemma {:induction false} GlobLiteral(pattern: string, name: string)
    requires IsLiteral(pattern)
    ensures Glob(pattern, name) <==> name == pattern
  {
    if |pattern| > 0 && |name| > 0 {
      GlobLiteral(pattern[1..], name[1..]);
      if name == pattern {
        assert name[1..] == pattern[1..];
      }
      if pattern[0] == name[0] && name[1..] == pattern[1..] {
        assert name == [name[0]] + name[1..] && pattern == [pattern[0]] + pattern[1..];
      }
    }
  }

  /** `*` alone matches every name. */
  lemma {:induction false} GlobStar(name: string)
    ensures Glob("*", name)
    decreases |name|
  {
    if |name| > 0 {
      GlobStar(name[1..]);
    } else {
      assert "*"[1..] == "";
    }
  }

  /** A wildcard-free prefix followed by `*` matches exactly the names that
      start with that prefix. */
  lemma {:induction false} GlobPrefix(prefix: string, name: string)
    requires IsLiteral(prefix)
    ensures Glob(prefix + "*", name) <==> StartsWith(name, prefix)
    decreases |prefix|
  {
    if |prefix| == 0 {
      assert prefix + "*" == "*";
      GlobStar(name);
    } else {
      assert (prefix + "*")[0] == prefix[0];
      assert (prefix + "*")[1..] == prefix[1..] + "*";
      if |name| > 0 {
        GlobPrefix(prefix[1..], name[1..]);
        if StartsWith(name, prefix) {
          assert name[1..][..|prefix| - 1] == name[..|prefix|][1..];
        }
        if prefix[0] == name[0] && StartsWith(name[1..], prefix[1..]) {
          assert name[..|prefix|] == [name[0]] + name[1..][..|prefix| - 1];
          assert prefix == [prefix[0]] + prefix[1..];
        }
      }
    }
  }

  /** `python:3.9*` ignores a 3.9 image ... */
  lemma GlobPythonMatches()
    ensures Glob("python:3.9*", "python:3.9-alpine")
  {
    var prefix := "python:3.9";
    assert "python:3.9*" == prefix + "*";
    assert IsLiteral(prefix);
    GlobPrefix(prefix, "python:3.9-alpine");
  }

  /** ... and not a 3.10 one. */
  lemma GlobPythonSkips()
    ensures !Glob("python:3.9*", "python:3.10")
  {
    var prefix := "python:3.9";
    assert "python:3.9*" == prefix + "*";
    assert IsLiteral(prefix);
    GlobPrefix(prefix, "python:3.10");
    assert "python:3.10"[..10][9] != prefix[9];
  }

  /** `node:16` ignores `node:16` only. */
  lemma GlobNodeExamples()
    ensures Glob("node:16", "node:16") && !Glob("node:16", "node:18")
  {
    assert IsLiteral("node:16");
    GlobLiteral("node:16", "node:16");
    GlobLiteral("node:16", "node:18");
  }

  /** Whether one pattern matches an image name: a `regex:` pattern by
      `re.search` of the rest (`search` gives `None` for an invalid regular
      expression, which matches nothing), any other by `fnmatch`. */
  predicate PatternMatches(pattern: string, name: string, search: (string, string) -> Option<bool>) {
    if StartsWith(pattern, "regex:") then search(pattern[6..], name) == Some(true)
    else Glob(pattern, name)
  }

  // ---------------------------------------------------------------------
  // The manager
  // ---------------------------------------------------------------------

  /** `ImageIgnoreManager`: the patterns, in the order they were added. */
  class ImageIgnoreManager {
    var patterns: seq<string>

    constructor()
      ensures patterns == [] && Valid()
    {
      patterns := [];
    }

    /** Every kept pattern is stripped and not blank. */
    ghost predicate Valid()
      reads this
    {
      AllClean(patterns)
    }

    /** `add_pattern`: appends the stripped pattern unless it is blank. */
    method AddPattern(pattern: string)
      requires Valid()
      modifies this
      ensures patterns == old(patterns) + Kept(pattern)
      ensures Valid()
    {
      var p := Strip(pattern);
      if p != "" {
        patterns := patterns + [p];
      }
      CleanConcat(old(patterns), Kept(pattern));
    }

    /** `add_patterns_from_list`: `add_pattern` on each pattern in order;
        `None` adds nothing. */
    method AddPatternsFromList(list: Option<seq<string>>)
      requires Valid()
      modifies this
      ensures patterns == old(patterns) + (if list.Some? then KeptAll(list.value) else [])
      ensures Valid()
    {
      if list.Some? {
        var ps := list.value;
        for i := 0 to |ps|
          invariant patterns == old(patterns) + KeptAll(ps[..i])
          invariant Valid()
        {
          KeptAllOneMore(ps, i);
          AppendAssoc(old(patterns), KeptAll(ps[..i]), Kept(ps[i]));
          AddPattern(ps[i]);
        }
        assert ps[..|ps|] == ps;
      }
    }

    /** `load_patterns_from_file` over the lines of the file (`None` when
        there is no such file): `false` and nothing added for a missing
        file; otherwise every line that is neither blank nor a comment is
        added, in file order. */
    method LoadPatternsFromLines(file: Option<seq<string>>) returns (loaded: bool)
      requires Valid()
      modifies this
      ensures loaded <==> file.Some?
      ensures patterns == old(patterns) + (if file.Some? then FilePatterns(file.value) else [])
      ensures Valid()
    {
      if file.None? {
        return false;
      }
      var lines := file.value;
      for i := 0 to |lines|
        invariant patterns == old(patterns) + FilePatterns(lines[..i])
        invariant Valid()
      {
        FilePatternsOneMore(lines, i);
        AppendAssoc(old(patterns), FilePatterns(lines[..i]), LinePattern(lines[i]));
        var line := Strip(lines[i]);
        if line != "" && !StartsWith(line, "#") {
          AddPattern(line);
        }
      }
      assert lines[..|lines|] == lines;
      return true;
    }

    /** `should_ignore`: whether some pattern matches the image name. */
    method ShouldIgnore(imageName: string, search: (string, string) -> Option<bool>) returns (ignored: bool)
      ensures ignored <==> exists k :: 0 <= k < |patterns| && PatternMatches(patterns[k], imageName, search)
    {
      if |patterns| == 0 {
        return false;
      }
      for i := 0 to |patterns|
        invariant forall k :: 0 <= k < i ==> !PatternMatches(patterns[k], imageName, search)
      {
        var pattern := patterns[i];
        if StartsWith(pattern, "regex:") {
          var found := search(pattern[6..], imageName);
          if found == Some(true) {
            return true;
          }
        } else if Glob(pattern, imageName) {
          return true;
        }
      }
      return false;
    }

    /** `get_patterns`: a copy of the patterns; the manager's own list is a
        value the caller cannot change through the copy. */
    method GetPatterns() returns (copy: seq<string>)
      ensures copy == patterns
    {
      copy := patterns;
    }
  }

  // ---------------------------------------------------------------------
  // parse_ignore_options
  // ---------------------------------------------------------------------

  /** The values of the `--ignore` flags from position `i` on, as the index
      walk collects them: a flag followed by an argument that does not
      start with `--` takes it and skips it; a bare flag takes nothing. */
  function IgnoreFrom(args: seq<string>, i: nat): seq<string>
    decreases |args| - i
  {
    if i >= |args| then []
    else if args[i] == "--ignore" then
      if i + 1 < |args| && !StartsWith(args[i + 1], "--") then [args[i + 1]] + IgnoreFrom(args, i + 2)
      else IgnoreFrom(args, i + 1)
    else IgnoreFrom(args, i + 1)
  }

  /** Whether position `i` holds an `--ignore` flag followed by a value. */
  predicate FlagWithValue(args: seq<string>, i: nat) {
    i + 1 < |args| && args[i] == "--ignore" && !StartsWith(args[i + 1], "--")
  }

  /** The value after every `--ignore` flag that has one, position by
      position. */
  function Flagged(args: seq<string>, i: nat): seq<string>
    decreases |args| - i
  {
    if i >= |args| then []
    else (if FlagWithValue(args, i) then [args[i + 1]] else []) + Flagged(args, i + 1)
  }

  /** Skipping the value of a flag loses no flag: a value never starts with
      `--`, so it is never itself an `--ignore` flag. */
  lemma {:induction false} IgnoreFromIsFlagged(args: seq<string>, i: nat)
    ensures IgnoreFrom(args, i) == Flagged(args, i)
    decreases |args| - i
  {
    if i < |args| {
      if FlagWithValue(args, i) {
        IgnoreFromIsFlagged(args, i + 2);
        assert !FlagWithValue(args, i + 1) by {
          assert StartsWith("--ignore", "--");
        }
        if i + 2 <= |args| {
          assert Flagged(args, i + 1) == Flagged(args, i + 2);
        }
      } else {
        IgnoreFromIsFlagged(args, i + 1);
      }
    }
  }

  /** The `--ignore` values collected by the index walk of
      `parse_ignore_options`. */
  method IgnoreArguments(args: seq<string>) returns (values: seq<string>)
    ensures values == Flagged(args, 0)
  {
    values := [];
    var i := 0;
    while i < |args|
      invariant 0 <= i <= |args| + 1
      invariant values + IgnoreFrom(args, i) == IgnoreFrom(args, 0)
      decreases |args| - i
    {
      if args[i] == "--ignore" {
        if i + 1 < |args| && !StartsWith(args[i + 1], "--") {
          AppendAssoc(values, [args[i + 1]], IgnoreFrom(args, i + 2));
          values := values + [args[i + 1]];
          i := i + 2;
        } else {
          i := i + 1;
        }
      } else {
        i := i + 1;
      }
    }
    IgnoreFromIsFlagged(args, 0);
  }

  /** Two `--ignore` flags give their two values in order; a bare flag
      gives nothing. */
  lemma IgnoreArgumentExamples()
    ensures Flagged(["main.py", "Dockerfile", "--ignore", "nginx:*", "--ignore", "debian:*"], 0)
            == ["nginx:*", "debian:*"]
    ensures Flagged(["main.py", "Dockerfile", "--ignore"], 0) == []
  {
    var args := ["main.py", "Dockerfile", "--ignore", "nginx:*", "--ignore", "debian:*"];
    assert "nginx:*"[..2][0] != "--"[0];
    assert "debian:*"[..2][0] != "--"[0];
    assert Flagged(args, 5) == [];
    assert Flagged(args, 4) == ["debian:*"];
    assert Flagged(args, 3) == ["debian:*"];
    assert Flagged(args, 2) == ["nginx:*", "debian:*"];
    assert Flagged(["main.py", "Dockerfile", "--ignore"], 2) == [];
  }

  /** The file named after the first `--ignore-images` flag, when an
      argument follows it that does not start with `--`. */
  function IgnoreFile(args: seq<string>): Option<string> {
    ValueAfter(args, "--ignore-images")
  }

  /** `parse_ignore_options(args)`, with `readFile` giving the lines of a
      file (`None` when it does not exist): the `--ignore` values first,
      then the patterns of the ignore file. */
  method ParseIgnoreOptions(args: seq<string>, readFile: string -> Option<seq<string>>)
    returns (manager: ImageIgnoreManager)
    ensures fresh(manager) && manager.Valid()
    ensures manager.patterns ==
              KeptAll(Flagged(args, 0))
              + (if IgnoreFile(args).Some? && readFile(IgnoreFile(args).value).Some?
                 then FilePatterns(readFile(IgnoreFile(args).value).value) else [])
  {
    manager := new ImageIgnoreManager();
    var ignorePatterns := IgnoreArguments(args);
    manager.AddPatternsFromList(Some(ignorePatterns));
    assert manager.patterns == KeptAll(Flagged(args, 0));
    var filePath := ValueAfter(args, "--ignore-images");
    if filePath.Some? {
      var success := manager.LoadPatternsFromLines(readFile(filePath.value));
    }
  }
}
