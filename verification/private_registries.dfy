/** `parse_private_registries` in `utils.py`: the private registries an
    analysis run treats as unsupported, named on the command line by
    `--private-registry` and listed one per line in the file named by
    `--private-registries-file`. The file is given by `readFile`, which
    yields its lines or `None` when it cannot be read. */
module PrivateRegistries {
  import opened Wrappers
  import opened Strs
  import opened Seqs
  import opened CommandLine

  /** The registry used when `--private-registry` has no value. */
  const DefaultRegistry: string := "docker-registry.gitlab:4567"

  /** The registry `--private-registry` contributes: its value, or the
      default when the flag is last or followed by another option. */
  function FlagRegistry(args: seq<string>): Option<string> {
    if "--private-registry" !in args then None
    else Some(ValueAfter(args, "--private-registry").GetOr(DefaultRegistry))
  }

  /** A line of the registries file: stripped, and kept unless it is blank
      or a `#` comment. */
  function RegistryLine(line: string): Option<string> {
    var registry := Strip(line);
    if registry != "" && !StartsWith(registry, "#") then Some(registry) else None
  }

  /** The registries a file lists, in file order. */
  function FileRegistries(lines: seq<string>): seq<string> {
    Collect(lines, RegistryLine)
  }

  /** The lines of the file named after `--private-registries-file`, when
      there is such a file and it can be read. */
  function RegistriesFile(args: seq<string>, readFile: string -> Option<seq<string>>): Option<seq<string>> {
    match ValueAfter(args, "--private-registries-file")
    case None => None
    case Some(path) => readFile(path)
  }

  /** The flag's registry first, then the file's. */
  function PrivateRegistries(args: seq<string>, readFile: string -> Option<seq<string>>): seq<string> {
    (match FlagRegistry(args) case Some(r) => [r] case None => [])
    + (match RegistriesFile(args, readFile) case Some(lines) => FileRegistries(lines) case None => [])
  }

  /** `parse_private_registries(args)`: the flag's registry is appended,
      then the file's. */
  method ParsePrivateRegistries(args: seq<string>, readFile: string -> Option<seq<string>>)
    returns (registries: seq<string>)
    ensures registries == PrivateRegistries(args, readFile)
  {
    registries := [];
    if "--private-registry" in args {
      var value := ValueAfter(args, "--private-registry");
      if value.Some? {
        registries := registries + [value.value];
      } else {
        registries := registries + [DefaultRegistry];
      }
    }
    var path := ValueAfter(args, "--private-registries-file");
    if path.Some? {
      var file := readFile(path.value);
      if file.Some? {
        registries := AppendFileRegistries(registries, file.value);
      }
    }
  }

  /** The loop over the file's lines: each stripped line that is neither
      blank nor a comment is appended. */
  method AppendFileRegistries(head: seq<string>, lines: seq<string>) returns (registries: seq<string>)
    ensures registries == head + FileRegistries(lines)
  {
    registries := head;
    for i := 0 to |lines|
      invariant registries == head + FileRegistries(lines[..i])
    {
      var registry := Strip(lines[i]);
      FileRegistriesOneMore(lines, i);
      var taken := if registry != "" && !StartsWith(registry, "#") then [registry] else [];
      assert FileRegistries(lines[..i + 1]) == FileRegistries(lines[..i]) + taken;
      AppendAssoc(head, FileRegistries(lines[..i]), taken);
      if registry != "" && !StartsWith(registry, "#") {
        registries := registries + [registry];
      }
    }
    assert lines[..|lines|] == lines;
  }

  /** Reading one more line of the file. */
  lemma FileRegistriesOneMore(lines: seq<string>, i: nat)
    requires i < |lines|
    ensures FileRegistries(lines[..i + 1])
            == FileRegistries(lines[..i]) + (match RegistryLine(lines[i]) case Some(r) => [r] case None => [])
  {
    assert lines[..i + 1] == lines[..i] + [lines[i]];
    CollectConcat(lines[..i], [lines[i]], RegistryLine);
  }

  // ---------------------------------------------------------------------
  // What the command line yields
  // ---------------------------------------------------------------------

  /** Without either flag there are no private registries. */
  lemma NoFlagsNoRegistries(args: seq<string>, readFile: string -> Option<seq<string>>)
    requires "--private-registry" !in args && "--private-registries-file" !in args
    ensures PrivateRegistries(args, readFile) == []
  {
  }

  /** A value after the first `--private-registry` is the first registry. */
  lemma FlagValueComesFirst(args: seq<string>, readFile: string -> Option<seq<string>>, i: nat)
    requires i + 1 < |args| && args[i] == "--private-registry" && "--private-registry" !in args[..i]
    requires !StartsWith(args[i + 1], "--")
    ensures var registries := PrivateRegistries(args, readFile);
            |registries| > 0 && registries[0] == args[i + 1]
  {
    ValueAfterFirst(args, "--private-registry", i);
  }

  /** The first `--private-registry` with no value (last, or followed by an
      option) gives the default registry first. */
  lemma FlagWithoutValueGivesDefault(args: seq<string>, readFile: string -> Option<seq<string>>, i: nat)
    requires i < |args| && args[i] == "--private-registry" && "--private-registry" !in args[..i]
    requires i + 1 == |args| || StartsWith(args[i + 1], "--")
    ensures var registries := PrivateRegistries(args, readFile);
            |registries| > 0 && registries[0] == DefaultRegistry
  {
    ValueAfterFirst(args, "--private-registry", i);
  }

  /** Every registry taken from the file is a stripped line of it that is
      neither blank nor a comment. */
  lemma FileRegistryIsALine(lines: seq<string>, k: nat)
    requires k < |FileRegistries(lines)|
    ensures exists j :: 0 <= j < |lines| && FileRegistries(lines)[k] == Strip(lines[j])
    ensures FileRegistries(lines)[k] != "" && !StartsWith(FileRegistries(lines)[k], "#")
  {
    CollectSource(lines, RegistryLine, k);
  }

  /** A file line holding a registry name is taken, after the registries of
      the lines above it. */
  lemma FileLineIsTaken(lines: seq<string>, j: nat)
    requires j < |lines| && RegistryLine(lines[j]).Some?
    ensures var n := |FileRegistries(lines[..j])|;
            n < |FileRegistries(lines)| && FileRegistries(lines)[n] == Strip(lines[j])
  {
    CollectEntry(lines, RegistryLine, j);
  }

  /** A name without surrounding whitespace, written on its own line, is
      read back as written; a comment line is skipped. */
  lemma RegistryLineRoundTrip(name: string, text: string)
    requires |name| > 0 && !IsSpace(name[0]) && !IsSpace(name[|name| - 1]) && name[0] != '#'
    ensures RegistryLine(name + "\n") == Some(name)
    ensures RegistryLine("#" + text) == None
  {
    StripLineBreak(name);
    var c := "#" + text;
    assert TrimLeft(c) == c;
    if |TrimRight(c)| > 0 {
      assert TrimRight(c)[0] == c[0];
    }
    else {
    }
  }
}
