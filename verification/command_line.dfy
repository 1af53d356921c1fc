/** The one command-line idiom the option parsers share: the argument that
    follows the first occurrence of a flag, taken as the flag's value when
    it is not itself an option. */
module CommandLine {
  import opened Wrappers
  import opened Strs
  import opened Seqs

  /** `args[args.index(flag) + 1]` when the flag occurs, is not the last
      argument and the next argument does not start with `--`. */
  function ValueAfter(args: seq<string>, flag: string): (v: Option<string>)
    ensures v.Some? ==> flag in args && !StartsWith(v.value, "--")
  {
    var idx := FirstIndex(args, flag);
    if idx + 1 < |args| && !StartsWith(args[idx + 1], "--") then Some(args[idx + 1]) else None
  }

  /** The value is the argument right after the first occurrence of the
      flag, and there is one exactly when that argument exists and is not
      an option. */
  lemma ValueAfterFirst(args: seq<string>, flag: string, i: nat)
    requires i < |args| && args[i] == flag && flag !in args[..i]
    ensures ValueAfter(args, flag).Some? <==> i + 1 < |args| && !StartsWith(args[i + 1], "--")
    ensures ValueAfter(args, flag).Some? ==> ValueAfter(args, flag).value == args[i + 1]
  {
  }
}
