/** `docker/dockerfile_parser.py`: the base images of a Dockerfile, one per
    `FROM` line, read with the pattern
    `^\s*FROM\s+(--platform=[^\s]+\s+)?([^\s]+)(\s+AS\s+[^\s]+)?`
    under `re.IGNORECASE`. The file is given as its content, or `None` when
    it is missing or cannot be read. */
module DockerfileParser {
  import opened Wrappers
  import opened Strs
  import opened Seqs

  /** One `FROM` instruction: the image and, for a named build stage, the
      stripped `AS name` text. */
  datatype BaseImage = BaseImage(image: string, stage: Option<string>)

  // ---------------------------------------------------------------------
  // Reading one line
  // ---------------------------------------------------------------------

  /** How `re.IGNORECASE` compares a character with a lower-case ASCII
      letter of the pattern: by its lower case, and the long s `ſ` counts
      as `s`. */
  function FoldChar(c: char): char {
    if c == 'ſ' then 's' else LowerChar(c)
  }

  /** `s` spells the lower-case ASCII `word` with any capitalisation. */
  predicate SameIgnoringCase(s: string, word: string) {
    |s| == |word| && forall k :: 0 <= k < |s| ==> FoldChar(s[k]) == word[k]
  }

  /** Length of the longest prefix of `s` without whitespace. */
  function NonSpaceSpan(s: string): (n: nat)
    ensures n <= |s|
    ensures forall k :: 0 <= k < n ==> !IsSpace(s[k])
    ensures n < |s| ==> IsSpace(s[n])
  {
    if |s| == 0 || IsSpace(s[0]) then 0 else 1 + NonSpaceSpan(s[1..])
  }

  /** `[^\s]+` taken greedily: the word `s` starts with (empty when `s`
      starts with whitespace or is empty). */
  function Word(s: string): (w: string)
    ensures |w| <= |s| && w == s[..|w|]
    ensures forall k :: 0 <= k < |w| ==> !IsSpace(w[k])
    ensures |w| < |s| ==> IsSpace(s[|w|])
  {
    s[..NonSpaceSpan(s)]
  }

  /** `--platform=[^\s]+` */
  predicate IsPlatformFlag(word: string) {
    |word| > 11 && SameIgnoringCase(word[..11], "--platform=")
  }

  /** Group 3 stripped, read from the text after the image: `AS` as a
      word of its own, whitespace, and a further word. */
  function Stage(after: string): Option<string> {
    var a := TrimLeft(after);
    if !SameIgnoringCase(Word(a), "as") then None
    else
      var b := TrimLeft(a[2..]);
      var name := Word(b);
      if name == "" then None
      else
        assert |b| <= |a[2..]|;
        Some(a[..|a| - |b| + |name|])
  }

  /** `^\s*FROM` followed by whitespace: the text after the keyword. */
  function AfterKeyword(line: string): Option<string> {
    var l := TrimLeft(line);
    if |l| > 4 && SameIgnoringCase(l[..4], "from") && IsSpace(l[4]) then Some(l[4..]) else None
  }

  /** `\s+(--platform=[^\s]+\s+)?([^\s]+)(\s+AS\s+[^\s]+)?` on the
      text after the keyword: the platform flag is skipped only when
      another word follows it. */
  function Operands(text: string): Option<BaseImage> {
    var rest := TrimLeft(text);
    var first := Word(rest);
    if first == "" then None
    else
      var after := rest[|first|..];
      var next := TrimLeft(after);
      var second := Word(next);
      if IsPlatformFlag(first) && second != "" then
        Some(BaseImage(second, Stage(next[|second|..])))
      else
        Some(BaseImage(first, Stage(after)))
  }

  /** The match of the `FROM` pattern at the start of one line. */
  function ParseFromLine(line: string): Option<BaseImage> {
    match AfterKeyword(line)
    case Some(text) => Operands(text)
    case None => None
  }

  /** A word with no whitespace and at least one character. */
  predicate IsWord(s: string) {
    |s| > 0 && forall k :: 0 <= k < |s| ==> !IsSpace(s[k])
  }

  /** The image read from a `FROM` line is a word. */
  lemma ImageIsWord(line: string)
    requires ParseFromLine(line).Some?
    ensures IsWord(ParseFromLine(line).value.image)
  {
  }

  // ---------------------------------------------------------------------
  // Lines written in the usual forms read back as written
  // ---------------------------------------------------------------------

  lemma {:induction false} SpanOfWord(w: string, rest: string)
    requires forall k :: 0 <= k < |w| ==> !IsSpace(w[k])
    requires rest == "" || IsSpace(rest[0])
    ensures NonSpaceSpan(w + rest) == |w|
  {
    if |w| > 0 {
      assert (w + rest)[1..] == w[1..] + rest;
      SpanOfWord(w[1..], rest);
    } else {
      assert w + rest == rest;
    }
  }

  lemma WordOfWord(w: string, rest: string)
    requires IsWord(w) && (rest == "" || IsSpace(rest[0]))
    ensures Word(w + rest) == w
  {
    SpanOfWord(w, rest);
    assert (w + rest)[..|w|] == w;
  }

  lemma {:induction false} TrimLeftAfterIndent(indent: string, s: string)
    requires forall k :: 0 <= k < |indent| ==> IsSpace(indent[k])
    requires |s| > 0 && !IsSpace(s[0])
    ensures TrimLeft(indent + s) == s
  {
    if |indent| > 0 {
      assert (indent + s)[1..] == indent[1..] + s;
      TrimLeftAfterIndent(indent[1..], s);
    } else {
      assert indent + s == s;
    }
  }

  lemma TrimLeftSpaceWord(w: string)
    requires |w| > 0 && !IsSpace(w[0])
    ensures TrimLeft(" " + w) == w
  {
    assert (" " + w)[1..] == w;
  }

  /** Any indentation, the keyword in any capitalisation, and whitespace:
      the rest of the line is what follows the keyword. */
  lemma KeywordRead(indent: string, keyword: string, text: string)
    requires forall k :: 0 <= k < |indent| ==> IsSpace(indent[k])
    requires SameIgnoringCase(keyword, "from")
    requires |text| > 0 && IsSpace(text[0])
    ensures AfterKeyword(indent + keyword + text) == Some(text)
  {
    assert FoldChar(keyword[0]) == 'f';
    TrimLeftAfterIndent(indent, keyword + text);
    assert indent + keyword + text == indent + (keyword + text);
    assert (keyword + text)[..4] == keyword;
  }

  lemma AsIsAs()
    ensures SameIgnoringCase("AS", "as")
  {
    assert FoldChar('A') == 'a' && FoldChar('S') == 's';
  }

  /** Stage text starting with its `AS` word: the word, the whitespace and
      the name. */
  lemma StageFrom(a: string, name: string)
    requires a == "AS " + name && IsWord(name)
    ensures Stage(" " + a) == Some(a)
  {
    TrimLeftSpaceWord(a);
    assert a == "AS" + (" " + name);
    WordOfWord("AS", " " + name);
    AsIsAs();
    assert a[2..] == " " + name;
    TrimLeftSpaceWord(name);
    WordOfWord(name, "");
    EmptyAround(name);
    assert a[..|a| - |name| + |name|] == a;
  }

  /** The stage part ` AS name` is read as `AS name`. */
  lemma StageOfAs(name: string)
    requires IsWord(name)
    ensures Stage(" AS " + name) == Some("AS " + name)
  {
    assert " AS " + name == " " + ("AS " + name);
    StageFrom("AS " + name, name);
  }

  /** Nothing after the image: no stage. */
  lemma StageOfNothing()
    ensures Stage("") == None
  {
    assert Word("") == "";
  }

  /** ` image` gives that image with no stage. */
  lemma PlainOperands(image: string)
    requires IsWord(image)
    ensures Operands(" " + image) == Some(BaseImage(image, None))
  {
    TrimLeftSpaceWord(image);
    WordOfWord(image, "");
    EmptyAround(image);
    assert image[|image|..] == "";
    StageOfNothing();
  }

  /** ` image AS name` gives that image and the stage `AS name`, unless the
      image itself looks like a platform flag. */
  lemma StagedOperands(image: string, name: string)
    requires IsWord(image) && IsWord(name) && !IsPlatformFlag(image)
    ensures Operands(" " + image + " AS " + name) == Some(BaseImage(image, Some("AS " + name)))
  {
    var tail := " AS " + name;
    assert " " + image + " AS " + name == " " + (image + tail);
    TrimLeftSpaceWord(image + tail);
    WordOfWord(image, tail);
    assert (image + tail)[|image|..] == tail;
    StageOfAs(name);
  }

  lemma PlatformFlagOf(platform: string)
    requires IsWord(platform)
    ensures IsWord("--platform=" + platform) && IsPlatformFlag("--platform=" + platform)
  {
    var flag := "--platform=" + platform;
    assert flag[..11] == "--platform=";
    forall k | 0 <= k < 11 ensures FoldChar(flag[k]) == "--platform="[k] {
      assert flag[k] == "--platform="[k];
    }
  }

  /** A platform flag followed by ` image`: the flag is skipped. */
  lemma FlagOperands(flag: string, image: string)
    requires IsWord(flag) && IsPlatformFlag(flag) && IsWord(image)
    ensures Operands(" " + (flag + (" " + image))) == Some(BaseImage(image, None))
  {
    TrimLeftSpaceWord(flag + (" " + image));
    WordOfWord(flag, " " + image);
    assert (flag + (" " + image))[|flag|..] == " " + image;
    TrimLeftSpaceWord(image);
    WordOfWord(image, "");
    EmptyAround(image);
    assert image[|image|..] == "";
    StageOfNothing();
  }

  /** ` --platform=p image` gives that image: the flag is skipped. */
  lemma PlatformOperands(platform: string, image: string)
    requires IsWord(platform) && IsWord(image)
    ensures Operands(" --platform=" + platform + " " + image) == Some(BaseImage(image, None))
  {
    var flag := "--platform=" + platform;
    PlatformOperandsText(platform, image);
    PlatformFlagOf(platform);
    FlagOperands(flag, image);
  }

  /** `FROM image` reads back as that image with no stage. */
  lemma PlainFromLine(image: string)
    requires IsWord(image)
    ensures ParseFromLine("FROM " + image) == Some(BaseImage(image, None))
  {
    KeywordRead("", "FROM", " " + image);
    FromLineText(" " + image, "FROM " + image);
    PlainOperands(image);
  }

  /** `FROM image AS name` reads back as that image and the stage text
      `AS name`. */
  lemma StagedFromLine(image: string, name: string)
    requires IsWord(image) && IsWord(name) && !IsPlatformFlag(image)
    ensures ParseFromLine("FROM " + image + " AS " + name) == Some(BaseImage(image, Some("AS " + name)))
  {
    var text := " " + image + " AS " + name;
    KeywordRead("", "FROM", text);
    FromLineText(text, "FROM " + image + " AS " + name);
    StagedOperands(image, name);
  }

  /** `FROM --platform=p image` reads back as that image. */
  lemma PlatformFromLine(platform: string, image: string)
    requires IsWord(platform) && IsWord(image)
    ensures ParseFromLine("FROM --platform=" + platform + " " + image) == Some(BaseImage(image, None))
  {
    var text := " --platform=" + platform + " " + image;
    KeywordRead("", "FROM", text);
    PlatformLineText(platform, image);
    PlatformOperands(platform, image);
  }

  /** `FROM` followed by the rest of a line, as written. */
  lemma FromLineText(text: string, line: string)
    requires |text| > 0 && line == "FROM" + text
    ensures "" + "FROM" + text == line
  {
  }

  lemma PlatformLineText(platform: string, image: string)
    ensures "" + "FROM" + (" --platform=" + platform + " " + image) == "FROM --platform=" + platform + " " + image
  {
    assert "FROM" + " --platform=" == "FROM --platform=";
  }

  lemma PlatformOperandsText(platform: string, image: string)
    ensures " --platform=" + platform + " " + image == " " + (("--platform=" + platform) + (" " + image))
  {
  }

  /** A line whose first non-blank character is `#` is a comment, not a
      `FROM` instruction. */
  lemma CommentIsNotFrom(indent: string, text: string)
    requires forall k :: 0 <= k < |indent| ==> IsSpace(indent[k])
    ensures ParseFromLine(indent + "#" + text) == None
  {
    var l := "#" + text;
    assert indent + "#" + text == indent + l;
    TrimLeftAfterIndent(indent, l);
    if |l| > 4 {
      assert FoldChar(l[..4][0]) == '#';
    }
  }

  // ---------------------------------------------------------------------
  // The whole file
  // ---------------------------------------------------------------------

  /** The entries of the `FROM` lines among `lines`, in file order. */
  function FromImages(lines: seq<string>): seq<BaseImage> {
    Collect(lines, ParseFromLine)
  }

  /** A `FROM` line gives an entry, placed after those of the lines above
      it. */
  lemma FromLineGivesEntry(lines: seq<string>, j: nat)
    requires j < |lines| && ParseFromLine(lines[j]).Some?
    ensures var n := |FromImages(lines[..j])|;
            n < |FromImages(lines)| && FromImages(lines)[n] == ParseFromLine(lines[j]).value
  {
    CollectEntry(lines, ParseFromLine, j);
  }

  /** Every entry comes from a `FROM` line. */
  lemma EntryFromSomeLine(lines: seq<string>, k: nat)
    requires k < |FromImages(lines)|
    ensures exists j :: 0 <= j < |lines| && ParseFromLine(lines[j]) == Some(FromImages(lines)[k])
  {
    CollectSource(lines, ParseFromLine, k);
  }

  /** Content with no `FROM` line gives no entries, and only such content
      does. */
  lemma NoFromNoImages(lines: seq<string>)
    ensures FromImages(lines) == [] <==> forall j :: 0 <= j < |lines| ==> ParseFromLine(lines[j]).None?
  {
    CollectEmpty(lines, ParseFromLine);
  }

  /** The entries for a Dockerfile's content, or none when the file is
      missing or unreadable. */
  function BaseImages(file: Option<string>): seq<BaseImage> {
    match file
    case None => []
    case Some(content) => FromImages(SplitOn(content, '\n'))
  }

  /** `extract_base_images`: the lines of the content are read in order and
      each `FROM` line appends its entry. */
  method ExtractBaseImages(file: Option<string>) returns (images: seq<BaseImage>)
    ensures images == BaseImages(file)
  {
    images := [];
    if file.None? {
      return;
    }
    var lines := SplitOn(file.value, '\n');
    var i := 0;
    while i < |lines|
      invariant 0 <= i <= |lines|
      invariant images + FromImages(lines[i..]) == FromImages(lines)
    {
      var m := ParseFromLine(lines[i]);
      CollectHead(lines[i..], ParseFromLine);
      assert lines[i..][0] == lines[i] && lines[i..][1..] == lines[i + 1..];
      var entry := if m.Some? then [m.value] else [];
      assert FromImages(lines[i..]) == entry + FromImages(lines[i + 1..]);
      AppendAssoc(images, entry, FromImages(lines[i + 1..]));
      if m.Some? {
        images := images + [m.value];
      }
      i := i + 1;
    }
    assert lines[i..] == [];
  }
}
