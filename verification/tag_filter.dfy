/** `filter_similar_tags` in `src/main.py`: the tags shown next to an
    image's current tag are narrowed to those that look like it — the same
    `-variant`, else the same `v` prefix, else bare version numbers — and
    the whole list is kept when no narrowing applies. */
module TagFilter {
  import opened Wrappers
  import opened Strs
  import opened Seqs
  import opened Versions

  /** Group 3 of `^v?\d+(\.\d+)*(-(.+))?$` on the current tag: the text
      after the first `-`, when what comes before it is an optional `v` and
      a dotted number and the text is not empty. */
  function CurrentVariant(tag: string): (v: Option<string>)
    ensures v.Some? ==>
              var t := StripV(tag);
              && |v.value| > 0 && |v.value| < |t|
              && IsDotted(t[..|t| - |v.value| - 1])
              && t == t[..|t| - |v.value| - 1] + "-" + v.value
  {
    var t := StripV(tag);
    var i := IndexOf(t, '-');
    if IsDotted(t[..i]) && i + 1 < |t| then
      assert t == t[..i] + "-" + t[i + 1..];
      Some(t[i + 1..])
    else None
  }

  /** The current tag's variant is read back from any tag written as an
      optional `v`, a dotted number, `-` and a non-empty variant. */
  lemma VariantOfTag(prefix: string, d: string, v: string)
    requires prefix == "" || prefix == "v"
    requires IsDotted(d) && |v| > 0
    ensures CurrentVariant(prefix + d + "-" + v) == Some(v)
  {
    var tag := prefix + d + "-" + v;
    DottedChars(d);
    if prefix == "" {
      assert tag == d + "-" + v;
      assert tag[0] == d[0];
      assert StripV(tag) == d + "-" + v;
    } else {
      assert tag[1..] == d + "-" + v;
    }
    var t := StripV(tag);
    assert t == d + ("-" + v);
    IndexOfConcat(d, "-" + v, '-');
    assert t[..|d|] == d;
    assert t[|d| + 1..] == v;
  }

  /** `1.24-alpine` has the variant `alpine`. */
  lemma AlpineVariant()
    ensures CurrentVariant("1.24-alpine") == Some("alpine")
  {
    OneTwentyFourDotted();
    VariantOfTag("", "1.24", "alpine");
    AlpineTagText();
  }

  lemma OneTwentyFourDotted()
    ensures IsDotted("1.24")
  {
    SplitTwo("1", "24");
    assert "1" + "." + "24" == "1.24";
    DottedParts("1.24", ["1", "24"]);
  }

  lemma AlpineTagText()
    ensures "" + "1.24" + "-" + "alpine" == "1.24-alpine"
  {
  }

  /** A tag with no `-` after its number has no variant. */
  lemma NoVariantWithoutDash(tag: string)
    requires '-' !in tag
    ensures CurrentVariant(tag) == None
  {
    var t := StripV(tag);
    assert '-' !in t;
    assert IndexOf(t, '-') == |t|;
  }

  /** `^v?\d+(\.\d+)*$`: a bare version number. */
  predicate IsBareVersion(tag: string) {
    IsDotted(StripV(tag))
  }

  predicate HasVPrefix(tag: string) {
    StartsWith(tag, "v")
  }

  /** `f"-{variant}" in tag` */
  function HasVariant(variant: string): string -> bool {
    tag => Contains(tag, "-" + variant)
  }

  /** The tags with the current tag's variant, when it has one. */
  function SameVariant(tags: seq<string>, currentTag: string): seq<string> {
    match CurrentVariant(currentTag)
    case Some(variant) => Filter(tags, HasVariant(variant))
    case None => []
  }

  /** The `v`-prefixed tags, when the current tag has the prefix. */
  function SamePrefix(tags: seq<string>, currentTag: string): seq<string> {
    if HasVPrefix(currentTag) then Filter(tags, HasVPrefix) else []
  }

  /** `filter_similar_tags(tags, current_tag)`; `None` and `""` are the
      falsy current tags. */
  function FilterSimilarTags(tags: seq<string>, currentTag: Option<string>): (r: seq<string>)
    ensures |r| <= |tags|
  {
    if currentTag.None? || currentTag.value == "" then tags
    else
      var similar := SameVariant(tags, currentTag.value);
      if |similar| > 0 then similar
      else
        var vTags := SamePrefix(tags, currentTag.value);
        if |vTags| > 0 then vTags
        else
          var clean := Filter(tags, IsBareVersion);
          if |clean| > 0 then clean else tags
  }

  /** Whatever branch is taken, the result is the input with some tags
      left out and the rest in their original order. */
  lemma FilterSimilarIsSublist(tags: seq<string>, currentTag: Option<string>)
    ensures IsSublist(FilterSimilarTags(tags, currentTag), tags)
    ensures forall x :: x in FilterSimilarTags(tags, currentTag) ==> x in tags
  {
    SublistRefl(tags);
    FilterIsSublist(tags, IsBareVersion);
    FilterIsSublist(tags, HasVPrefix);
    if currentTag.Some? {
      match CurrentVariant(currentTag.value)
      case Some(variant) => FilterIsSublist(tags, HasVariant(variant));
      case None =>
    }
  }

  /** No current tag: every tag is shown. */
  lemma NoCurrentTag(tags: seq<string>)
    ensures FilterSimilarTags(tags, None) == tags
    ensures FilterSimilarTags(tags, Some("")) == tags
  {
  }

  /** A current tag with a variant that some tag carries: exactly the tags
      carrying it, in order. */
  lemma VariantFirst(tags: seq<string>, currentTag: string, variant: string)
    requires CurrentVariant(currentTag) == Some(variant)
    requires exists i :: 0 <= i < |tags| && Contains(tags[i], "-" + variant)
    ensures FilterSimilarTags(tags, Some(currentTag)) == Filter(tags, HasVariant(variant))
    ensures forall x :: x in FilterSimilarTags(tags, Some(currentTag)) <==>
                          x in tags && Contains(x, "-" + variant)
  {
    var i :| 0 <= i < |tags| && Contains(tags[i], "-" + variant);
    assert HasVariant(variant)(tags[i]);
    FilterNonEmpty(tags, HasVariant(variant));
    FilterIsSublist(tags, HasVariant(variant));
    assert currentTag != "";
  }

  /** When no tag shares a variant (or there is none), a `v`-prefixed
      current tag shows exactly the `v`-prefixed tags, if there are any. */
  lemma PrefixSecond(tags: seq<string>, currentTag: string)
    requires NoTagSharesVariant(tags, currentTag)
    requires HasVPrefix(currentTag)
    requires exists i :: 0 <= i < |tags| && HasVPrefix(tags[i])
    ensures FilterSimilarTags(tags, Some(currentTag)) == Filter(tags, HasVPrefix)
    ensures forall x :: x in FilterSimilarTags(tags, Some(currentTag)) <==> x in tags && HasVPrefix(x)
  {
    assert currentTag != "";
    NoSharedVariant(tags, currentTag);
    AfterVariant(tags, currentTag);
    FilterNonEmpty(tags, HasVPrefix);
    FilterIsSublist(tags, HasVPrefix);
  }

  /** Past an empty variant bucket, the prefix bucket and then the bare
      versions decide. */
  lemma AfterVariant(tags: seq<string>, currentTag: string)
    requires currentTag != "" && SameVariant(tags, currentTag) == []
    ensures FilterSimilarTags(tags, Some(currentTag))
         == if |SamePrefix(tags, currentTag)| > 0 then SamePrefix(tags, currentTag)
            else if |Filter(tags, IsBareVersion)| > 0 then Filter(tags, IsBareVersion)
            else tags
  {
  }

  /** Otherwise the bare version numbers are shown, if there are any. */
  lemma BareThird(tags: seq<string>, currentTag: string)
    requires currentTag != ""
    requires NoTagSharesVariant(tags, currentTag)
    requires HasVPrefix(currentTag) ==> forall i :: 0 <= i < |tags| ==> !HasVPrefix(tags[i])
    requires exists i :: 0 <= i < |tags| && IsBareVersion(tags[i])
    ensures FilterSimilarTags(tags, Some(currentTag)) == Filter(tags, IsBareVersion)
    ensures forall x :: x in FilterSimilarTags(tags, Some(currentTag)) <==> x in tags && IsBareVersion(x)
  {
    NoSharedVariant(tags, currentTag);
    AfterVariant(tags, currentTag);
    FilterNonEmpty(tags, HasVPrefix);
    FilterNonEmpty(tags, IsBareVersion);
    FilterIsSublist(tags, IsBareVersion);
  }

  /** And when nothing narrows the list, it is shown whole. */
  lemma AllTagsLast(tags: seq<string>, currentTag: string)
    requires NoTagSharesVariant(tags, currentTag)
    requires HasVPrefix(currentTag) ==> forall i :: 0 <= i < |tags| ==> !HasVPrefix(tags[i])
    requires forall i :: 0 <= i < |tags| ==> !IsBareVersion(tags[i])
    ensures FilterSimilarTags(tags, Some(currentTag)) == tags
  {
    NoSharedVariant(tags, currentTag);
    FilterNonEmpty(tags, HasVPrefix);
    FilterNonEmpty(tags, IsBareVersion);
  }

  /** The current tag has no variant, or no tag carries it. */
  predicate NoTagSharesVariant(tags: seq<string>, currentTag: string) {
    var variant := CurrentVariant(currentTag);
    variant.Some? ==> forall i :: 0 <= i < |tags| ==> !Contains(tags[i], "-" + variant.value)
  }

  /** No tag sharing the current variant leaves nothing in that bucket. */
  lemma NoSharedVariant(tags: seq<string>, currentTag: string)
    requires NoTagSharesVariant(tags, currentTag)
    ensures SameVariant(tags, currentTag) == []
  {
    match CurrentVariant(currentTag)
    case Some(variant) =>
      FilterNonEmpty(tags, HasVariant(variant));
    case None =>
  }
}
