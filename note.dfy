/**
 * The export record and how the ribbon action builds it from the active file:
 * its name, its content with the tag header stripped, and its tags with the
 * first `#` of each removed.
 */
module Notes {
  import opened Wrappers
  import opened Header

  /**
   * The `group` field has three states in the source: `null` when the record
   * is built, `undefined` when Submit is pressed before the text field was
   * ever edited, and the edited string otherwise.
   */
  datatype GroupField = Null | Undefined | Label(value: string)

  /** The `Note` interface: what `uploadNote` sends. */
  datatype Note = Note(name: Option<string>, tags: seq<string>, content: Option<string>, group: GroupField)

  /** One tag descriptor of the metadata cache (its `tag` string, e.g. "#work"). */
  datatype TagCache = TagCache(tag: string)

  /** The metadata cache entry of a file; `tags` is absent when the file has none. */
  datatype CachedMetadata = CachedMetadata(tags: Option<seq<TagCache>>)

  /**
   * What the host tells the ribbon action about the active file: its name,
   * the text `cachedRead` returns and the entry `getFileCache` returns.
   */
  datatype ActiveFile = ActiveFile(name: string, text: string, cache: Option<CachedMetadata>)

  /**
   * `s.replace(c, "")` with a one-character string pattern: only the first
   * occurrence of `c` is removed.
   */
  function ReplaceFirst(s: string, c: char): (r: string)
    ensures c !in s ==> r == s
    ensures c in s ==> |r| == |s| - 1
  {
    if s == [] then []
    else if s[0] == c then s[1..]
    else [s[0]] + ReplaceFirst(s[1..], c)
  }

  /** When the first `c` of `s` is at `k`, the result is `s` with position `k` cut out. */
  lemma {:induction false} ReplaceFirstAt(s: string, c: char, k: nat)
    requires k < |s| && s[k] == c
    requires forall m :: 0 <= m < k ==> s[m] != c
    ensures ReplaceFirst(s, c) == s[..k] + s[k + 1..]
  {
    if k > 0 {
      ReplaceFirstAt(s[1..], c, k - 1);
      assert s[..k] == [s[0]] + s[1..][..k - 1];
      assert s[k + 1..] == s[1..][k..];
    }
  }

  /** `ReplaceFirst` removes exactly one `c` when there is one, and nothing else. */
  lemma {:induction false} ReplaceFirstRemovesOne(s: string, c: char)
    ensures c in s ==> multiset(ReplaceFirst(s, c)) == multiset(s) - multiset{c}
  {
    if s != [] && s[0] != c {
      ReplaceFirstRemovesOne(s[1..], c);
      assert s == [s[0]] + s[1..];
      assert c in s ==> c in s[1..];
    } else if s != [] {
      assert s == [s[0]] + s[1..];
    }
  }

  /** `tags.map((tag) => tag.tag.replace("#", ""))`. */
  function NormaliseTags(tags: seq<TagCache>): (r: seq<string>)
    ensures |r| == |tags|
    ensures forall k :: 0 <= k < |tags| ==> r[k] == ReplaceFirst(tags[k].tag, '#')
  {
    if tags == [] then [] else [ReplaceFirst(tags[0].tag, '#')] + NormaliseTags(tags[1..])
  }

  /** A tag without `#` is exported unchanged; otherwise it loses one `#`. */
  lemma {:induction false} NormalisedTagShape(tags: seq<TagCache>, k: nat)
    requires k < |tags|
    ensures '#' !in tags[k].tag ==> NormaliseTags(tags)[k] == tags[k].tag
    ensures '#' in tags[k].tag ==> multiset(NormaliseTags(tags)[k]) == multiset(tags[k].tag) - multiset{'#'}
  {
    ReplaceFirstRemovesOne(tags[k].tag, '#');
  }

  lemma {:induction false} ExampleTags()
    ensures NormaliseTags([TagCache("#work"), TagCache("#draft")]) == ["work", "draft"]
  {
    var r := NormaliseTags([TagCache("#work"), TagCache("#draft")]);
    assert "#work"[0] == '#' && "#work"[1..] == "work";
    assert "#draft"[0] == '#' && "#draft"[1..] == "draft";
  }

  /** The tag descriptors of the active file, when the metadata has any. */
  function TagDescriptors(active: Option<ActiveFile>): Option<seq<TagCache>>
  {
    if active.Some? && active.value.cache.Some? then active.value.cache.value.tags else None
  }

  /** The record the ribbon action builds before the dialog opens. */
  function AssembleNote(active: Option<ActiveFile>): (n: Note)
    ensures n.group == Null
    ensures active.None? ==> n == Note(None, [], None, Null)
    ensures active.Some? ==> n.name == Some(active.value.name)
    ensures active.Some? ==> n.content == Some(ExtractContentAfterTags(active.value.text))
    ensures TagDescriptors(active).None? ==> n.tags == []
    ensures TagDescriptors(active).Some? ==>
      var ds := TagDescriptors(active).value;
      && |n.tags| == |ds|
      && forall k :: 0 <= k < |ds| ==> n.tags[k] == ReplaceFirst(ds[k].tag, '#')
  {
    match active
    case None => Note(None, [], None, Null)
    case Some(file) =>
      var tags := match TagDescriptors(active)
        case None => []
        case Some(ds) => NormaliseTags(ds);
      Note(Some(file.name), tags, Some(ExtractContentAfterTags(file.text)), Null)
  }

  lemma {:induction false} ExampleNoActiveFile()
    ensures AssembleNote(None) == Note(None, [], None, Null)
  {
  }
}
