/** The string steps the context-menu handler applies to the thumbnail's
    `src`: the full-size URL, the last path segment as the file name, the
    first `@` turned into a dot and a trailing `jpeg` shortened to `jpg`. */
module AssetName {
  import opened Wrappers
  import opened Text

  const Thumbnail: string := "/feed_thumbnail/"
  const Fullsize: string := "/feed_fullsize/"

  /** `el.src.replace("/feed_thumbnail/", "/feed_fullsize/")`. */
  function FullSizeUrl(src: string): string {
    ReplaceFirst(src, Thumbnail, Fullsize)
  }

  /** The full-size URL is the source itself exactly when the source holds
      no `/feed_thumbnail/`; otherwise only the first one is replaced, which
      makes the URL one character shorter. */
  lemma FullSizeUrlUnchangedIff(src: string)
    ensures FullSizeUrl(src) == src <==> forall j: nat :: !OccursAt(src, Thumbnail, j)
    ensures (exists j: nat :: OccursAt(src, Thumbnail, j)) ==> |FullSizeUrl(src)| == |src| - 1
  {
    match IndexOf(src, Thumbnail)
    case None =>
    case Some(i) =>
      assert |Thumbnail| == 16 && |Fullsize| == 15;
      assert |FullSizeUrl(src)| == |src| - 1;
  }

  /** The number of characters after the last `/` of `s`. */
  function SlashFreeSuffixLength(s: string): (n: nat)
    ensures n <= |s|
    ensures forall k :: |s| - n <= k < |s| ==> s[k] != '/'
    ensures n == |s| || s[|s| - n - 1] == '/'
  {
    if s == [] || s[|s| - 1] == '/' then 0
    else 1 + SlashFreeSuffixLength(s[..|s| - 1])
  }

  /** `url.match(/[^\/]+$/)?.[0]`: the longest non-empty suffix without a
      slash, absent when the URL is empty or ends with a slash. */
  function LastSegment(url: string): (r: Option<string>)
    ensures r.None? <==> url == [] || url[|url| - 1] == '/'
    ensures r.Some? ==> r.value != [] && '/' !in r.value && EndsWith(url, r.value)
    ensures r.Some? ==> |r.value| == |url| || url[|url| - |r.value| - 1] == '/'
  {
    var n := SlashFreeSuffixLength(url);
    SlashFreeSuffix(url, n);
    if n == 0 then None else Some(url[|url| - n..])
  }

  lemma SlashFreeSuffix(url: string, n: nat)
    requires n == SlashFreeSuffixLength(url)
    ensures n == 0 <==> url == [] || url[|url| - 1] == '/'
    ensures '/' !in url[|url| - n..] && EndsWith(url, url[|url| - n..])
  {
    var tail := url[|url| - n..];
    forall k | 0 <= k < |tail| ensures tail[k] != '/' {
      assert tail[k] == url[|url| - n + k];
    }
  }

  /** `filename.replace("@", ".")`: only the first `@` becomes a dot. */
  function AtToDot(name: string): string {
    ReplaceFirst(name, "@", ".")
  }

  /** A one-character pattern occurs exactly where that character is. */
  lemma OccursChar(s: string, c: char, j: nat)
    ensures OccursAt(s, [c], j) <==> j < |s| && s[j] == c
  {
    if j < |s| {
      assert s[j..j + 1] == [s[j]];
    }
  }

  /** The first `@` becomes a dot; everything around it, later `@`s
      included, stays. */
  lemma AtToDotAtFirst(name: string, i: nat)
    requires i < |name| && name[i] == '@' && '@' !in name[..i]
    ensures AtToDot(name) == name[..i] + "." + name[i + 1..]
  {
    OccursChar(name, '@', i);
    forall j: nat | j < i ensures !OccursAt(name, "@", j) {
      OccursChar(name, '@', j);
      assert name[j] == name[..i][j];
    }
  }

  /** A name whose first `@` follows `u` has it turned into a dot. */
  lemma AtToDotAfter(u: string, v: string)
    requires '@' !in u
    ensures AtToDot(u + "@" + v) == u + "." + v
  {
    var name := u + "@" + v;
    assert name[..|u|] == u && name[|u|] == '@' && name[|u| + 1..] == v;
    AtToDotAtFirst(name, |u|);
  }

  /** A name without `@` is unchanged. */
  lemma AtToDotNoAt(name: string)
    requires '@' !in name
    ensures AtToDot(name) == name
  {
    forall j: nat ensures !OccursAt(name, "@", j) {
      OccursChar(name, '@', j);
    }
  }

  /** Exactly one `@` disappears when there is one, so the ones after the
      first survive; the length never changes. */
  lemma AtToDotCount(name: string)
    ensures |AtToDot(name)| == |name|
    ensures multiset(AtToDot(name))['@'] == if '@' in name then multiset(name)['@'] - 1 else 0
  {
    if '@' in name {
      AtToDotCountAt(name, FirstAt(name));
    } else {
      AtToDotNoAt(name);
      NoAtCount(name);
    }
  }

  lemma AtToDotCountAt(name: string, i: nat)
    requires i < |name| && name[i] == '@' && '@' !in name[..i]
    ensures |AtToDot(name)| == |name|
    ensures multiset(AtToDot(name))['@'] == multiset(name)['@'] - 1
  {
    AtToDotAtFirst(name, i);
    SplitAround(name, i);
    AtReplaced(name, AtToDot(name), name[..i], name[i + 1..]);
  }

  lemma SplitAround(s: string, i: nat)
    requires i < |s|
    ensures s == s[..i] + [s[i]] + s[i + 1..]
  {
  }

  lemma NoAtCount(name: string)
    requires '@' !in name
    ensures multiset(name)['@'] == 0
  {
    assert '@' !in multiset(name);
  }

  /** Writing a dot in place of an `@` removes one `@` and keeps the length. */
  lemma AtReplaced(name: string, r: string, u: string, v: string)
    requires name == u + "@" + v && r == u + "." + v
    ensures |r| == |name|
    ensures multiset(r)['@'] == multiset(name)['@'] - 1
  {
    assert multiset(r) == multiset(u) + multiset{'.'} + multiset(v);
    assert multiset(name) == multiset(u) + multiset{'@'} + multiset(v);
  }

  /** The index of the first `@` of a name that has one. */
  function FirstAt(name: string): (i: nat)
    requires '@' in name
    ensures i < |name| && name[i] == '@' && '@' !in name[..i]
  {
    if name[0] == '@' then 0
    else
      var i := FirstAt(name[1..]);
      assert name[..i + 1] == [name[0]] + name[1..][..i];
      i + 1
  }

  /** `if (filename.endsWith("jpeg")) filename = filename.replace(/jpeg$/, "jpg")`. */
  function FixJpeg(name: string): (r: string)
    ensures !EndsWith(r, "jpeg")
  {
    if EndsWith(name, "jpeg") then
      var r := name[..|name| - 4] + "jpg";
      assert r[|r| - 2] == 'p';
      r
    else name
  }

  /** A name ending in `jpeg` loses exactly the `e` of that ending, the rest
      of it kept; any other name is unchanged; applying the rewrite twice is
      the same as once. */
  lemma FixJpegEffect(name: string)
    ensures EndsWith(name, "jpeg") ==> FixJpeg(name) == name[..|name| - 4] + "jpg"
    ensures EndsWith(name, "jpeg") ==> |FixJpeg(name)| == |name| - 1
    ensures !EndsWith(name, "jpeg") ==> FixJpeg(name) == name
    ensures FixJpeg(FixJpeg(name)) == FixJpeg(name)
  {
  }

  /** The file name the handler derives from `src` (lines 46-54), or `None`
      where it returns early. */
  function AssetFilename(src: string): (r: Option<string>)
    ensures r.None? <==> LastSegment(FullSizeUrl(src)).None?
    ensures r.Some? ==> r.value != [] && !EndsWith(r.value, "jpeg")
  {
    match LastSegment(FullSizeUrl(src))
    case None => None
    case Some(segment) =>
      AtToDotCount(segment);
      Some(FixJpeg(AtToDot(segment)))
  }
}
