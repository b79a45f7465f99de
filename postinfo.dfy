/** `parseInfo`, which takes the profile handle and the post id out of the
    post link's `href`, and the template that assembles the saved file's
    name from them, the post date and the asset name. */
module PostInfo {
  import opened Wrappers
  import opened Text

  /** The `groups` of a successful match. */
  datatype Info = Info(profile: string, post: string)

  const ProfileTag: string := "/profile/"
  const PostTag: string := "/post/"

  /** The length of the run of non-slash characters of `s` starting at `i`:
      what the greedy `[^\/]+` consumes there. */
  function SlashFreeRun(s: string, i: nat): (n: nat)
    requires i <= |s|
    ensures i + n <= |s|
    ensures forall k :: i <= k < i + n ==> s[k] != '/'
    ensures i + n == |s| || s[i + n] == '/'
    decreases |s| - i
  {
    if i == |s| || s[i] == '/' then 0 else 1 + SlashFreeRun(s, i + 1)
  }

  /** The outcome of matching
      `/\/profile\/(?<profile>[^\/]+)\/post\/(?<post>[^\/]+)/` starting
      exactly at index `i`. Giving back characters of the greedy profile
      group cannot help: `/post/` would then have to start on a non-slash
      character. */
  function MatchAt(s: string, i: nat): Option<Info> {
    if !OccursAt(s, ProfileTag, i) then None
    else
      var a := i + |ProfileTag|;
      var n := SlashFreeRun(s, a);
      if n == 0 || !OccursAt(s, PostTag, a + n) then None
      else
        var b := a + n + |PostTag|;
        var m := SlashFreeRun(s, b);
        if m == 0 then None else Some(Info(s[a..a + n], s[b..b + m]))
  }

  /** The independent description of a match at `i`: `/profile/`, `p`,
      `/post/` and `q` stand there one after the other, `p` and `q` are
      non-empty and slash-free, and `q` runs up to a slash or the end of the
      text. */
  predicate MatchesAt(s: string, i: nat, p: string, q: string) {
    var a := i + |ProfileTag|;
    var b := a + |p| + |PostTag|;
    p != [] && q != [] && '/' !in p && '/' !in q
    && OccursAt(s, ProfileTag, i) && OccursAt(s, p, a)
    && OccursAt(s, PostTag, a + |p|) && OccursAt(s, q, b)
    && (b + |q| == |s| || s[b + |q|] == '/')
  }

  lemma SlashFreeRunExact(s: string, i: nat, p: string)
    requires OccursAt(s, p, i) && '/' !in p
    requires i + |p| == |s| || s[i + |p|] == '/'
    ensures SlashFreeRun(s, i) == |p|
    decreases |p|
  {
    if p != [] {
      assert s[i] == p[0];
      assert '/' !in p[1..] by { assert forall c :: c in p[1..] ==> c in p; }
      assert s[i + 1..i + |p|] == p[1..];
      SlashFreeRunExact(s, i + 1, p[1..]);
    }
  }

  lemma SlashFreeSlice(s: string, a: nat, n: nat)
    requires a + n <= |s| && forall k :: a <= k < a + n ==> s[k] != '/'
    ensures '/' !in s[a..a + n]
  {
    var t := s[a..a + n];
    forall k | 0 <= k < |t| ensures t[k] != '/' {
      assert t[k] == s[a + k];
    }
  }

  /** `MatchAt` agrees with the description: it finds the groups `p` and
      `q` at `i` exactly when the text there has that shape. */
  lemma MatchAtIff(s: string, i: nat, p: string, q: string)
    ensures MatchAt(s, i) == Some(Info(p, q)) <==> MatchesAt(s, i, p, q)
  {
    if MatchAt(s, i) == Some(Info(p, q)) {
      MatchAtSound(s, i, p, q);
    }
    if MatchesAt(s, i, p, q) {
      MatchAtComplete(s, i, p, q);
    }
  }

  lemma MatchAtSound(s: string, i: nat, p: string, q: string)
    requires MatchAt(s, i) == Some(Info(p, q))
    ensures MatchesAt(s, i, p, q)
  {
    var a := i + |ProfileTag|;
    var n := SlashFreeRun(s, a);
    var b := a + n + |PostTag|;
    var m := SlashFreeRun(s, b);
    assert OccursAt(s, ProfileTag, i) && OccursAt(s, PostTag, a + n);
    assert p == s[a..a + n] && q == s[b..b + m];
    SlashFreeSlice(s, a, n);
    SlashFreeSlice(s, b, m);
  }

  lemma MatchAtComplete(s: string, i: nat, p: string, q: string)
    requires MatchesAt(s, i, p, q)
    ensures MatchAt(s, i) == Some(Info(p, q))
  {
    var a := i + |ProfileTag|;
    var b := a + |p| + |PostTag|;
    SlashFreeRunExact(s, a, p);
    SlashFreeRunExact(s, b, q);
  }

  /** The leftmost match at or after `from`. */
  function FirstMatch(s: string, from: nat): (r: Option<Info>)
    ensures forall j: nat :: from <= j < |s| && (r.None? || j < MatchStart(s, from)) ==> MatchAt(s, j).None?
    decreases |s| - from
  {
    if from >= |s| then None
    else if MatchAt(s, from).Some? then MatchAt(s, from)
    else FirstMatch(s, from + 1)
  }

  /** Where `FirstMatch` found its match. */
  function MatchStart(s: string, from: nat): nat
    decreases |s| - from
  {
    if from >= |s| || MatchAt(s, from).Some? then from else MatchStart(s, from + 1)
  }

  lemma {:induction false} FirstMatchAt(s: string, from: nat)
    requires FirstMatch(s, from).Some?
    ensures from <= MatchStart(s, from) && FirstMatch(s, from) == MatchAt(s, MatchStart(s, from))
    decreases |s| - from
  {
    if MatchAt(s, from).None? {
      FirstMatchAt(s, from + 1);
    }
  }

  /** `hrefAttr.match(...)?.groups`, or `None` where the script falls back
      to `{}`. */
  function ParseInfo(href: string): Option<Info> {
    FirstMatch(href, 0)
  }

  /** `parseInfo` returns the groups of the leftmost place where the link
      has the shape `/profile/<p>/post/<q>`, and nothing when no place has
      it. */
  lemma ParseInfoLeftmost(href: string)
    ensures ParseInfo(href).Some? ==>
              var i := MatchStart(href, 0);
              MatchesAt(href, i, ParseInfo(href).value.profile, ParseInfo(href).value.post)
              && forall j: nat, p, q :: j < i ==> !MatchesAt(href, j, p, q)
    ensures ParseInfo(href).None? ==> forall j: nat, p, q :: !MatchesAt(href, j, p, q)
  {
    if ParseInfo(href).Some? {
      FirstMatchAt(href, 0);
      var i := MatchStart(href, 0);
      var info := ParseInfo(href).value;
      MatchAtIff(href, i, info.profile, info.post);
      forall j: nat, p, q | j < i ensures !MatchesAt(href, j, p, q) {
        MatchAtIff(href, j, p, q);
      }
    } else {
      forall j: nat, p, q ensures !MatchesAt(href, j, p, q) {
        MatchAtIff(href, j, p, q);
        if j >= |href| {
          assert !OccursAt(href, ProfileTag, j);
        }
      }
    }
  }

  /** A link to a post's own page yields its handle and post id. */
  lemma ParseInfoPostLink(p: string, q: string)
    requires p != [] && q != [] && '/' !in p && '/' !in q
    ensures ParseInfo(ProfileTag + p + PostTag + q) == Some(Info(p, q))
  {
    var s := ProfileTag + p + PostTag + q;
    assert s[0..|s|] == s;
    assert MatchesAt(s, 0, p, q);
    MatchAtIff(s, 0, p, q);
  }

  /** A destructured group as the template prints it: `undefined` when
      `parseInfo` fell back to `{}`. */
  function Render(v: Option<string>): string {
    v.GetOr("undefined")
  }

  function Profile(info: Option<Info>): Option<string> {
    if info.Some? then Some(info.value.profile) else None
  }

  function Post(info: Option<Info>): Option<string> {
    if info.Some? then Some(info.value.post) else None
  }

  /** The em dash that separates the fields of the saved name. */
  const Dash: char := '\U{2014}'

  /** `[bsky] ${profile}${dateStr}—${post}—${filename}`. */
  function FilenameResult(info: Option<Info>, dateStr: string, filename: string): string {
    "[bsky] " + Render(Profile(info)) + dateStr + [Dash] + Render(Post(info)) + [Dash] + filename
  }

  /** The parts of a saved name, in the order the template writes them:
      `[bsky] ` with the handle, the day when there is one, the post id and
      the asset name. */
  function NameFields(info: Option<Info>, day: Option<string>, filename: string): seq<string> {
    ["[bsky] " + Render(Profile(info))]
    + (if day.Some? then [day.value] else [])
    + [Render(Post(info)), filename]
  }

  predicate DashFree(s: string) {
    Dash !in s
  }

  lemma Join3(a: string, b: string, c: string)
    ensures Join([a, b, c], Dash) == a + [Dash] + b + [Dash] + c
  {
    assert [a, b, c][1..] == [b, c];
    assert [b, c][1..] == [c];
    assert Join([c], Dash) == c;
    assert Join([b, c], Dash) == b + [Dash] + c;
  }

  lemma Join4(a: string, b: string, c: string, d: string)
    ensures Join([a, b, c, d], Dash) == a + [Dash] + b + [Dash] + c + [Dash] + d
  {
    assert [a, b, c, d][1..] == [b, c, d];
    Join3(b, c, d);
  }

  /** When the handle, the day, the post id and the asset name hold no em
      dash, the saved name splits at its em dashes back into exactly those
      fields: the name can be read back. */
  lemma FilenameFields(info: Option<Info>, day: Option<string>, filename: string)
    requires info.Some? ==> DashFree(info.value.profile) && DashFree(info.value.post)
    requires day.Some? ==> DashFree(day.value)
    requires DashFree(filename)
    ensures var dateStr := if day.Some? then [Dash] + day.value else "";
            Split(FilenameResult(info, dateStr, filename), Dash) == NameFields(info, day, filename)
  {
    HeadDashFree(info);
    assert DashFree(Render(Post(info))) by { assert Dash !in "undefined"; }
    SplitFields("[bsky] " + Render(Profile(info)), day, Render(Post(info)), filename);
  }

  /** The em-dash split of `head[—day]—post—file` for dash-free parts. */
  lemma SplitFields(head: string, day: Option<string>, post: string, file: string)
    requires DashFree(head) && DashFree(post) && DashFree(file)
    requires day.Some? ==> DashFree(day.value)
    ensures var dateStr := if day.Some? then [Dash] + day.value else "";
            Split(head + dateStr + [Dash] + post + [Dash] + file, Dash)
            == [head] + (if day.Some? then [day.value] else []) + [post, file]
  {
    if day.Some? {
      SplitFour(head, day.value, post, file);
      assert [head] + [day.value] + [post, file] == [head, day.value, post, file];
    } else {
      SplitThree(head, post, file);
      assert head + "" == head;
      assert [head] + [] + [post, file] == [head, post, file];
    }
  }

  lemma SplitThree(a: string, b: string, c: string)
    requires DashFree(a) && DashFree(b) && DashFree(c)
    ensures Split(a + [Dash] + b + [Dash] + c, Dash) == [a, b, c]
  {
    var fields := [a, b, c];
    Join3(a, b, c);
    assert forall k :: 0 <= k < |fields| ==> Dash !in fields[k];
    SplitJoin(fields, Dash);
  }

  lemma SplitFour(a: string, b: string, c: string, d: string)
    requires DashFree(a) && DashFree(b) && DashFree(c) && DashFree(d)
    ensures Split(a + ([Dash] + b) + [Dash] + c + [Dash] + d, Dash) == [a, b, c, d]
  {
    var fields := [a, b, c, d];
    Join4(a, b, c, d);
    var w := a + ([Dash] + b) + [Dash] + c + [Dash] + d;
    assert a + ([Dash] + b) == a + [Dash] + b;
    assert w == Join(fields, Dash);
    assert forall k :: 0 <= k < |fields| ==> Dash !in fields[k];
    SplitJoin(fields, Dash);
  }

  lemma HeadDashFree(info: Option<Info>)
    requires info.Some? ==> DashFree(info.value.profile)
    ensures DashFree("[bsky] " + Render(Profile(info)))
  {
    var r := Render(Profile(info));
    assert DashFree(r) by { assert Dash !in "undefined"; }
    forall k | 0 <= k < 7 + |r| ensures ("[bsky] " + r)[k] != Dash {
      if k >= 7 { assert ("[bsky] " + r)[k] == r[k - 7]; }
    }
  }

  /** A link that does not have the expected shape gives
      `[bsky] undefined…—undefined—<name>`. */
  lemma FilenameWithoutInfo(dateStr: string, filename: string)
    ensures FilenameResult(None, dateStr, filename) == "[bsky] undefined" + dateStr + [Dash] + "undefined" + [Dash] + filename
  {
  }
}
