/**
  Classification of a working copy's origin URL, and the URLs built from a
  repository URL and a tag.

  The three patterns are Python `re.match` patterns: anchored at the start only,
  with a lazy `\S+?` for the project part of the repository URL and a greedy `\S+`
  for the tag. `\S` is "not one of space, tab, newline, carriage return, vertical
  tab, form feed" (the pattern is a byte string without the UNICODE flag).
*/
module OriginUrl {
  import opened Wrappers

  const ThemeHost: string := "http://themes.svn.wordpress.org"
  const PluginHost: string := "http://plugins.svn.wordpress.org"

  predicate IsSpace(c: char) {
    c == ' ' || c == '\t' || c == '\n' || c == '\r' || c as int == 11 || c as int == 12
  }

  predicate NoSpace(s: string) {
    forall k :: 0 <= k < |s| ==> !IsSpace(s[k])
  }

  predicate StartsWith(s: string, prefix: string) {
    |prefix| <= |s| && s[..|prefix|] == prefix
  }

  /** `sep` occurs in `u` at `i`; when `needTail`, a non-whitespace character follows it. */
  predicate SepAt(u: string, i: nat, sep: string, needTail: bool) {
    && i + |sep| <= |u|
    && u[i..i + |sep|] == sep
    && (needTail ==> i + |sep| < |u| && !IsSpace(u[i + |sep|]))
  }

  /** The lazy group `\S+?` starting at `start` can end at `j` with the rest of the pattern matching there. */
  predicate SplitsAt(u: string, start: nat, j: nat, sep: string, needTail: bool) {
    start < j <= |u| && NoSpace(u[start..j]) && SepAt(u, j, sep, needTail)
  }

  /** The search behind a lazy group that already spans u[start..i]: try to end it at i, else extend it by one. */
  function LazyGroupEnd(u: string, start: nat, i: nat, sep: string, needTail: bool): (r: Option<nat>)
    requires start < i <= |u| && NoSpace(u[start..i])
    ensures r.Some? ==> i <= r.value && SplitsAt(u, start, r.value, sep, needTail)
    ensures forall j :: i <= j <= |u| && (r.Some? ==> j < r.value) ==> !SplitsAt(u, start, j, sep, needTail)
    decreases |u| - i
  {
    if SepAt(u, i, sep, needTail) then Some(i)
    else if i < |u| && !IsSpace(u[i]) then
      assert u[start..i + 1] == u[start..i] + [u[i]];
      LazyGroupEnd(u, start, i + 1, sep, needTail)
    else
      assert forall j :: i < j <= |u| ==> u[start..j][i - start] == u[i];
      None
  }

  /** Where `(?:\S+?)<sep>` matches from `start`: the end of the shortest lazy group that lets the rest match. */
  function FirstSplit(u: string, start: nat, sep: string, needTail: bool): (r: Option<nat>)
    ensures r.Some? ==> SplitsAt(u, start, r.value, sep, needTail)
    ensures forall j :: 0 <= j <= |u| && (r.Some? ==> j < r.value) ==> !SplitsAt(u, start, j, sep, needTail)
  {
    if start < |u| && !IsSpace(u[start]) then
      assert u[start..start + 1] == [u[start]];
      LazyGroupEnd(u, start, start + 1, sep, needTail)
    else
      assert forall j :: start < j <= |u| ==> u[start..j][0] == u[start];
      None
  }

  /** Where the greedy `\S+` that starts at `p` ends. */
  function NonSpaceRunEnd(u: string, p: nat): (e: nat)
    requires p <= |u|
    ensures p <= e <= |u| && NoSpace(u[p..e])
    ensures e == |u| || IsSpace(u[e])
    decreases |u| - p
  {
    if p == |u| || IsSpace(u[p]) then p
    else
      var e := NonSpaceRunEnd(u, p + 1);
      assert u[p..e] == [u[p]] + u[p + 1..e];
      e
  }

  /**
    `re.match('(<host>/(?:\S+?))<sep>(\S+)', u)`: the repository URL (group 1) and the tag
    (group 2). The host's unescaped dots are literal here because the caller has already
    checked that `u` starts with the host.
  */
  function MatchTagged(u: string, host: string, sep: string): (m: Option<(string, string)>)
    requires |sep| > 0
  {
    var start := |host| + 1;
    if StartsWith(u, host + "/") then
      match FirstSplit(u, start, sep, true)
      case None => None
      case Some(j) =>
        var e := NonSpaceRunEnd(u, j + |sep|);
        Some((u[..j], u[j + |sep|..e]))
    else None
  }

  /** `re.match('(<host>/(?:\S+?))/trunk', u)`: the repository URL (group 1). */
  function MatchTrunk(u: string, host: string): (m: Option<string>)
  {
    var start := |host| + 1;
    if StartsWith(u, host + "/") then
      match FirstSplit(u, start, "/trunk", false)
      case None => None
      case Some(j) => Some(u[..j])
    else None
  }

  /** The kinds of origin URL, with what is extracted from each. */
  datatype Origin =
    | Theme(repo: string, tag: string)
    | PluginTag(repo: string, tag: string)
    | PluginTrunk(repo: string)
    | NotWordPress   // neither wordpress.org host
    | Unmatched      // a wordpress.org host, but no pattern matches

  /** The URL classification of `get_svn_info`. */
  function Classify(u: string): Origin
  {
    if StartsWith(u, ThemeHost) then
      match MatchTagged(u, ThemeHost, "/")
      case Some((repo, tag)) => Theme(repo, tag)
      case None => Unmatched
    else if StartsWith(u, PluginHost) then
      match MatchTagged(u, PluginHost, "/tags/")
      case Some((repo, tag)) => PluginTag(repo, tag)
      case None =>
        match MatchTrunk(u, PluginHost)
        case Some(repo) => PluginTrunk(repo)
        case None => Unmatched
    else NotWordPress
  }

  /** The URL `svn list` is run on to find a repository's tags: `/tags` is added for plugins only. */
  function ListingUrl(repo: string): string {
    if StartsWith(repo, PluginHost) then repo + "/tags" else repo
  }

  /** The URL a working copy is switched to: themes keep tags at the top level, plugins under `/tags`. */
  function SwitchUrl(repo: string, tag: string): string {
    if StartsWith(repo, ThemeHost) then repo + "/" + tag else repo + "/tags/" + tag
  }

  /** A tagged match: `u` is the repository URL, the separator and the tag, then the end or whitespace. */
  ghost predicate TaggedShape(u: string, host: string, sep: string, repo: string, tag: string) {
    var n := |repo| + |sep| + |tag|;
    && StartsWith(repo, host + "/") && |repo| > |host| + 1
    && |tag| > 0 && NoSpace(tag) && NoSpace(repo[|host| + 1..])
    && n <= |u| && u[..n] == repo + sep + tag
    && (n == |u| || IsSpace(u[n]))
  }

  /** Group 1 stops at the first place where the rest of the pattern can match. */
  ghost predicate Leftmost(u: string, host: string, sep: string, needTail: bool, end: nat) {
    var start := |host| + 1;
    forall j :: 0 <= j < end ==> !SplitsAt(u, start, j, sep, needTail)
  }

  lemma {:induction false} MatchTaggedShape(u: string, host: string, sep: string)
    requires |sep| > 0
    ensures match MatchTagged(u, host, sep)
      case Some((repo, tag)) => TaggedShape(u, host, sep, repo, tag) && Leftmost(u, host, sep, true, |repo|)
      case None => !StartsWith(u, host + "/") || Leftmost(u, host, sep, true, |u| + 1)
  {
    if StartsWith(u, host + "/") {
      var start := |host| + 1;
      var r := FirstSplit(u, start, sep, true);
      if r.Some? {
        var j := r.value;
        var e := NonSpaceRunEnd(u, j + |sep|);
        var repo, tag := u[..j], u[j + |sep|..e];
        assert e > j + |sep| by {
          assert !IsSpace(u[j + |sep|]);
        }
        assert repo[..start] == u[..start] == host + "/";
        assert repo[start..] == u[start..j];
        assert u[..j + |sep| + |tag|] == repo + sep + tag by {
          assert u[..e] == u[..j] + u[j..j + |sep|] + u[j + |sep|..e];
        }
      }
    }
  }

  /** What `Classify` extracts, for every kind of URL. */
  lemma ClassifyShape(u: string)
    ensures match Classify(u)
      case Theme(repo, tag) =>
        StartsWith(u, ThemeHost) && TaggedShape(u, ThemeHost, "/", repo, tag)
        && Leftmost(u, ThemeHost, "/", true, |repo|)
      case PluginTag(repo, tag) =>
        StartsWith(u, PluginHost) && TaggedShape(u, PluginHost, "/tags/", repo, tag)
        && Leftmost(u, PluginHost, "/tags/", true, |repo|)
      case PluginTrunk(repo) =>
        && StartsWith(u, PluginHost) && Leftmost(u, PluginHost, "/tags/", true, |u| + 1)
        && StartsWith(repo, PluginHost + "/") && StartsWith(u, repo + "/trunk")
        && SplitsAt(u, |PluginHost| + 1, |repo|, "/trunk", false)
        && Leftmost(u, PluginHost, "/trunk", false, |repo|)
      case NotWordPress => !StartsWith(u, ThemeHost) && !StartsWith(u, PluginHost)
      case Unmatched =>
        (if StartsWith(u, ThemeHost) then
           Leftmost(u, ThemeHost, "/", true, |u| + 1) || !StartsWith(u, ThemeHost + "/")
         else
           StartsWith(u, PluginHost) && (!StartsWith(u, PluginHost + "/") ||
             (Leftmost(u, PluginHost, "/tags/", true, |u| + 1) && Leftmost(u, PluginHost, "/trunk", false, |u| + 1))))
  {
    MatchTaggedShape(u, ThemeHost, "/");
    MatchTaggedShape(u, PluginHost, "/tags/");
    MatchTrunkShape(u, PluginHost);
  }

  /** A trunk match: the repository URL followed by `/trunk`, at the first place it occurs. */
  lemma MatchTrunkShape(u: string, host: string)
    ensures match MatchTrunk(u, host)
      case Some(repo) =>
        && StartsWith(repo, host + "/") && StartsWith(u, repo + "/trunk")
        && SplitsAt(u, |host| + 1, |repo|, "/trunk", false)
        && Leftmost(u, host, "/trunk", false, |repo|)
      case None => !StartsWith(u, host + "/") || Leftmost(u, host, "/trunk", false, |u| + 1)
  {
    if StartsWith(u, host + "/") {
      var r := FirstSplit(u, |host| + 1, "/trunk", false);
      if r.Some? {
        var j := r.value;
        assert u[..j + 6] == u[..j] + u[j..j + 6];
        assert u[..j][..|host| + 1] == u[..|host| + 1];
      }
    }
  }

  /** Where the `svn co` examples in the script's header comment put tags and repositories: each URL kind gets its own listing and switch URL. */
  lemma ClassifiedUrls(u: string)
    ensures Classify(u).Theme? ==>
      var repo := Classify(u).repo;
      ListingUrl(repo) == repo && forall t :: SwitchUrl(repo, t) == repo + "/" + t
    ensures Classify(u).PluginTag? ==>
      var repo := Classify(u).repo;
      ListingUrl(repo) == repo + "/tags" && forall t :: SwitchUrl(repo, t) == repo + "/tags/" + t
  {
    ClassifyShape(u);
    match Classify(u)
    case Theme(repo, _) =>
      assert repo[..|ThemeHost|] == ThemeHost;
      HostsDiffer(repo);
    case PluginTag(repo, _) =>
      assert repo[..|PluginHost|] == PluginHost;
      HostsDiffer(repo);
    case _ =>
  }

  /** No URL starts with both hosts: they differ at their eighth character. */
  lemma HostsDiffer(s: string)
    ensures !(StartsWith(s, ThemeHost) && StartsWith(s, PluginHost))
  {
    assert StartsWith(s, ThemeHost) ==> s[7] == s[..|ThemeHost|][7] == 't';
    assert StartsWith(s, PluginHost) ==> s[7] == s[..|PluginHost|][7] == 'p';
  }

  /** A project name as the `svn co` examples in the script's header comment use it: non-empty, without `/` and without whitespace. */
  predicate IsProjectName(name: string) {
    |name| > 0 && NoSpace(name) && forall k :: 0 <= k < |name| ==> name[k] != '/'
  }

  /** Tag text that `\S+` takes whole: non-empty, without whitespace. */
  predicate IsTagText(tag: string) {
    |tag| > 0 && NoSpace(tag)
  }

  /** A split with none before it is the one `FirstSplit` finds. */
  lemma FirstSplitIs(u: string, start: nat, j0: nat, sep: string, needTail: bool)
    requires SplitsAt(u, start, j0, sep, needTail)
    requires forall j :: 0 <= j < j0 ==> !SplitsAt(u, start, j, sep, needTail)
    ensures FirstSplit(u, start, sep, needTail) == Some(j0)
  {
  }

  /** Whether the pattern can split at `j` depends only on the characters up to just past the separator. */
  lemma SplitsAtLocal(u: string, v: string, k: nat, start: nat, j: nat, sep: string, needTail: bool)
    requires k <= |u| && k <= |v| && u[..k] == v[..k] && j + |sep| < k
    ensures SplitsAt(u, start, j, sep, needTail) == SplitsAt(v, start, j, sep, needTail)
  {
    forall i | 0 <= i < k
      ensures u[i] == v[i]
    {
      assert u[..k][i] == v[..k][i];
    }
    if start < j {
      assert u[start..j] == v[start..j];
    }
    assert u[j..j + |sep|] == v[j..j + |sep|];
  }

  /** After `<host>/<name>`, the first separator that starts with `/` is the one right after the name. */
  lemma {:induction false} SplitAfterName(host: string, name: string, rest: string, sep: string, needTail: bool)
    requires IsProjectName(name) && |sep| > 0 && sep[0] == '/'
    requires SepAt(host + "/" + name + rest, |host| + 1 + |name|, sep, needTail)
    ensures FirstSplit(host + "/" + name + rest, |host| + 1, sep, needTail) == Some(|host| + 1 + |name|)
  {
    var u := host + "/" + name + rest;
    var start, j0 := |host| + 1, |host| + 1 + |name|;
    assert u[start..j0] == name;
    forall j | 0 <= j < j0
      ensures !SplitsAt(u, start, j, sep, needTail)
    {
      if start < j {
        assert u[j] == name[j - start];
        assert j + |sep| <= |u| ==> u[j..j + |sep|][0] == u[j];
      }
    }
    FirstSplitIs(u, start, j0, sep, needTail);
  }

  /** The greedy tag run reaches the end of a URL whose tail has no whitespace. */
  lemma RunToEnd(u: string, p: nat)
    requires p <= |u| && NoSpace(u[p..])
    ensures NonSpaceRunEnd(u, p) == |u|
  {
    forall k | p <= k < |u|
      ensures !IsSpace(u[k])
    {
      assert u[p..][k - p] == u[k];
    }
  }

  /** The tagged pattern takes `<host>/<name><sep><tag>` apart into `<host>/<name>` and `<tag>`. */
  lemma MatchBuilt(host: string, name: string, sep: string, tag: string)
    requires IsProjectName(name) && IsTagText(tag) && |sep| > 0 && sep[0] == '/'
    ensures MatchTagged(host + "/" + name + sep + tag, host, sep) == Some((host + "/" + name, tag))
  {
    var repo := host + "/" + name;
    var u := host + "/" + name + (sep + tag);
    var j0 := |repo|;
    assert u == repo + sep + tag && u[..j0] == repo && u[j0 + |sep|..] == tag;
    assert u[j0 + |sep|..|u|] == tag;
    assert SepAt(u, j0, sep, true) by {
      assert u[j0..j0 + |sep|] == sep && u[j0 + |sep|] == tag[0];
    }
    SplitAfterName(host, name, sep + tag, sep, true);
    RunToEnd(u, j0 + |sep|);
    assert StartsWith(u, host + "/") by { assert u[..|host| + 1] == host + "/"; }
    MatchTaggedAt(u, host, sep, j0);
  }

  /** Unfolds `MatchTagged` once the split and the end of the tag are known. */
  lemma MatchTaggedAt(u: string, host: string, sep: string, j: nat)
    requires |sep| > 0 && StartsWith(u, host + "/") && FirstSplit(u, |host| + 1, sep, true) == Some(j)
    requires NonSpaceRunEnd(u, j + |sep|) == |u|
    ensures MatchTagged(u, host, sep) == Some((u[..j], u[j + |sep|..|u|]))
  {
  }

  /** A theme URL built by `SwitchUrl` classifies back to its repository and tag. */
  lemma ThemeRoundTrip(name: string, tag: string)
    requires IsProjectName(name) && IsTagText(tag)
    ensures var repo := ThemeHost + "/" + name;
      Classify(SwitchUrl(repo, tag)) == Theme(repo, tag)
  {
    var repo := ThemeHost + "/" + name;
    var u := repo + "/" + tag;
    assert StartsWith(repo, ThemeHost) by { assert repo[..|ThemeHost|] == ThemeHost; }
    assert StartsWith(u, ThemeHost) by { assert u[..|ThemeHost|] == ThemeHost; }
    MatchBuilt(ThemeHost, name, "/", tag);
  }

  /** A plugin tag URL built by `SwitchUrl` classifies back to its repository and tag. */
  lemma PluginRoundTrip(name: string, tag: string)
    requires IsProjectName(name) && IsTagText(tag)
    ensures var repo := PluginHost + "/" + name;
      Classify(SwitchUrl(repo, tag)) == PluginTag(repo, tag)
  {
    var repo := PluginHost + "/" + name;
    var u := repo + "/tags/" + tag;
    assert StartsWith(repo, PluginHost) by { assert repo[..|PluginHost|] == PluginHost; }
    assert StartsWith(u, PluginHost) by { assert u[..|PluginHost|] == PluginHost; }
    HostsDiffer(repo);
    HostsDiffer(u);
    MatchBuilt(PluginHost, name, "/tags/", tag);
  }

  /** A plugin trunk URL is classified as trunk, with its repository URL. */
  lemma TrunkRoundTrip(name: string)
    requires IsProjectName(name)
    ensures var repo := PluginHost + "/" + name;
      Classify(repo + "/trunk") == PluginTrunk(repo)
  {
    var repo := PluginHost + "/" + name;
    var u := repo + "/trunk";
    var start, j0 := |PluginHost| + 1, |repo|;
    assert u == PluginHost + "/" + name + "/trunk";
    assert StartsWith(u, PluginHost + "/") by { assert u[..|PluginHost| + 1] == PluginHost + "/"; }
    assert StartsWith(u, PluginHost) by { assert u[..|PluginHost|] == PluginHost; }
    HostsDiffer(u);
    forall j | 0 <= j <= |u|
      ensures !SplitsAt(u, start, j, "/tags/", true)
    {
      if start < j < j0 {
        assert u[j] == name[j - start];
        assert j + 6 <= |u| ==> u[j..j + 6][0] == u[j];
      } else if j == j0 {
        assert u[j0..j0 + 6][2] == 'r';
      }
    }
    assert u[j0..j0 + 6] == "/trunk";
    SplitAfterName(PluginHost, name, "/trunk", "/trunk", false);
    assert u[..j0] == repo;
  }

  /**
    Once a tagged pattern has matched `u`, the URL built from its repository with any
    other tag text matches the same pattern, with the same repository and the new tag.
  */
  lemma MatchAfterSwitch(u: string, host: string, sep: string, repo: string, tag: string, t: string)
    requires |sep| > 0 && MatchTagged(u, host, sep) == Some((repo, tag)) && IsTagText(t)
    ensures MatchTagged(repo + sep + t, host, sep) == Some((repo, t))
  {
    MatchTaggedShape(u, host, sep);
    var v := repo + sep + t;
    var start, j0 := |host| + 1, |repo|;
    var k := |repo| + |sep|;
    assert u[..k] == (repo + sep + tag)[..k] == repo + sep == v[..k] by {
      assert u[..k] == u[..|repo| + |sep| + |tag|][..k];
    }
    assert StartsWith(v, host + "/") by {
      assert v[..start] == repo[..start];
    }
    assert SplitsAt(v, start, j0, sep, true) by {
      assert v[start..j0] == repo[start..];
      assert v[j0..j0 + |sep|] == sep && v[j0 + |sep|] == t[0];
    }
    forall j | 0 <= j < j0
      ensures !SplitsAt(v, start, j, sep, true)
    {
      SplitsAtLocal(u, v, k, start, j, sep, true);
    }
    FirstSplitIs(v, start, j0, sep, true);
    assert v[j0 + |sep|..] == t;
    RunToEnd(v, j0 + |sep|);
    assert v[..j0] == repo && v[j0 + |sep|..|v|] == t;
  }

  /**
    Switching a classified working copy to another tag gives an origin URL that is
    classified as the same kind, with the same repository and the new tag.
  */
  lemma SwitchedUrlReadsBack(u: string, t: string)
    requires Classify(u).Theme? || Classify(u).PluginTag?
    requires IsTagText(t)
    ensures var o := Classify(u);
      Classify(SwitchUrl(o.repo, t)) == if o.Theme? then Theme(o.repo, t) else PluginTag(o.repo, t)
  {
    ClassifiedUrls(u);
    ClassifyShape(u);
    match Classify(u)
    case Theme(repo, tag) =>
      MatchAfterSwitch(u, ThemeHost, "/", repo, tag, t);
      var v := repo + "/" + t;
      assert StartsWith(v, ThemeHost) by {
        assert v[..|ThemeHost|] == repo[..|ThemeHost|];
      }
    case PluginTag(repo, tag) =>
      MatchAfterSwitch(u, PluginHost, "/tags/", repo, tag, t);
      var v := repo + "/tags/" + t;
      assert StartsWith(v, PluginHost) by {
        assert v[..|PluginHost|] == repo[..|PluginHost|];
      }
      HostsDiffer(v);
  }
}
