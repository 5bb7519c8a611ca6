/**
  The update decision of the WordPress theme and plugin updater: read a working
  copy's origin, find the newest numeric tag of its repository, and switch the
  working copy to that tag when it is strictly newer than the current one.

  The svn client is not modelled. What `svn info --xml` and `svn list --xml`
  print is taken already parsed (`InfoReply`, `ListReply`); the commands that
  change a working copy (`svn update`, `svn switch`) are the output of the model,
  in the order they are issued; whether a command succeeds is a parameter. A failed
  command, and a missing `commit` element in a listing (an uncaught exception),
  end the whole run: the `aborted` flag.
*/
module UpdatePlugins {
  import opened Wrappers
  import opened LooseVersion
  import opened OriginUrl

  /** The `entry` element of `svn info --xml`: its `url` text and its `commit` revision. */
  datatype InfoEntry = InfoEntry(url: Option<string>, commit: Option<int>)

  /** What inspecting a candidate directory gives. */
  datatype InfoReply =
    | NotWorkingCopy                       // not a directory, or no `.svn` in it
    | InfoFailed                           // `svn info` exited with a non-zero status
    | InfoXml(entry: Option<InfoEntry>)

  datatype Tree = Tree(path: string, info: InfoReply)

  /** One `entry` of `svn list --xml`: its `commit` revision and its `name` text. */
  datatype ListEntry = ListEntry(commit: Option<int>, name: Option<string>)

  datatype ListReply =
    | ListFailed                           // `svn list` exited with a non-zero status
    | ListXml(entries: seq<ListEntry>)

  /** The svn commands that change a working copy. */
  datatype Command =
    | Update(path: string)
    | Switch(target: string, path: string)

  /**
    The outside world: the listing the server returns for a URL, whether a command
    succeeds, and LooseVersion's `>` on strings that are not only digits and dots.
  */
  datatype Env = Env(list: string -> ListReply, succeeds: Command -> bool, newer: (string, string) -> bool)

  /** `LooseVersion(a) > LooseVersion(b)`: `Newer` on digit-and-dot strings, the environment's comparison on any other. */
  predicate TagNewer(a: string, b: string, env: Env) {
    if DigitsAndDots(a) && DigitsAndDots(b) then Newer(a, b) else env.newer(a, b)
  }

  // ---------------------------------------------------------------------------
  // get_svn_info

  /** What `get_svn_info` reports about one directory. */
  datatype SvnInfo =
    | Skipped                              // the all-None failure triple
    | TrunkUpdated                         // a trunk working copy: `svn update` was run, then all None
    | Tagged(repo: string, tag: string, rev: int)
    | InfoAborted                          // `svn info` failed: the script exits

  function GetSvnInfo(t: Tree): SvnInfo
  {
    match t.info
    case NotWorkingCopy => Skipped
    case InfoFailed => InfoAborted
    case InfoXml(None) => Skipped
    case InfoXml(Some(InfoEntry(None, _))) => Skipped
    case InfoXml(Some(InfoEntry(Some(url), commit))) =>
      match Classify(url)
      case NotWordPress => Skipped
      case Unmatched => Skipped
      case PluginTrunk(_) => TrunkUpdated
      case Theme(repo, tag) => if commit.None? then Skipped else Tagged(repo, tag, commit.value)
      case PluginTag(repo, tag) => if commit.None? then Skipped else Tagged(repo, tag, commit.value)
  }

  // ---------------------------------------------------------------------------
  // get_newest_svn_tag

  /** What `get_newest_svn_tag` returns. */
  datatype Newest =
    | Found(rev: int, tag: string)
    | NoTag                                // the (None, None) failure pair
    | ListAborted                          // `svn list` failed or an entry had no commit: the script exits

  predicate IsCandidate(e: ListEntry) {
    e.name.Some? && IsDottedTag(e.name.value)
  }

  predicate Complete(e: ListEntry) {
    e.commit.Some? && e.name.Some?
  }

  /** The selection loop from entry 0 on, with `(rev, tag)` the best so far. */
  function Pick(es: seq<ListEntry>, rev: int, tag: string): (r: Newest)
    requires IsDottedTag(tag)
    ensures r.Found? ==> IsDottedTag(r.tag)
  {
    if es == [] then Found(rev, tag)
    else if es[0].commit.None? then ListAborted
    else if es[0].name.None? then NoTag
    else if IsDottedTag(es[0].name.value) && Newer(es[0].name.value, tag) then
      Pick(es[1..], es[0].commit.value, es[0].name.value)
    else Pick(es[1..], rev, tag)
  }

  function NewestTag(reply: ListReply): Newest
  {
    match reply
    case ListFailed => ListAborted
    case ListXml(es) => if es == [] then NoTag else Pick(es, 0, "0.0")
  }

  /** `get_newest_svn_tag`: list the repository's tags and keep the running maximum. */
  method GetNewestSvnTag(repo: string, list: string -> ListReply) returns (result: Newest)
    ensures result == NewestTag(list(ListingUrl(repo)))
  {
    var reply := list(ListingUrl(repo));
    if reply.ListFailed? {
      return ListAborted;
    }
    var entries := reply.entries;
    if |entries| == 0 {
      return NoTag;
    }
    var newestTag, newestRev := "0.0", 0;
    for i := 0 to |entries|
      invariant IsDottedTag(newestTag)
      invariant Pick(entries[i..], newestRev, newestTag) == Pick(entries, 0, "0.0")
    {
      var entry := entries[i];
      if entry.commit.None? {
        return ListAborted;
      }
      var rev := entry.commit.value;
      if entry.name.None? {
        return NoTag;
      }
      var tag := entry.name.value;
      if IsDottedTag(tag) && Newer(tag, newestTag) {
        newestRev, newestTag := rev, tag;
      }
    }
    return Found(newestRev, newestTag);
  }

  // ---------------------------------------------------------------------------
  // update_svn_trees

  /** The commands issued so far and whether the script has exited. */
  datatype Run = Run(commands: seq<Command>, aborted: bool)

  /** Issue one command; a failure exits the script. */
  function Issue(c: Command, env: Env): Run {
    Run([c], !env.succeeds(c))
  }

  /** One iteration of the loop of `update_svn_trees`. */
  function TreeStep(t: Tree, env: Env): Run
  {
    match GetSvnInfo(t)
    case Skipped => Run([], false)
    case InfoAborted => Run([], true)
    case TrunkUpdated => Issue(Update(t.path), env)
    case Tagged(repo, tag, _) =>
      match NewestTag(env.list(ListingUrl(repo)))
      case ListAborted => Run([], true)
      case NoTag => Run([], false)
      case Found(_, newest) =>
        if TagNewer(newest, tag, env) then Issue(Switch(SwitchUrl(repo, newest), t.path), env)
        else Run([], false)
  }

  /** Run `first`, then `rest` unless `first` exited. */
  function Then(first: Run, rest: Run): Run {
    if first.aborted then first else Run(first.commands + rest.commands, rest.aborted)
  }

  /** `update_svn_trees` over a list of directories. */
  function UpdateAll(trees: seq<Tree>, env: Env): Run
  {
    if trees == [] then Run([], false) else Then(TreeStep(trees[0], env), UpdateAll(trees[1..], env))
  }

  lemma ThenAssociative(a: Run, b: Run, c: Run)
    ensures Then(Then(a, b), c) == Then(a, Then(b, c))
  {
  }

  /** `update_svn_trees`: one pass over the directories, stopping when the script exits. */
  method UpdateSvnTrees(trees: seq<Tree>, env: Env) returns (run: Run)
    ensures run == UpdateAll(trees, env)
  {
    var commands: seq<Command> := [];
    var i := 0;
    while i < |trees|
      invariant 0 <= i <= |trees|
      invariant Then(Run(commands, false), UpdateAll(trees[i..], env)) == UpdateAll(trees, env)
    {
      var tree := trees[i];
      assert trees[i..][1..] == trees[i + 1..];
      ThenAssociative(Run(commands, false), TreeStep(tree, env), UpdateAll(trees[i + 1..], env));
      i := i + 1;
      // the commands this directory issues, and whether the script exits on it
      var issued: seq<Command> := [];
      var exit := false;
      var info := GetSvnInfo(tree);
      if info.InfoAborted? {
        exit := true;
      } else if info.TrunkUpdated? {
        issued, exit := [Update(tree.path)], !env.succeeds(Update(tree.path));
      } else if info.Tagged? {
        var newest := GetNewestSvnTag(info.repo, env.list);
        if newest.ListAborted? {
          exit := true;
        } else if newest.Found? && TagNewer(newest.tag, info.tag, env) {
          var switch := Switch(SwitchUrl(info.repo, newest.tag), tree.path);
          issued, exit := [switch], !env.succeeds(switch);
        }
      }
      assert Run(issued, exit) == TreeStep(tree, env);
      commands := commands + issued;
      if exit {
        return Run(commands, true);
      }
    }
    assert trees[i..] == [];
    return Run(commands, false);
  }

  // ---------------------------------------------------------------------------
  // Properties of the newest-tag selection

  /**
    Entry `j` is where the selection ends: a candidate named `tag` with revision `rev`,
    newer than the start value `t0` and strictly newer than every earlier candidate.
  */
  ghost predicate FirstNewest(es: seq<ListEntry>, j: int, t0: string, rev: int, tag: string)
    requires 0 <= j < |es| && IsDottedTag(t0) && IsDottedTag(tag)
  {
    && IsCandidate(es[j]) && es[j].name.value == tag && es[j].commit == Some(rev)
    && Newer(tag, t0)
    && forall i :: 0 <= i < j && IsCandidate(es[i]) ==> Newer(tag, es[i].name.value)
  }

  /**
    `(rev, tag)` is the newest candidate of `es` in LooseVersion order, starting from
    `(r0, t0)`: no candidate and not `t0` is newer than it, and it is either the start
    value or the first candidate that reaches the maximum.
  */
  ghost predicate Selects(es: seq<ListEntry>, r0: int, t0: string, rev: int, tag: string)
    requires IsDottedTag(t0)
  {
    && IsDottedTag(tag)
    && !Newer(t0, tag)
    && (forall i :: 0 <= i < |es| && IsCandidate(es[i]) ==> !Newer(es[i].name.value, tag))
    && ((rev == r0 && tag == t0) || exists j :: 0 <= j < |es| && FirstNewest(es, j, t0, rev, tag))
  }

  /** A first entry that beats the start value: the rest's selection from that entry is the whole one's. */
  lemma SelectsAfterTake(es: seq<ListEntry>, r0: int, t0: string, rev: int, tag: string)
    requires |es| > 0 && IsDottedTag(t0) && IsCandidate(es[0]) && es[0].commit.Some?
    requires Newer(es[0].name.value, t0)
    requires Selects(es[1..], es[0].commit.value, es[0].name.value, rev, tag)
    ensures Selects(es, r0, t0, rev, tag)
  {
    var rest := es[1..];
    var n, c := es[0].name.value, es[0].commit.value;
    LessThenNotLess(Components(t0), Components(n), Components(tag));
    NewerAsymmetric(tag, t0);
    forall i | 0 <= i < |es| && IsCandidate(es[i])
      ensures !Newer(es[i].name.value, tag)
    {
      if i > 0 {
        assert rest[i - 1] == es[i];
      }
    }
    if rev == c && tag == n {
      assert FirstNewest(es, 0, t0, rev, tag);
    } else {
      var j :| 0 <= j < |rest| && FirstNewest(rest, j, n, rev, tag);
      forall i | 0 <= i < j + 1 && IsCandidate(es[i])
        ensures Newer(tag, es[i].name.value)
      {
        if i > 0 {
          assert rest[i - 1] == es[i];
        }
      }
      assert FirstNewest(es, j + 1, t0, rev, tag);
    }
  }

  /** A first entry that does not beat the start value changes nothing. */
  lemma SelectsAfterKeep(es: seq<ListEntry>, r0: int, t0: string, rev: int, tag: string)
    requires |es| > 0 && IsDottedTag(t0)
    requires !(IsCandidate(es[0]) && Newer(es[0].name.value, t0))
    requires Selects(es[1..], r0, t0, rev, tag)
    ensures Selects(es, r0, t0, rev, tag)
  {
    var rest := es[1..];
    forall i | 0 <= i < |es| && IsCandidate(es[i])
      ensures !Newer(es[i].name.value, tag)
    {
      if i == 0 {
        NotLessTransitive(Components(es[0].name.value), Components(t0), Components(tag));
      } else {
        assert rest[i - 1] == es[i];
      }
    }
    if !(rev == r0 && tag == t0) {
      var j :| 0 <= j < |rest| && FirstNewest(rest, j, t0, rev, tag);
      forall i | 0 <= i < j + 1 && IsCandidate(es[i])
        ensures Newer(tag, es[i].name.value)
      {
        if i == 0 {
          NotLessThenLess(Components(es[0].name.value), Components(t0), Components(tag));
        } else {
          assert rest[i - 1] == es[i];
        }
      }
      assert FirstNewest(es, j + 1, t0, rev, tag);
    }
  }

  /** The running maximum computes the declarative maximum. */
  lemma {:induction false} PickSelects(es: seq<ListEntry>, r0: int, t0: string)
    requires IsDottedTag(t0)
    requires forall i :: 0 <= i < |es| ==> Complete(es[i])
    ensures Pick(es, r0, t0).Found?
    ensures Selects(es, r0, t0, Pick(es, r0, t0).rev, Pick(es, r0, t0).tag)
    decreases |es|
  {
    if es == [] {
      LessIrreflexive(Components(t0));
      return;
    }
    var rest := es[1..];
    var n, c := es[0].name.value, es[0].commit.value;
    assert forall i :: 0 <= i < |rest| ==> rest[i] == es[i + 1];
    if IsDottedTag(n) && Newer(n, t0) {
      PickSelects(rest, c, n);
      var p := Pick(rest, c, n);
      SelectsAfterTake(es, r0, t0, p.rev, p.tag);
    } else {
      PickSelects(rest, r0, t0);
      var p := Pick(rest, r0, t0);
      SelectsAfterKeep(es, r0, t0, p.rev, p.tag);
    }
  }

  /**
    On a listing whose entries all have a name and a commit, `get_newest_svn_tag`
    returns the LooseVersion maximum of the digit-and-dot names that are newer than
    "0.0", the earliest one on ties, or ("0.0", 0) when there is none.
  */
  lemma NewestTagIsMaximum(es: seq<ListEntry>)
    requires |es| > 0 && forall i :: 0 <= i < |es| ==> Complete(es[i])
    ensures NewestTag(ListXml(es)).Found?
    ensures Selects(es, 0, "0.0", NewestTag(ListXml(es)).rev, NewestTag(ListXml(es)).tag)
  {
    PickSelects(es, 0, "0.0");
  }

  /** When no digit-and-dot name is newer than "0.0", the start value ("0.0", 0) is returned. */
  lemma NoCandidateGivesStartValue(es: seq<ListEntry>)
    requires |es| > 0 && forall i :: 0 <= i < |es| ==> Complete(es[i])
    requires forall i :: 0 <= i < |es| && IsCandidate(es[i]) ==> !Newer(es[i].name.value, "0.0")
    ensures NewestTag(ListXml(es)) == Found(0, "0.0")
  {
    NewestTagIsMaximum(es);
    var p := NewestTag(ListXml(es));
    assert !exists j :: 0 <= j < |es| && FirstNewest(es, j, "0.0", p.rev, p.tag);
  }

  /** The running best never goes down: the result is never older than any intermediate best. */
  lemma {:induction false} RunningBestNeverDecreases(es: seq<ListEntry>, r0: int, t0: string)
    requires IsDottedTag(t0)
    ensures Pick(es, r0, t0).Found? ==> !Newer(t0, Pick(es, r0, t0).tag)
    decreases |es|
  {
    if es == [] {
      LessIrreflexive(Components(t0));
    } else if es[0].commit.Some? && es[0].name.Some? {
      var n := es[0].name.value;
      if IsDottedTag(n) && Newer(n, t0) {
        RunningBestNeverDecreases(es[1..], es[0].commit.value, n);
        var p := Pick(es[1..], es[0].commit.value, n);
        if p.Found? {
          LessThenNotLess(Components(t0), Components(n), Components(p.tag));
          NewerAsymmetric(p.tag, t0);
        }
      } else {
        RunningBestNeverDecreases(es[1..], r0, t0);
      }
    }
  }

  /**
    The first entry without a commit ends the run (an exception), and the first entry
    without a name gives the (None, None) failure; entries after it are never read.
  */
  lemma {:induction false} FirstIncompleteEntryDecides(es: seq<ListEntry>, k: nat, r0: int, t0: string)
    requires IsDottedTag(t0) && k < |es| && !Complete(es[k])
    requires forall i :: 0 <= i < k ==> Complete(es[i])
    ensures Pick(es, r0, t0) == if es[k].commit.None? then ListAborted else NoTag
    decreases k
  {
    if k > 0 {
      var n := es[0].name.value;
      assert forall i :: 0 <= i < k - 1 ==> es[1..][i] == es[i + 1];
      if IsDottedTag(n) && Newer(n, t0) {
        FirstIncompleteEntryDecides(es[1..], k - 1, es[0].commit.value, n);
      } else {
        FirstIncompleteEntryDecides(es[1..], k - 1, r0, t0);
      }
    }
  }

  /** A failed `svn list` ends the run; an empty listing gives the failure pair. */
  lemma FailedOrEmptyListing()
    ensures NewestTag(ListFailed) == ListAborted && NewestTag(ListXml([])) == NoTag
  {
  }

  /** An incomplete entry in a listing: the first one decides between exit and the failure pair. */
  lemma ListingFailures(es: seq<ListEntry>, k: nat)
    requires k < |es| && !Complete(es[k]) && forall i :: 0 <= i < k ==> Complete(es[i])
    ensures NewestTag(ListXml(es)) == if es[k].commit.None? then ListAborted else NoTag
  {
    FirstIncompleteEntryDecides(es, k, 0, "0.0");
  }

  /** Two listings that differ at most in their revision numbers. */
  ghost predicate SameNames(es: seq<ListEntry>, fs: seq<ListEntry>) {
    && |es| == |fs|
    && forall i :: 0 <= i < |es| ==> es[i].name == fs[i].name && es[i].commit.Some? == fs[i].commit.Some?
  }

  /** The same outcome, apart from the revision returned. */
  predicate SameTagOutcome(p: Newest, q: Newest) {
    || (p.Found? && q.Found? && p.tag == q.tag)
    || (p.NoTag? && q.NoTag?)
    || (p.ListAborted? && q.ListAborted?)
  }

  /** Revision numbers never decide which tag is selected. */
  lemma {:induction false} PickIgnoresRevisions(es: seq<ListEntry>, fs: seq<ListEntry>, r0: int, s0: int, t0: string)
    requires IsDottedTag(t0) && SameNames(es, fs)
    ensures SameTagOutcome(Pick(es, r0, t0), Pick(fs, s0, t0))
    decreases |es|
  {
    if es != [] && es[0].commit.Some? && es[0].name.Some? {
      var n := es[0].name.value;
      assert SameNames(es[1..], fs[1..]) by {
        assert forall i :: 0 <= i < |es| - 1 ==> es[1..][i] == es[i + 1] && fs[1..][i] == fs[i + 1];
      }
      if IsDottedTag(n) && Newer(n, t0) {
        PickIgnoresRevisions(es[1..], fs[1..], es[0].commit.value, fs[0].commit.value, n);
      } else {
        PickIgnoresRevisions(es[1..], fs[1..], r0, s0, t0);
      }
    }
  }

  // ---------------------------------------------------------------------------
  // Properties of the per-directory decision

  /** A directory whose origin is on neither wordpress.org host, or matches no pattern, is left alone. */
  lemma UnrecognisedOriginUntouched(t: Tree, env: Env, url: string, commit: Option<int>)
    requires t.info == InfoXml(Some(InfoEntry(Some(url), commit)))
    requires Classify(url).NotWordPress? || Classify(url).Unmatched?
    ensures TreeStep(t, env) == Run([], false)
  {
  }

  /** A trunk working copy is refreshed with `svn update` and never switched. */
  lemma TrunkOnlyUpdated(t: Tree, env: Env, url: string, commit: Option<int>)
    requires t.info == InfoXml(Some(InfoEntry(Some(url), commit)))
    requires Classify(url).PluginTrunk?
    ensures TreeStep(t, env).commands == [Update(t.path)]
  {
  }

  /**
    A tagged working copy whose listing succeeds is switched, to the newest tag, exactly
    when that tag is strictly newer than the current one; an equal or older newest tag
    leaves it alone. The revisions in the result play no part.
  */
  lemma SwitchIffNewer(t: Tree, env: Env)
    requires GetSvnInfo(t).Tagged?
    requires DigitsAndDots(GetSvnInfo(t).tag)
    ensures var info := GetSvnInfo(t);
      var newest := NewestTag(env.list(ListingUrl(info.repo)));
      newest.Found? ==>
        && (TreeStep(t, env).commands == [Switch(SwitchUrl(info.repo, newest.tag), t.path)] <==> Newer(newest.tag, info.tag))
        && (!Newer(newest.tag, info.tag) ==> TreeStep(t, env) == Run([], false))
  {
  }

  /** What `get_svn_info` returns for a tagged origin URL with a commit revision. */
  lemma TaggedInfo(t: Tree, url: string, rev: int)
    requires t.info == InfoXml(Some(InfoEntry(Some(url), Some(rev))))
    requires Classify(url).Theme? || Classify(url).PluginTag?
    ensures GetSvnInfo(t) == Tagged(Classify(url).repo, Classify(url).tag, rev)
  {
  }

  /** A tagged working copy whose listing has no usable tags is left alone; a failed listing ends the run. */
  lemma ListingFailureSkipsTree(t: Tree, env: Env, url: string, rev: int)
    requires t.info == InfoXml(Some(InfoEntry(Some(url), Some(rev))))
    requires Classify(url).Theme? || Classify(url).PluginTag?
    ensures var newest := NewestTag(env.list(ListingUrl(Classify(url).repo)));
      && (newest.NoTag? ==> TreeStep(t, env) == Run([], false))
      && (newest.ListAborted? ==> TreeStep(t, env) == Run([], true))
  {
  }

  /** `svn info` replies that differ at most in the revision number. */
  ghost predicate SameInfo(a: InfoReply, b: InfoReply) {
    a == b ||
    (&& a.InfoXml? && b.InfoXml? && a.entry.Some? && b.entry.Some?
     && a.entry.value.url == b.entry.value.url
     && a.entry.value.commit.Some? == b.entry.value.commit.Some?)
  }

  /** `svn list` replies that differ at most in revision numbers. */
  ghost predicate SameListing(a: ListReply, b: ListReply) {
    (a.ListFailed? && b.ListFailed?) || (a.ListXml? && b.ListXml? && SameNames(a.entries, b.entries))
  }

  /** Revision numbers play no part in the decision: only tag names do. */
  lemma RevisionsDoNotDecide(t: Tree, t': Tree, env: Env, list': string -> ListReply)
    requires t.path == t'.path && SameInfo(t.info, t'.info)
    requires forall u :: SameListing(env.list(u), list'(u))
    ensures TreeStep(t, env) == TreeStep(t', Env(list', env.succeeds, env.newer))
  {
    var env' := Env(list', env.succeeds, env.newer);
    var a, b := GetSvnInfo(t), GetSvnInfo(t');
    if a.Tagged? {
      var u := ListingUrl(a.repo);
      if env.list(u).ListXml? && env.list(u).entries != [] {
        PickIgnoresRevisions(env.list(u).entries, list'(u).entries, 0, 0, "0.0");
      }
    }
  }

  /** Tag names made of digits and dots contain no whitespace. */
  lemma DottedTagIsTagText(s: string)
    requires IsDottedTag(s)
    ensures IsTagText(s)
  {
    forall k | 0 <= k < |s|
      ensures !IsSpace(s[k])
    {
      assert IsDigit(s[k]) || s[k] == '.';
    }
  }

  /**
    Right after a successful switch, a second run over the same listing does not switch
    again: the switched working copy reads back as the newest tag itself.
  */
  lemma SwitchIsIdempotent(t: Tree, env: Env, rev: int)
    requires TreeStep(t, env).commands != [] && TreeStep(t, env).commands[0].Switch?
    ensures var t' := Tree(t.path, InfoXml(Some(InfoEntry(Some(TreeStep(t, env).commands[0].target), Some(rev)))));
      TreeStep(t', env) == Run([], false)
  {
    var info := GetSvnInfo(t);
    var url := t.info.entry.value.url.value;
    var newest := NewestTag(env.list(ListingUrl(info.repo)));
    DottedTagIsTagText(newest.tag);
    SwitchedUrlReadsBack(url, newest.tag);
    LessIrreflexive(Components(newest.tag));
  }

  // ---------------------------------------------------------------------------
  // Properties of the whole pass

  /** Every command of a pass belongs to one of its directories, and there are at most as many commands as directories. */
  lemma {:induction false} CommandsComeFromTrees(trees: seq<Tree>, env: Env)
    ensures |UpdateAll(trees, env).commands| <= |trees|
    ensures forall c :: c in UpdateAll(trees, env).commands ==> exists i :: 0 <= i < |trees| && c.path == trees[i].path
    decreases |trees|
  {
    if trees != [] {
      CommandsComeFromTrees(trees[1..], env);
      forall c | c in UpdateAll(trees, env).commands
        ensures exists i :: 0 <= i < |trees| && c.path == trees[i].path
      {
        if c in UpdateAll(trees[1..], env).commands && !TreeStep(trees[0], env).aborted {
          var i :| 0 <= i < |trees| - 1 && c.path == trees[1..][i].path;
          assert c.path == trees[i + 1].path;
        } else {
          assert c.path == trees[0].path;
        }
      }
    }
  }
}
