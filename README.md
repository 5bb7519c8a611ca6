# WordPress theme and plugin updater: the update decision

`update_plugins.py` keeps WordPress themes and plugins that were checked out with
subversion from wordpress.org at their newest release. For every directory it reads
the working copy's origin URL with `svn info`, lists the repository's tags with
`svn list`, picks the newest tag whose name is made only of digits and dots, and runs
`svn switch` to that tag when it is strictly newer than the tag the working copy is on.
Working copies of a plugin's trunk are refreshed with `svn update` instead.

This project models that decision logic in Dafny:

- `loose_version.dfy` (module `LooseVersion`): the order `LooseVersion(a) > LooseVersion(b)`
  on digit-and-dot strings, as a lexicographic order on the lists of numbers, with its
  order properties.
- `origin_url.dfy` (module `OriginUrl`): the three `re.match` patterns of `get_svn_info`
  as an explicit leftmost, lazy search for the separator followed by a greedy run of
  non-whitespace; the classification of an origin URL into theme, plugin tag, plugin
  trunk or rejected; and the listing and switch URLs built from a repository URL.
- `update_plugins.dfy` (module `UpdatePlugins`): `get_svn_info`, the selection loop of
  `get_newest_svn_tag` (a method with a `for` loop, proved against the recursive
  function `Pick`), and the loop of `update_svn_trees` (a method proved against
  `UpdateAll`). Its output is the list of svn commands that change working copies.
- `wrappers.dfy`: the `Option` type.

The svn client is an input. The parsed replies of `svn info --xml` and `svn list --xml`
are records (`InfoReply`, `ListReply`). The `Env` record gives three things: the listing
returned for a URL, whether a command succeeds, and LooseVersion's `>` on arbitrary strings.
A failing command ends the script (`run_cmd` calls `sys.exit`). So does a listing entry
without a `commit` element, which raises an exception. Both show up as the `aborted` flag
of a `Run`.

A directory is switched only when the newest tag is strictly newer than its current tag;
an equal or older newest tag leaves it untouched.

## Model

| member | source | states |
|---|---|---|
| `OriginUrl.FirstSplit` | update_plugins.py:77-81 | the lazy group `\S+?` ends at the first position where the group is whitespace-free and the rest of the pattern matches; `None` exactly when there is no such position |
| `OriginUrl.NonSpaceRunEnd` | update_plugins.py:77-79 | the greedy `\S+` for the tag takes the maximal run of non-whitespace |
| `OriginUrl.MatchTagged` | update_plugins.py:77-79 | the two tagged patterns; see `MatchTaggedShape`, `MatchBuilt` and `MatchAfterSwitch` |
| `OriginUrl.MatchTrunk` | update_plugins.py:81 | the trunk pattern; see `MatchTrunkShape` |
| `OriginUrl.MatchTrunkShape` | update_plugins.py:81 | a trunk match is a repository URL under the host, with a non-empty whitespace-free project part, followed by `/trunk` at the first place it can be; no match means no such place |
| `OriginUrl.Classify` | update_plugins.py:75-101 | the dispatch on the host and the patterns; see `ClassifyShape` and the round-trip lemmas |
| `OriginUrl.ListingUrl` | update_plugins.py:123-127 | the URL `svn list` is run on; see `ClassifiedUrls` |
| `OriginUrl.SwitchUrl` | update_plugins.py:161-164 | the URL `svn switch` is run on; see `ClassifiedUrls` and `SwitchedUrlReadsBack` |
| `OriginUrl.MatchTaggedShape` | update_plugins.py:77-79 | a tagged match splits the URL into repository, separator and a non-empty, whitespace-free tag ending at the end of the URL or at whitespace, with the repository stopping at the first possible separator |
| `OriginUrl.ClassifyShape` | update_plugins.py:75-101 | theme URLs give repository and non-empty tag (so "could not parse tag" is unreachable); plugin URLs give a tag after the first `/tags/`, else trunk when `/trunk` follows; URLs on neither host, or matching no pattern, are rejected |
| `OriginUrl.ClassifiedUrls` | update_plugins.py:123-164 | a theme repository is listed at its own URL and switched to `repo/tag`; a plugin repository is listed at `repo/tags` and switched to `repo/tags/tag` |
| `OriginUrl.HostsDiffer` | update_plugins.py:76-78 | no URL starts with both the theme host and the plugin host |
| `OriginUrl.ThemeRoundTrip` | update_plugins.py:161-162 | a theme URL built from a host, a slash-free name and a tag classifies back to the same repository and tag |
| `OriginUrl.PluginRoundTrip` | update_plugins.py:163-164 | a plugin tag URL built from a slash-free name and a tag classifies back to the same repository and tag |
| `OriginUrl.TrunkRoundTrip` | update_plugins.py:81-82 | `<plugin host>/<name>/trunk` classifies as a trunk working copy of `<plugin host>/<name>` |
| `OriginUrl.MatchAfterSwitch` | update_plugins.py:77-79 | replacing the tag of a matched URL by any whitespace-free tag keeps the match, with the same repository |
| `OriginUrl.SwitchedUrlReadsBack` | update_plugins.py:161-166 | the URL a working copy is switched to classifies as the same kind of origin, the same repository and the new tag |
| `LooseVersion.IsDottedTag` | update_plugins.py:147 | the tag filter `^[\.\d]+$`, a non-empty string of digits and dots; see `Pick` and `DottedTagIsTagText` |
| `LooseVersion.Components` | update_plugins.py:148 | LooseVersion's numbers of a digit-and-dot tag; see `ZeroComponents`, `LeadingZeroIgnored` and the order examples |
| `LooseVersion.ComponentsOfJoin` | update_plugins.py:148 | joining two digit-and-dot strings with a dot joins their component lists, so the components are the dot-separated pieces read as numbers, empty pieces dropped |
| `LooseVersion.Less` | update_plugins.py:148 | Python 2's `<` on lists of numbers; see `LessIsLexicographic` and the order lemmas |
| `LooseVersion.Newer` | update_plugins.py:148 | `LooseVersion(a) > LooseVersion(b)` on digit-and-dot tags; see `NewerAsymmetric` and the order examples |
| `LooseVersion.LessIsLexicographic` | update_plugins.py:148 | the recursive comparison of component lists is exactly "proper prefix, or smaller at the first difference" |
| `LooseVersion.LessIrreflexive` | update_plugins.py:200 | no version is newer than itself, so an equal tag never triggers a switch |
| `LooseVersion.LessTransitive` | update_plugins.py:148 | the order is transitive |
| `LooseVersion.LessTotal` | update_plugins.py:148 | any two component lists are equal or ordered |
| `LooseVersion.NotLessTransitive` | update_plugins.py:148 | "not newer" is transitive |
| `LooseVersion.LessThenNotLess` | update_plugins.py:148 | a strict step followed by a non-strict one is strict |
| `LooseVersion.NotLessThenLess` | update_plugins.py:148 | a non-strict step followed by a strict one is strict |
| `LooseVersion.NewerAsymmetric` | update_plugins.py:200 | two tags are never each newer than the other |
| `LooseVersion.ZeroComponents` | update_plugins.py:120 | the start value "0.0" has components [0, 0] |
| `LooseVersion.NumericOrderExample` | update_plugins.py:148 | "1.10" is newer than "1.9" and not the other way round |
| `LooseVersion.LongerOrderExample` | update_plugins.py:148 | "1.2.0" is newer than "1.2" and not the other way round |
| `LooseVersion.LeadingZeroIgnored` | update_plugins.py:148 | "1.02" and "1.2" have the same components, [1, 2], so neither is newer than the other |
| `UpdatePlugins.GetSvnInfo` | update_plugins.py:49-112 | what `get_svn_info` returns for a directory; see `UnrecognisedOriginUntouched`, `TrunkOnlyUpdated` and `TaggedInfo` |
| `UpdatePlugins.Pick` | update_plugins.py:137-150 | whatever the selection loop returns as a tag matches `^[\.\d]+$` |
| `UpdatePlugins.NewestTag` | update_plugins.py:129-153 | what `get_newest_svn_tag` returns for a listing reply; see `GetNewestSvnTag`, `NewestTagIsMaximum` and `ListingFailures` |
| `UpdatePlugins.GetNewestSvnTag` | update_plugins.py:117-153 | the loop over the listing of `ListingUrl(repo)` returns exactly what the selection function gives, failures included |
| `UpdatePlugins.PickSelects` | update_plugins.py:145-150 | on complete entries the running maximum is the declarative one: no candidate is newer than the result, and the result is the start value or the first candidate reaching the maximum |
| `UpdatePlugins.NewestTagIsMaximum` | update_plugins.py:120-153 | a non-empty complete listing gives the LooseVersion maximum of the digit-and-dot names newer than "0.0", the earliest on ties |
| `UpdatePlugins.NoCandidateGivesStartValue` | update_plugins.py:120-121 | when no digit-and-dot name is newer than "0.0", the result is ("0.0", 0) |
| `UpdatePlugins.RunningBestNeverDecreases` | update_plugins.py:148-150 | the final best is never older than any intermediate best |
| `UpdatePlugins.FirstIncompleteEntryDecides` | update_plugins.py:137-143 | the first entry without a commit ends the run and the first without a name gives the failure pair; later entries are not read |
| `UpdatePlugins.FailedOrEmptyListing` | update_plugins.py:129-135 | a failed `svn list` ends the run and an empty listing gives the failure pair |
| `UpdatePlugins.ListingFailures` | update_plugins.py:137-143 | in a listing with an incomplete entry, an entry without a commit ends the run and an entry without a name gives the failure pair, whichever comes first |
| `UpdatePlugins.PickIgnoresRevisions` | update_plugins.py:145-150 | listings that differ only in revision numbers select the same tag |
| `UpdatePlugins.Issue` | update_plugins.py:39-45 | `run_cmd`: the command is issued, and a non-zero status exits the script; see `TrunkOnlyUpdated` and `UpdateSvnTrees` |
| `UpdatePlugins.Then` | update_plugins.py:183-201 | the next directory is handled only if the script did not exit on this one; see `ThenAssociative` and `UpdateSvnTrees` |
| `UpdatePlugins.ThenAssociative` | update_plugins.py:183-201 | running directories one after another is associative, so the loop can extend its result one directory at a time |
| `UpdatePlugins.TagNewer` | update_plugins.py:200 | LooseVersion's `>` as the per-directory decision uses it: exact on digit-and-dot tags and the environment's comparison otherwise; see `SwitchIffNewer` and `SwitchIsIdempotent` |
| `UpdatePlugins.TreeStep` | update_plugins.py:185-201 | one iteration of the loop of `update_svn_trees`; see `SwitchIffNewer`, `ListingFailureSkipsTree` and `SwitchIsIdempotent` |
| `UpdatePlugins.UpdateAll` | update_plugins.py:183-201 | the whole loop; see `UpdateSvnTrees` and `CommandsComeFromTrees` |
| `UpdatePlugins.UnrecognisedOriginUntouched` | update_plugins.py:84-90 | a directory whose origin is on neither host or matches no pattern gets no command |
| `UpdatePlugins.TrunkOnlyUpdated` | update_plugins.py:80-101 | a trunk working copy gets `svn update` and nothing else |
| `UpdatePlugins.TaggedInfo` | update_plugins.py:103-112 | a tagged origin with a commit yields the repository, the tag and the revision |
| `UpdatePlugins.SwitchIffNewer` | update_plugins.py:194-201 | a tagged directory is switched to the newest tag if and only if that tag is strictly newer than its current tag; otherwise it gets no command |
| `UpdatePlugins.ListingFailureSkipsTree` | update_plugins.py:194-197 | a listing failure pair skips the directory; a failed listing ends the run |
| `UpdatePlugins.RevisionsDoNotDecide` | update_plugins.py:179-201 | revision numbers in `svn info` and `svn list` never change what is done |
| `UpdatePlugins.SwitchIsIdempotent` | update_plugins.py:183-201 | after a switch, a second run with the same listing issues no command for that directory |
| `UpdatePlugins.UpdateSvnTrees` | update_plugins.py:174-201 | the loop over the directories issues exactly the commands of `UpdateAll`, stopping where the script exits |
| `UpdatePlugins.CommandsComeFromTrees` | update_plugins.py:183-201 | every command names one of the directories, and there are at most as many commands as directories |

## Left out

- The svn client itself (`run_cmd` and the `info`, `list`, `switch` and `update` calls) is not modelled. Its replies are inputs and its commands are outputs. A non-zero exit status is an abort.
- XML parsing with lxml is not modelled: the `url`, `commit` and `name` fields arrive already parsed. Malformed XML, an empty `<url/>` or `<name/>` (text `None`), and a non-numeric revision all raise exceptions; the model has no such inputs (an empty name is just a non-candidate here).
- The `os.path.isdir` checks are one input case, `NotWorkingCopy`. Enumerating directories with `glob`, the root check and the two calls for plugins and themes are left out, as is all `print` output.
- LooseVersion on strings other than digits and dots (letters, `-`, mixed int/str comparison in Python 2) belongs to distutils, which is not part of this model. The comparison at line 200 takes it as `Env.newer` whenever the current tag is not digits and dots. `SwitchIffNewer` is stated only for a current tag of digits and dots.
- The tag filter `^[\.\d]+$` is modelled as "non-empty, digits and dots only". Python's `$` also accepts one trailing newline. svn path names cannot contain a newline, so this case does not arise.
- `MatchTagged` checks for the host literally, but the regular expressions' unescaped dots match any character. Both agree here because `get_svn_info` only applies each pattern after `startswith` on the same host.
