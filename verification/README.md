# git-repos-scoring in Dafny

A model of the two pieces of git-repos-scoring that hold its logic:

- **The popularity ranker** (`rankRepositories`). It gives each repository record a score:
  stars + forks + watchers + a recency term of `max(0, 100 - days since the last update)`.
  It then sorts the scored records by score, highest first, with ties ordered by full name.
- **The pagination header parser** (`parseLinkHeader`). It turns a GitHub `Link` header such as
  `<https://…?page=2>; rel="next", <https://…?page=34>; rel="last"` into a map from relation name to URL.
  It throws when a comma-separated entry does not split on `;` into exactly two parts.

The model consists of pure functions over immutable values, in six modules:

| file | module | contents |
|---|---|---|
| `wrappers.dfy` | `Wrappers` | `Option` and `Result` |
| `text.dfy` | `TextOps` | JavaScript's `split` on one character, `trim` with JavaScript's whitespace set, and a join used as the inverse of split |
| `pattern.dfy` | `WrappedMatch` | `s.replace(/OPEN(.*)CLOSE/, '$1')`: the leftmost match, with a greedy `.*` that does not cross a line terminator, replaced once |
| `link_header.dfy` | `LinkHeader` | `parseLinkHeader` and its properties |
| `lex_order.dfy` | `LexOrder` | code-point lexicographic order on names |
| `ranker.dfy` | `Ranker` | `rankRepositories` and its properties |

Modelling decisions:

- The ranker reads the wall clock once per call, as the parameter `now`, and dates are integer milliseconds since the epoch.
  Dafny's `/` rounds down for a positive divisor, as `Math.floor` of the quotient does.
- `rankRepositories` returns new records, each spreading the input record and adding `popularity_score`.
  These are modelled as `RankedRepository(repo, popularityScore)`, which carries the input record unchanged.
- The source leaves the sort algorithm to the JavaScript engine. The model therefore states the result: a sorted permutation.
  It computes that result with an insertion sort, and `Ranker.RankIsUnique` proves that this contract alone determines the result when names identify records.
- `links[name] = url` on a plain JavaScript object has one quirk. The key `__proto__` hits the prototype setter, and a string value is ignored, so that key never appears in the result.
  `LinkHeader.Store` models this quirk.
- The header is `Option<string>`, and `None` stands for an absent header.
- The error message is the constant `section could not be split on ';'`, as the code throws it; it does not name the offending entry.
- Scores are exactly stars + forks + watchers + recency, as the code computes them. The three records of the first ranker test score 70, 80 and 70 before recency (`Ranker.RanksByScore`).

## Model

| member | source | states |
|---|---|---|
| `TextOps.Split` | services/githubService.js:41-42 | yields one more piece than there are separators in the string, and no piece contains the separator |
| `TextOps.JoinSplit` | services/githubService.js:41-42 | joining the pieces of a split with the separator gives back the original string, so splitting loses nothing |
| `TextOps.SplitJoin` | services/githubService.js:41-42 | splitting a join of separator-free pieces gives back exactly those pieces |
| `TextOps.SplitNoSeparator` | services/githubService.js:41-42 | a string without the separator splits into itself alone |
| `TextOps.Trim` | services/githubService.js:46-47 | the result is no longer than the input, neither starts nor ends with whitespace, and is empty for all-whitespace input |
| `TextOps.TrimPadded` | services/githubService.js:46-47 | trimming whitespace padding around a trimmed text gives that text |
| `WrappedMatch.GreedyClose` | services/githubService.js:46-47 | finds the last closing character before the end of the line, i.e. the greedy `.*`; none when the line holds none |
| `WrappedMatch.FindMatch` | services/githubService.js:46-47 | the match found starts at the leftmost position where any match starts and is the longest match from there; none when no match exists |
| `WrappedMatch.ReplaceWrapped` | services/githubService.js:46-47 | leaves the text unchanged when the pattern does not match; otherwise removes the opener and closer of the leftmost-longest match and keeps everything else |
| `WrappedMatch.ReplaceAtLeftmostLongest` | services/githubService.js:46-47 | any match with no opener before it and no longer match from the same start is the one replaced |
| `WrappedMatch.ReplaceWrappedPadded` | services/githubService.js:46-47 | a single-line text wrapped in the opener and closer, with whitespace around, loses just the wrapper |
| `LinkHeader.ParseEntry` | services/githubService.js:42-47 | an entry fails exactly when it does not split on `;` into two parts; a parsed URL and relation are trimmed |
| `LinkHeader.Store` | services/githubService.js:48 | the keys afterwards are the earlier keys plus the relation, unless it is `__proto__`; the relation then maps to its URL, replacing any earlier one, and every other key keeps its value |
| `LinkHeader.UrlOfPadded` | services/githubService.js:46 | `<u>` with whitespace around yields the URL `u` when `u` is trimmed and on one line |
| `LinkHeader.RelOfPadded` | services/githubService.js:47 | `rel="n"` with whitespace around yields the name `n` when `n` is trimmed and on one line |
| `LinkHeader.EntryOfPadded` | services/githubService.js:42-47 | an entry `<u>; rel="n"` with any whitespace padding parses to relation `n` with URL `u` |
| `LinkHeader.Collect` | services/githubService.js:41-49 | fails with the constant message exactly when some entry failed; a success has at most one key per entry |
| `LinkHeader.CollectKeys` | services/githubService.js:41-51 | the keys of a success are exactly the relations of the entries, other than `__proto__` |
| `LinkHeader.CollectLastWins` | services/githubService.js:41-48 | a relation maps to the URL of the last entry naming it |
| `LinkHeader.ParseLinkHeader` | services/githubService.js:33-52 | an absent or empty header gives the empty map; otherwise the parse fails exactly when some comma-separated entry does not split on `;` into two parts, and then with the constant message |
| `LinkHeader.ParsedKeys` | services/githubService.js:41-51 | a non-empty header whose comma-separated entries all split on `;` into two parts parses successfully; its keys are exactly the relations those entries name, other than `__proto__`, so there are no more keys than entries |
| `LinkHeader.ParsedLastWins` | services/githubService.js:41-48 | a header made of comma-free entries that each split on `;` into two parts parses successfully, and each relation other than `__proto__` maps to the URL of the last entry naming it |
| `LinkHeader.HeaderOfTwo` | services/githubService.js:41-49 | two well-formed comma-free entries joined by a comma are stored in order, the second after the first |
| `LinkHeader.ParseSingleEntry` | services/githubService.js:33-52 | the header `<u>; rel="n"` parses to `{n: u}` |
| `LinkHeader.ParseFirstPageHeader` | test/services/githubService.test.js:22-31 | `<https://api.github.com/search/repositories?page=2>; rel="next"` parses to that URL under `next` |
| `LinkHeader.ParseRepeatedRel` | services/githubService.js:41-48 | of two entries naming the same relation, the URL of the later one is kept |
| `LinkHeader.TwoEntriesSameRel` | services/githubService.js:41-48 | the header `<u1>; rel="n", <u2>; rel="n"` parses to `{n: u2}` |
| `LinkHeader.ParseRepeatedNext` | services/githubService.js:41-48 | with two `next` links for pages 2 and 34, the page 34 link is the one kept |
| `LexOrder.LexLeMeaning` | lib/ranker.js:33 | a name sorts no later than another exactly when it is a prefix of it or is smaller at the first difference |
| `LexOrder.LexLeReflexive` | lib/ranker.js:33 | every name sorts no later than itself |
| `LexOrder.LexLeTotal` | lib/ranker.js:33 | of any two names one sorts no later than the other |
| `LexOrder.LexLeAntisymmetric` | lib/ranker.js:33 | two names that each sort no later than the other are equal |
| `LexOrder.LexLeTransitive` | lib/ranker.js:33 | the name order is transitive |
| `Ranker.DaysSinceUpdate` | lib/ranker.js:13-15 | the whole days `d` since the update satisfy `d` days <= elapsed time < `d + 1` days |
| `Ranker.RecencyScore` | lib/ranker.js:15-16 | never negative; at most 100 for an update in the past; zero exactly when 100 days or more have passed; a positive score `r` means `100 - r` whole days have passed |
| `Ranker.Score` | lib/ranker.js:7-19 | at least stars + forks + watchers, at most 100 more for an update in the past, and equal to the counts exactly when the update is 100 days old or more |
| `Ranker.RecencyMonotone` | lib/ranker.js:15-16 | a later update never earns a lower recency score |
| `Ranker.PrecedesTotal` | lib/ranker.js:29-34 | the comparator orders any two records one way or the other |
| `Ranker.PrecedesTransitive` | lib/ranker.js:29-34 | the comparator's order is transitive |
| `Ranker.Insert` | lib/ranker.js:29-34 | inserting into a sorted sequence keeps it sorted and adds exactly the one record |
| `Ranker.SortRanked` | lib/ranker.js:29-34 | the result is a sorted permutation of its input |
| `Ranker.AdjacentToPairwise` | lib/ranker.js:29-34 | order between neighbours implies order between every earlier and later pair |
| `Ranker.Rank` | lib/ranker.js:6-37 | the output has the input's length, is a permutation of the scored input records, is sorted by score descending then name ascending, and each record is an input record carrying its own score |
| `Ranker.RankPermutes` | lib/ranker.js:21-27 | the records in the output, without their scores, are exactly the input records, with multiplicity |
| `Ranker.SortedUnique` | lib/ranker.js:29-34 | two sorted arrangements of the same records are equal when names identify records |
| `Ranker.RankIsUnique` | lib/ranker.js:6-37 | any sorted permutation of the scored records is the ranker's output, when names identify records |
| `Ranker.HigherScoreFirst` | lib/ranker.js:29-32 | a record with a higher score stands earlier |
| `Ranker.TiesByName` | lib/ranker.js:33 | of two records with equal scores the one standing earlier has the name that sorts first |
| `Ranker.MoreRecentNeverBelow` | lib/ranker.js:15-16 | with equal stars, forks and watchers, the more recently updated record stands below only when both scores tie and its name sorts after |
| `Ranker.RanksByScore` | test/lib/ranker.test.js:5-15 | repo1, repo2 and repo3 updated on 2024-06-01 rank as repo2, repo1, repo3 at any time |
| `Ranker.TiesRankByName` | test/lib/ranker.test.js:17-27 | three records with equal statistics rank as repoA, repoB, repoC |
| `Ranker.RecentRanksFirst` | test/lib/ranker.test.js:29-37 | a record updated now ranks above an identical one last updated on 2022-06-01 |
| `Ranker.RankEmpty` | test/lib/ranker.test.js:39-43 | an empty list ranks to an empty list |

## Left out

- `fetchRepositories` (services/githubService.js:65-87) and `logApiError` (services/githubService.js:13-24) are left out: they do network I/O through axios, read environment variables and log to the console.
- The Express controller, routes and server setup are left out: they are HTTP plumbing.
- Parsing ISO-8601 `updated_at` strings is left out, as is the `NaN` a malformed date produces. Timestamps are integers.
- The subtraction and division of dates are floating-point in JavaScript. The model uses exact integer division and does not model floating-point rounding.
- Counts are unbounded integers. JavaScript numbers lose precision above 2^53; that is not modelled.
- `Ranker.Precedes`: `localeCompare` collates by locale; the model orders names by code point. Under the Unicode root collation the two orders agree on names built from letters of a single case, digits, `-`, `.` and `/` (`repoA` < `repoB`). They disagree on `_`, which the collation sorts before `-`, digits and letters but which comes after all of them by code point (`o/a_1` against `o/a1`), and on names that mix letter case.
- `Ranker.Rank`: the source reads the clock once per record (`new Date()` in `calculateScore`, lib/ranker.js:14, called through the `map` at lib/ranker.js:21-22); the model reads it once per call. A run that crosses a day boundary within 100 days of an update can give an earlier-scored record one more recency point than a later one with the same update time.
- `Ranker.Rank`: when two records share both score and name, the contract allows either order. The insertion sort keeps input order, as JavaScript's stable sort does, but stability is not stated as a property.
- `Ranker.RankIsUnique` is stated for inputs in which names identify records. GitHub full names are unique.
- A `popularity_score` field already present on an input record would be overwritten by the spread. Input records here have no such field.
- `LinkHeader.ParseLinkHeader`: `!header` also treats `null`, `0` and other falsy values as absent. Only an absent header and the empty string are modelled. A non-string header (an array, say) is not modelled.
- `LinkHeader.Store`: keys that collide with other `Object.prototype` members (`constructor`, `toString`) are ordinary own properties and are modelled as such. Only `__proto__` is special.
- JavaScript strings are sequences of UTF-16 code units. The model uses `char` sequences: code points, without surrogate pairs.
