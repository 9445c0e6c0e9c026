# coders: commit emails and their GitHub profiles, modelled in Dafny

`main.py` clones a GitHub repository, counts the commits of every author email
in the output of `git log` (one `email`, bar, `sha` line per commit), sorts the emails by commit count, and
prints the top `--limit` of them with a GitHub profile URL for each. It finds
the URL in two ways. First it matches the part of the email before `@`
against the contributors' logins, ignoring case. When that gives nothing, it
asks the GitHub API for the author of the email's sample commit, through a
cache of earlier answers.

This project models the computational core of that script and proves what it
computes.

- `GithubUrl` (`github_url.dfy`): `parse_github_url`.
  - Both anchored regular expressions are matched by hand, by positions.
  - The owner group runs to the first `/`.
  - The lazy repository group is the shortest one that is followed by an allowed tail.
  - Python's `$` matches before a final newline, and `.` does not match a newline.
- `CommitStats` (`commit_stats.dfy`): the loop of `get_commit_email_stats`.
  - The `defaultdict` is a map plus its keys in insertion order.
  - The loop is a method over those two values, proved equal to a recursive specification.
  - That specification is proved to count, pick the first non-empty sha, and order keys by first appearance.
- `Ranking` (`ranking.dfy`): the stable `sorted(..., reverse=True)[:limit]` of line 162.
  - It is written as an insertion sort.
  - The sort is proved ordered, a permutation, and order-preserving among equal counts.
  - The default `--limit` is `Ranking.DefaultLimit`, 20 (main.py:139); `Ranking.DefaultLimitShown` states what it shows.
- `ProfileLookup` (`profile_lookup.dfy`): `lookup_profile_from_commit` and the login heuristic of the report loop.
  - The repository object is a class. It has a ghost counter of `get_commit` requests, so that "no request on a cache hit" can be stated.
  - The cache is an object whose map the lookup updates in place.
- `Report` (`report.dfy`): the report loop of `main` and `main` as a whole without its I/O.
  - Printed lines are collected as rows.
- `PyStr` (`pystr.dfy`): the Python string operations the script uses.
  - `strip` over the `str.isspace` characters, `split`, `split(c, 1)`, `split(c)[0]`, `lower` and `s[:n]`.
- `Wrappers` (`wrappers.dfy`): `Option` and `Result`.

The model follows `main.py` as written. `--limit` defaults to 20; an absent
limit does not mean "unlimited". The script has no display name, blog or
LinkedIn fields, minimum-commit filter or CSV output, so none are modelled.
The profile cache is keyed by the bare commit sha.

## Model

| member | source | states |
|---|---|---|
| GithubUrl.TailStrings | main.py:15-20 | what may follow the repository group is exactly `""`, `/`, `.git`, `.git/` (HTTPS) or `""`, `.git` (SSH), each optionally followed by one final newline |
| GithubUrl.OwnerEndsAtFirstSlash | main.py:15-20 | in any match, the owner group ends at the first `/` after the literal prefix |
| GithubUrl.MatchPositions | main.py:15-22 | the positions it returns are a match whose repository group is the shortest of all matches; None only when the pattern matches nowhere |
| GithubUrl.MatchPattern | main.py:15-22 | `re.match` with its groups: Some exactly when the pattern matches, and then the owner and repository of the lazy match |
| GithubUrl.ParseGithubUrl | main.py:12-24 | fails exactly when neither pattern matches, with message `Invalid GitHub URL format: ` + url; otherwise gives the HTTPS groups, or the SSH groups when HTTPS does not match |
| GithubUrl.GroupsParts | main.py:15-22 | the groups of a match are a non-empty owner without `/` and a non-empty repository of the pattern's allowed characters |
| GithubUrl.ParsedParts | main.py:15-24 | a successful parse has a non-empty owner without `/` and a non-empty repository; an HTTPS repository has no `/`, an SSH one no newline |
| GithubUrl.LazyMatchUnique | main.py:15-22 | on a URL ending in `.git`, the lazy match is the one whose tail is that `.git` |
| GithubUrl.RoundTrip | main.py:15-22 | either pattern applied to prefix + owner + `/` + repo + `.git` gives back `(owner, repo)` |
| GithubUrl.HttpsRoundTrip | main.py:15-17 | `https://github.com/O/R.git` parses to `(O, R)` for non-empty O and R without `/` |
| GithubUrl.SshRoundTrip | main.py:19-22 | `git@github.com:O/R.git` parses to `(O, R)` for non-empty O without `/` and non-empty R without newline, `/` in R allowed |
| PyStr.Strip | main.py:72-77 | the result is a piece of the input with only whitespace before and after it, has no whitespace at either end, and is empty only when the input is all whitespace |
| PyStr.StripUnique | main.py:72-77 | those properties determine the result: any piece of the input that meets them is the stripped string |
| PyStr.TrimmedStrip | main.py:76-77 | stripping a string without whitespace at its ends leaves it unchanged |
| PyStr.StripIdempotent | main.py:73-77 | stripping twice is stripping once |
| PyStr.StripChars | main.py:72-73 | every character of the stripped string is a character of the input |
| PyStr.IndexOf | main.py:74-75 | the first position of `c`, or None exactly when `c` does not occur |
| PyStr.SplitOnce | main.py:75 | `split(c, 1)`: the input is the first part, `c`, the second part, and the first part has no `c` |
| PyStr.Split | main.py:72 | `split(sep)`: at least one part, no part contains `sep`, and joining the parts with `sep` gives back the input |
| PyStr.SplitChars | main.py:72 | every character of a part is a character of the input |
| PyStr.BeforeFirst | main.py:172 | `split(c)[0]`: the longest prefix without `c` |
| PyStr.Lower | main.py:172-174 | same length; each character is lower-cased |
| PyStr.Take | main.py:182 | `s[:n]`: a prefix of at most `n` characters, the whole string when it is shorter |
| CommitStats.Lines | main.py:72 | `stdout.strip().split('\n')`: at least one line, none containing a newline, and joined with newlines they give back the stripped output |
| CommitStats.ParseLine | main.py:73-77 | gives an entry exactly when the stripped line contains a bar character; the entry is the stripped text before and after the first bar character, so both parts are stripped |
| CommitStats.Entries | main.py:72-77 | at most one entry per line, and each entry is what some line parses to |
| CommitStats.EntriesStripped | main.py:76 | every entry's email is stripped |
| CommitStats.ShaMayContainBar | main.py:75 | only the first bar character splits a line: the line `a`, bar, `b`, bar, `c` gives email `a` and sha `b`, bar, `c` |
| CommitStats.NoBarLineIgnored | main.py:74 | a line without a bar character adds no entry, so no key and no count changes |
| CommitStats.NoBarNoStats | main.py:72-74 | output without a bar character, the empty output included, gives an empty dict |
| CommitStats.AggregateKeys | main.py:70-78 | the keys are the emails of the entries, each listed once in the insertion order |
| CommitStats.AggregateCounted | main.py:78 | every key has at least one commit |
| CommitStats.AggregateCounts | main.py:78 | each email's `commits` is the number of entries with that email |
| CommitStats.AggregateShas | main.py:79-80 | each email's `sha` is its first non-empty sha in log order, or "" when all are empty |
| CommitStats.AggregateOrder | main.py:70-78 | the insertion order is the order in which emails first appear in the log |
| CommitStats.AggregateEntries | main.py:70-82 | the loop adds at most one key per entry |
| CommitStats.Aggregate | main.py:63-82 | the returned dict has at most one key per output line |
| CommitStats.AggregateEntriesCorrect | main.py:70-82 | the dict summarizes its entries: keys, counts of at least 1, first non-empty shas, first-seen order |
| CommitStats.KeysStripped | main.py:76 | when every entry's email is stripped, so is every key |
| CommitStats.AggregateCorrect | main.py:70-82 | the result for a `git log` output summarizes the entries of its lines, and every key is stripped |
| CommitStats.RecordCommit | main.py:78-80 | the defaultdict update: one more commit for the email, its first non-empty sha kept, a new key appended to the order |
| CommitStats.GetCommitEmailStats | main.py:70-82 | the loop returns the specified dict, which has consistent keys and counts of at least 1 |
| Ranking.Items | main.py:162 | `email_stats.items()`: one `(email, stats)` pair per key, in insertion order |
| Ranking.InsertPermutes | main.py:162 | inserting adds exactly the one item |
| Ranking.InsertSorted | main.py:162 | inserting into a list ordered by commits keeps it ordered |
| Ranking.SortByCommits | main.py:162 | `sorted` keeps the number of items |
| Ranking.SortByCommitsCorrect | main.py:162 | the sort is non-increasing in commits, is a permutation of its input, and keeps the input order among items with the same count (stability) |
| Ranking.TopN | main.py:162 | `[:limit]` keeps `min(limit, n)` items |
| Ranking.TopNCorrect | main.py:162 | `[:limit]` keeps the first `min(limit, n)` items of the sorted list, ordered by commits and drawn from the input, and the first-in-order items of each count |
| Ranking.SplitOrdered | main.py:162 | in a list ordered by commits, no item after a cut has more commits than an item before it |
| Ranking.TopNLargest | main.py:162 | no item left out by `[:limit]` has more commits than an item kept |
| Ranking.TopNEntries | main.py:162 | every shown entry is an `(email, stats)` item of the dict, and there are `min(limit, #emails)` of them |
| Ranking.TopNDistinct | main.py:162 | no email is shown twice |
| Ranking.TopNOmitted | main.py:162 | an email of the dict that is not shown has no more commits than any email shown |
| Ranking.TopNShown | main.py:162 | the shown entries are `min(limit, #emails)` distinct items of the dict, ordered by commits, with no email left out that has more commits than one shown |
| Ranking.DefaultLimitShown | main.py:139 | under the default `--limit` of 20 (the slice at main.py:162), every email is shown when there are at most 20, else the 20 with the most commits |
| ProfileLookup.Repository.CommitAuthorUrl | main.py:126-130 | gives the commit author's profile URL ("" without author) and counts one request |
| ProfileLookup.CachedLookup | main.py:119-133 | a hit returns the cached value with no request and no change; a miss makes one request, caches its answer and keeps every other entry |
| ProfileLookup.CachedLookupIdempotent | main.py:121-123 | a second lookup of the same sha makes no request and changes nothing |
| ProfileLookup.CachedLookupCoherent | main.py:121-133 | from a cache that agrees with the API, the lookup gives the API's answer and the cache keeps agreeing |
| ProfileLookup.LookupProfileFromCommit | main.py:119-133 | the in-place lookup returns, stores and counts requests as CachedLookup says |
| ProfileLookup.EmailUser | main.py:172 | the user part is the lower-cased prefix of the email up to its first `@` (the whole email when it has none): it has no `@` and no upper-case letter, and the character after it, if any, is `@` |
| ProfileLookup.FirstLoginMatch | main.py:173-176 | the first login whose lower-cased form is the user part, or None exactly when there is none |
| ProfileLookup.LoginGuessCorrect | main.py:171-176 | a non-empty guess is the URL of a login whose lower-cased form is the user part; with no such login the guess is "" |
| ProfileLookup.MatchLogin | main.py:171-176 | the `for ... break` loop returns the URL of the first matching login, or "" |
| ProfileLookup.MatchExample | main.py:172-176 | `Jo@x.com` matches the login `jo`, not `jon` |
| ProfileLookup.ResolveProfile | main.py:171-180 | a non-empty guess is shown with no request and the cache untouched; an empty one falls back to the cached lookup |
| ProfileLookup.ResolveProfileCalls | main.py:171-180 | at most one request, made exactly when the guess is empty and the sha is not cached; only then does the cache change, by that one entry |
| ProfileLookup.ResolveProfileCoherent | main.py:171-180 | from a cache that agrees with the API, the profile is the guess when non-empty and otherwise the commit author's URL, and the cache keeps agreeing |
| ProfileLookup.ResolveProfileFrom | main.py:119-133 | from any cache grown from the loaded one by lookups, the profile is the guess when non-empty, else the loaded entry for the sha (stale or not), else the API's answer; the cache keeps every loaded entry and adds only API answers |
| ProfileLookup.Resolve | main.py:171-180 | the method returns, stores and counts requests as ResolveProfile says |
| Report.ShownRow | main.py:182 | a printed line shows `email.strip()`, the commit count, `sha.strip()[:12]` (at most 12 characters) and the profile |
| Report.Rows | main.py:169-182 | one line per shown entry, in order, each with that entry's stripped email, first 12 characters of its stripped sha, commit count and profile |
| Report.ResolveAll | main.py:169-180 | one profile per shown entry |
| Report.ResolveAllCache | main.py:169-180 | across the loop, old cache entries are kept, each request adds one new entry, and there are at most as many requests as rows |
| Report.ResolveAllProfiles | main.py:169-180 | from a cache that agrees with the API, each row's profile is its guess or its sample commit's author, and the cache keeps agreeing |
| Report.ResolveAllProfilesFrom | main.py:169-180 | from any loaded cache (main.py:159), stale entries included, each row's profile is its guess, else the loaded entry for its sha, else the API's answer; the cache keeps every loaded entry and adds only API answers |
| Report.ExpectedCoherent | main.py:121-133 | from a cache that agrees with the API, that profile is the guess or the sample commit's author |
| Report.StaleEntryShown | main.py:121-123 | a stale loaded entry is shown as loaded, with no request, although the API now answers differently |
| Report.RowsOrdered | main.py:169-182 | rows of entries ordered by commits are ordered the same way |
| Report.RowsSnoc | main.py:182 | each entry adds its line at the end |
| Report.ReportRows | main.py:169-182 | the loop's rows, cache and request count are those of ResolveAll |
| Report.TopEmailsReport | main.py:150-182 | `main` without I/O: the statistics of the log, the top `limit` entries, and their rows, cache and request count |
| Report.ReportOf | main.py:162-182 | for any dict and any loaded cache, the report shows the entries described by TopNShown, one row each, with the stripped email and short sha of its entry (the email itself when the keys are stripped), ordered by commits; each row shows its guess, else the loaded entry for its sha, else the API's answer; at most one request per row; loaded entries are kept and only API answers added; from a cache that agrees with the API, each row shows its guess or its commit's author and the cache keeps agreeing |
| Report.ReportCorrect | main.py:150-182 | the same for the dict built from the `git log` output, whose keys are stripped, from any loaded cache: `min(limit, #emails)` rows of distinct entries, largest counts first, none left out with more commits than one shown, each showing its entry's email and short sha and the profile described for ReportOf |
| Report.ReportEmails | main.py:169-182 | from any loaded cache, each row of that report shows the email of its dict entry exactly as stored |

## Left out

- `clone_or_update_repo` (main.py:27-59) is not part of this model. It is git subprocesses and filesystem operations. Its cache directory is named `owner_repo` from the parsed URL (main.py:31).
- Running `git log` and the `RuntimeError` on a non-zero exit (main.py:64-68) are not modelled. The command's standard output is the input string of `CommitStats.GetCommitEmailStats`.
- `get_github_contributors` (main.py:84-103) is network access through PyGithub. The `login_to_profile` dict is an input sequence of `(login, url)` pairs in the dict's order.
- `repository.get_commit` (main.py:126) is a total function `authorUrl` from sha to profile URL, "" when the commit has no author. Network errors, unknown shas and the API rate limit raise exceptions in the script; these are not modelled.
- `load_profile_cache` and `save_profile_cache` (main.py:105-117), and the final save (main.py:185), are JSON file I/O. The cache is the in-memory map of a `ProfileCache` object.
- Argument parsing, the `GITHUB_TOKEN` fallback, the cache directory and every `print` (main.py:122, 125, 136-167, 182) are left out. The report's column padding is left out too; a row carries the printed values.
- `Repository.apiCalls` is a ghost counter the script does not have. It exists only to state how many requests are made.
- PyStr.Lower: lower-cases ASCII letters only; Python's `str.lower` also maps non-ASCII letters.
- ProfileLookup.EmailUser: inherits the ASCII-only lower-casing of `PyStr.Lower`.
- Ranking.TopNCorrect: `limit` is a natural number; Python slicing with a negative `--limit` drops entries from the end, which is not modelled.
- Report.ResolveAll: its own contract gives only the number of profiles; the rest is stated by ResolveAllCache and, for any loaded cache, ResolveAllProfilesFrom.
