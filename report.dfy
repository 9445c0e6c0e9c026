/**
 * The report loop of `main`: for each of the top entries, the profile is
 * resolved (login guess, else cached commit lookup) and one line is shown
 * with the stripped email, the commit count, the first 12 characters of the
 * stripped sample sha, and the profile. Lines are collected as rows instead
 * of printed.
 */
module Report {
  import opened PyStr
  import opened CommitStats
  import opened Ranking
  import opened ProfileLookup

  /** One line of the report. */
  datatype Row = Row(email: string, commits: nat, shortSha: string, profile: string)

  /** The profiles resolved so far, the profile cache, and the number of API requests made. */
  datatype Outcome = Outcome(profiles: seq<string>, cache: map<string, string>, calls: nat)

  /** The line shown for an entry: `email.strip()`, the count, `sha.strip()[:12]`, the profile. */
  function ShownRow(item: Item, profile: string): (r: Row)
    ensures r.email == Strip(item.0) && Trimmed(r.email)
    ensures r.shortSha == Take(Strip(item.1.sha), 12) && |r.shortSha| <= 12
    ensures r.commits == item.1.commits && r.profile == profile
  {
    Row(Strip(item.0), item.1.commits, Take(Strip(item.1.sha), 12), profile)
  }

  /** The lines shown for the entries `top` with their resolved profiles. */
  function Rows(top: seq<Item>, profiles: seq<string>): (rows: seq<Row>)
    requires |profiles| == |top|
    ensures |rows| == |top|
    ensures forall i :: 0 <= i < |rows| ==> rows[i].commits == top[i].1.commits && rows[i].profile == profiles[i]
    ensures forall i :: 0 <= i < |rows| ==>
      rows[i].email == Strip(top[i].0) && rows[i].shortSha == Take(Strip(top[i].1.sha), 12)
  {
    seq(|top|, i requires 0 <= i < |top| => ShownRow(top[i], profiles[i]))
  }

  /** One pass of the loop body: resolve the entry's profile against the current cache. */
  function Step(prev: Outcome, item: Item, logins: seq<(string, string)>, authorUrl: string -> string): Outcome {
    var r := ResolveProfile(item.0, item.1.sha, logins, prev.cache, authorUrl);
    Outcome(prev.profiles + [r.profile], r.cache, prev.calls + r.calls)
  }

  /** The profile lookups of the report loop over `top`, the cache passed from each to the next. */
  function ResolveAll(top: seq<Item>, logins: seq<(string, string)>,
                      cache: map<string, string>, authorUrl: string -> string): (o: Outcome)
    ensures |o.profiles| == |top|
  {
    if top == [] then Outcome([], cache, 0)
    else Step(ResolveAll(top[..|top| - 1], logins, cache, authorUrl), top[|top| - 1], logins, authorUrl)
  }

  /**
   * Old cache entries are kept, and every API request adds one new cache
   * entry, so no sha is requested twice and there are at most as many
   * requests as rows.
   */
  lemma {:induction false} ResolveAllCache(top: seq<Item>, logins: seq<(string, string)>,
                                           cache: map<string, string>, authorUrl: string -> string)
    ensures var o := ResolveAll(top, logins, cache, authorUrl);
      && (forall s :: s in cache ==> s in o.cache && o.cache[s] == cache[s])
      && |o.cache.Keys| == |cache.Keys| + o.calls
      && o.calls <= |top|
  {
    if top != [] {
      var init := top[..|top| - 1];
      ResolveAllCache(init, logins, cache, authorUrl);
      var prev := ResolveAll(init, logins, cache, authorUrl);
      var item := top[|top| - 1];
      ResolveProfileCalls(item.0, item.1.sha, logins, prev.cache, authorUrl);
    }
  }

  /** The profile row `i` should show when the cache agrees with the API. */
  function Expected(item: Item, logins: seq<(string, string)>, authorUrl: string -> string): string {
    var guess := LoginGuess(logins, item.0);
    if guess != "" then guess else authorUrl(item.1.sha)
  }

  /**
   * Starting from a cache that agrees with the API, each row shows the login
   * guess when there is one and otherwise the author of the entry's sample
   * commit, and the cache still agrees with the API afterwards.
   */
  lemma ResolveAllProfiles(top: seq<Item>, logins: seq<(string, string)>,
                            cache: map<string, string>, authorUrl: string -> string)
    requires Coherent(cache, authorUrl)
    ensures var o := ResolveAll(top, logins, cache, authorUrl);
      && Coherent(o.cache, authorUrl)
      && forall i :: 0 <= i < |top| ==> o.profiles[i] == Expected(top[i], logins, authorUrl)
  {
    ResolveAllProfilesFrom(top, logins, cache, authorUrl);
    var o := ResolveAll(top, logins, cache, authorUrl);
    forall i | 0 <= i < |top| ensures o.profiles[i] == Expected(top[i], logins, authorUrl) {
      ExpectedCoherent(cache, top[i], logins, authorUrl);
    }
  }

  /**
   * The profile row `i` shows when the report starts from the loaded cache
   * `cache0`, stale entries included: the login guess, else the loaded entry
   * for the sample sha, else the API's answer.
   */
  function ExpectedFrom(cache0: map<string, string>, item: Item, logins: seq<(string, string)>,
                        authorUrl: string -> string): string {
    var guess := LoginGuess(logins, item.0);
    if guess != "" then guess else ProfileFrom(cache0, item.1.sha, authorUrl)
  }

  /** From a cache that agrees with the API, ExpectedFrom is Expected. */
  lemma ExpectedCoherent(cache0: map<string, string>, item: Item, logins: seq<(string, string)>,
                         authorUrl: string -> string)
    requires Coherent(cache0, authorUrl)
    ensures ExpectedFrom(cache0, item, logins, authorUrl) == Expected(item, logins, authorUrl)
  {
  }

  /**
   * From any loaded cache, each row shows ExpectedFrom for its entry, and the
   * cache afterwards keeps every loaded entry and adds only API answers.
   */
  lemma {:induction false} ResolveAllProfilesFrom(top: seq<Item>, logins: seq<(string, string)>,
                                                  cache: map<string, string>, authorUrl: string -> string)
    ensures var o := ResolveAll(top, logins, cache, authorUrl);
      && ExtendsWithApi(o.cache, cache, authorUrl)
      && forall i :: 0 <= i < |top| ==> o.profiles[i] == ExpectedFrom(cache, top[i], logins, authorUrl)
  {
    if top != [] {
      var init := top[..|top| - 1];
      ResolveAllProfilesFrom(init, logins, cache, authorUrl);
      var prev := ResolveAll(init, logins, cache, authorUrl);
      var item := top[|top| - 1];
      ResolveProfileFrom(item.0, item.1.sha, logins, prev.cache, cache, authorUrl);
      var r := ResolveProfile(item.0, item.1.sha, logins, prev.cache, authorUrl);
      ProfilesFromSnoc(top, prev.profiles, r.profile, logins, cache, authorUrl);
    }
  }

  lemma ProfilesFromSnoc(top: seq<Item>, ps: seq<string>, p: string, logins: seq<(string, string)>,
                         cache: map<string, string>, authorUrl: string -> string)
    requires |top| == |ps| + 1
    requires forall i :: 0 <= i < |ps| ==> ps[i] == ExpectedFrom(cache, top[..|ps|][i], logins, authorUrl)
    requires p == ExpectedFrom(cache, top[|ps|], logins, authorUrl)
    ensures forall i :: 0 <= i < |top| ==> (ps + [p])[i] == ExpectedFrom(cache, top[i], logins, authorUrl)
  {
    forall i | 0 <= i < |top| ensures (ps + [p])[i] == ExpectedFrom(cache, top[i], logins, authorUrl) {
      if i < |ps| {
        assert top[..|ps|][i] == top[i];
      }
    }
  }

  /** A stale loaded entry is shown as loaded, with no request, even when the API now answers differently. */
  lemma StaleEntryShown()
    ensures var o := ResolveAll([("a@x", Stat(1, "s1"))], [], map["s1" := "old"], _ => "now");
      o.profiles == ["old"] && o.calls == 0
  {
    var top := [("a@x", Stat(1, "s1"))];
    assert top[..0] == [];
    assert LoginGuess([], "a@x") == "";
  }

  /** Rows of a list ordered by commits are ordered the same way. */
  lemma RowsOrdered(top: seq<Item>, profiles: seq<string>)
    requires NonIncreasing(top) && |profiles| == |top|
    ensures var rows := Rows(top, profiles);
      forall i, j :: 0 <= i < j < |rows| ==> rows[i].commits >= rows[j].commits
  {
  }

  /** One more entry adds its line at the end. */
  lemma RowsSnoc(top: seq<Item>, profiles: seq<string>, i: nat, profile: string)
    requires i < |top| && |profiles| == i
    ensures Rows(top[..i + 1], profiles + [profile]) == Rows(top[..i], profiles) + [ShownRow(top[i], profile)]
  {
    var a := Rows(top[..i + 1], profiles + [profile]);
    var b := Rows(top[..i], profiles) + [ShownRow(top[i], profile)];
    forall k | 0 <= k < |a| ensures a[k] == b[k] {
      RowsSnocAt(top, profiles, i, profile, k);
    }
  }

  lemma RowsSnocAt(top: seq<Item>, profiles: seq<string>, i: nat, profile: string, k: nat)
    requires i < |top| && |profiles| == i && k <= i
    ensures Rows(top[..i + 1], profiles + [profile])[k] == (Rows(top[..i], profiles) + [ShownRow(top[i], profile)])[k]
  {
    if k < i {
      assert top[..i + 1][k] == top[..i][k] && (profiles + [profile])[k] == profiles[k];
    }
  }

  lemma ResolveAllStep(top: seq<Item>, i: nat, logins: seq<(string, string)>,
                       cache: map<string, string>, authorUrl: string -> string)
    requires i < |top|
    ensures ResolveAll(top[..i + 1], logins, cache, authorUrl)
      == Step(ResolveAll(top[..i], logins, cache, authorUrl), top[i], logins, authorUrl)
  {
    assert top[..i + 1][..i] == top[..i];
  }

  /** The `for email, stats in sorted_emails` loop, with its prints collected as rows. */
  method ReportRows(top: seq<Item>, logins: seq<(string, string)>,
                    repository: Repository, cache: ProfileCache) returns (rows: seq<Row>)
    modifies repository, cache
    ensures var o := ResolveAll(top, logins, old(cache.entries), repository.authorUrl);
      && rows == Rows(top, o.profiles)
      && cache.entries == o.cache
      && repository.apiCalls == old(repository.apiCalls) + o.calls
  {
    rows := [];
    for i := 0 to |top|
      invariant var o := ResolveAll(top[..i], logins, old(cache.entries), repository.authorUrl);
        && rows == Rows(top[..i], o.profiles)
        && cache.entries == o.cache
        && repository.apiCalls == old(repository.apiCalls) + o.calls
    {
      ResolveAllStep(top, i, logins, old(cache.entries), repository.authorUrl);
      RowsSnoc(top, ResolveAll(top[..i], logins, old(cache.entries), repository.authorUrl).profiles, i,
               ResolveProfile(top[i].0, top[i].1.sha, logins, cache.entries, repository.authorUrl).profile);
      var (email, stats) := top[i];
      var profile := Resolve(email, stats.sha, logins, repository, cache);
      rows := rows + [Row(Strip(email), stats.commits, Take(Strip(stats.sha), 12), profile)];
    }
    assert top[..|top|] == top;
  }

  /**
   * `main` without its I/O: the commit statistics of the `git log` output,
   * the `limit` entries with the most commits, and their report rows.
   */
  method TopEmailsReport(stdout: string, limit: nat, logins: seq<(string, string)>,
                         repository: Repository, cache: ProfileCache) returns (rows: seq<Row>)
    modifies repository, cache
    ensures Valid(Aggregate(stdout))
    ensures var top := TopN(Items(Aggregate(stdout)), limit);
      var o := ResolveAll(top, logins, old(cache.entries), repository.authorUrl);
      && rows == Rows(top, o.profiles)
      && cache.entries == o.cache
      && repository.apiCalls == old(repository.apiCalls) + o.calls
  {
    var emailStats := GetCommitEmailStats(stdout);
    var sortedEmails := TopN(Items(emailStats), limit);
    rows := ReportRows(sortedEmails, logins, repository, cache);
  }

  /**
   * What the report for the dict `d` shows from any loaded cache: the entries
   * `top` that Shown describes, one row each with its entry's stripped email
   * (the email itself when the keys are stripped) and short sha, ordered by
   * commits; each row shows ExpectedFrom the loaded cache; at most one API
   * request per row; the cache keeps every loaded entry and adds only API
   * answers. From a cache that agrees with the API, each row shows Expected
   * and the cache keeps agreeing.
   */
  ghost predicate CorrectReport(d: EmailStats, limit: nat, logins: seq<(string, string)>,
                                cache: map<string, string>, authorUrl: string -> string) {
    && Shown(d, limit)
    && var top := TopN(Items(d), limit);
      var o := ResolveAll(top, logins, cache, authorUrl);
      var rows := Rows(top, o.profiles);
      && |rows| == |top|
      && (forall i :: 0 <= i < |rows| ==>
            rows[i].email == Strip(top[i].0) && rows[i].shortSha == Take(Strip(top[i].1.sha), 12))
      && ((forall e :: e in d.stats ==> Trimmed(e)) ==> forall i :: 0 <= i < |rows| ==> rows[i].email == top[i].0)
      && (forall i, j :: 0 <= i < j < |rows| ==> rows[i].commits >= rows[j].commits)
      && (forall i :: 0 <= i < |rows| ==> rows[i].profile == ExpectedFrom(cache, top[i], logins, authorUrl))
      && o.calls <= |rows|
      && ExtendsWithApi(o.cache, cache, authorUrl)
      && (Coherent(cache, authorUrl) ==>
            && Coherent(o.cache, authorUrl)
            && forall i :: 0 <= i < |rows| ==> rows[i].profile == Expected(top[i], logins, authorUrl))
  }

  /** The report loop over the top entries of any dict meets CorrectReport, from any loaded cache. */
  lemma ReportOf(d: EmailStats, limit: nat, logins: seq<(string, string)>,
                 cache: map<string, string>, authorUrl: string -> string)
    requires Valid(d)
    ensures CorrectReport(d, limit, logins, cache, authorUrl)
  {
    var top := TopN(Items(d), limit);
    TopNShown(d, limit);
    ResolveAllProfilesFrom(top, logins, cache, authorUrl);
    ResolveAllCache(top, logins, cache, authorUrl);
    RowsOrdered(top, ResolveAll(top, logins, cache, authorUrl).profiles);
    if forall e :: e in d.stats ==> Trimmed(e) {
      forall i | 0 <= i < |top| ensures Strip(top[i].0) == top[i].0 {
        TrimmedStrip(top[i].0);
      }
    }
    if Coherent(cache, authorUrl) {
      ResolveAllProfiles(top, logins, cache, authorUrl);
    }
  }

  /**
   * The report `main` prints for a `git log` output meets CorrectReport; its
   * keys are stripped, so each row shows its entry's email as stored.
   */
  lemma ReportCorrect(stdout: string, limit: nat, logins: seq<(string, string)>,
                      cache: map<string, string>, authorUrl: string -> string)
    ensures CorrectReport(Aggregate(stdout), limit, logins, cache, authorUrl)
    ensures forall e :: e in Aggregate(stdout).stats ==> Trimmed(e)
  {
    AggregateCorrect(stdout);
    AggregateCounted(Entries(Lines(stdout)));
    ReportOf(Aggregate(stdout), limit, logins, cache, authorUrl);
  }

  /** Each row of the report for a `git log` output shows its entry's email exactly as the dict stores it. */
  lemma ReportEmails(stdout: string, limit: nat, logins: seq<(string, string)>,
                     cache: map<string, string>, authorUrl: string -> string)
    ensures var d := Aggregate(stdout);
      && Valid(d)
      && var top := TopN(Items(d), limit);
        var rows := Rows(top, ResolveAll(top, logins, cache, authorUrl).profiles);
        forall i :: 0 <= i < |rows| ==> top[i].0 in d.stats && rows[i].email == top[i].0
  {
    ReportCorrect(stdout, limit, logins, cache, authorUrl);
  }
}
