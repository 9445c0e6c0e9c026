/**
 * How the script finds a GitHub profile for a commit email: first by matching
 * the part of the email before `@` against the contributors' logins, then, when
 * that gives nothing, by asking the GitHub API for the author of the email's
 * sample commit, through a sha-keyed cache (`lookup_profile_from_commit`).
 */
module ProfileLookup {
  import opened Wrappers
  import opened PyStr

  /**
   * The GitHub repository object. `authorUrl(sha)` is the `html_url` of the
   * GitHub user the API links to commit `sha`, or "" when the commit has no
   * linked author. `apiCalls` counts the `get_commit` requests made so far:
   * the script runs under a rate limit, and the cache exists to save them.
   */
  class Repository {
    const authorUrl: string -> string
    ghost var apiCalls: nat

    constructor (authorUrl: string -> string)
      ensures this.authorUrl == authorUrl && apiCalls == 0
    {
      this.authorUrl := authorUrl;
      apiCalls := 0;
    }

    /** `repository.get_commit(sha)`, reduced to the profile URL of its author. */
    method CommitAuthorUrl(sha: string) returns (url: string)
      modifies this
      ensures url == authorUrl(sha)
      ensures apiCalls == old(apiCalls) + 1
    {
      url := authorUrl(sha);
      apiCalls := apiCalls + 1;
    }
  }

  /** The profile cache: a dict from commit sha to profile URL, updated in place. */
  class ProfileCache {
    var entries: map<string, string>

    constructor (entries: map<string, string>)
      ensures this.entries == entries
    {
      this.entries := entries;
    }
  }

  /** The outcome of a lookup: the profile, the cache afterwards, and how many API requests it made. */
  datatype Lookup = Lookup(profile: string, cache: map<string, string>, calls: nat)

  /** Every cached profile is the one the API gives for that sha. */
  ghost predicate Coherent(cache: map<string, string>, authorUrl: string -> string) {
    forall sha :: sha in cache ==> cache[sha] == authorUrl(sha)
  }

  /**
   * `lookup_profile_from_commit`: a cached sha is answered from the cache;
   * otherwise the API is asked once and its answer, "" included, is cached.
   */
  function CachedLookup(cache: map<string, string>, sha: string, authorUrl: string -> string): (r: Lookup)
    ensures sha in r.cache && r.profile == r.cache[sha]
    ensures r.cache.Keys == cache.Keys + {sha}
    ensures forall s :: s in cache ==> r.cache[s] == cache[s]
    ensures r.calls == 0 <==> sha in cache
    ensures r.calls <= 1
    ensures sha !in cache ==> r.profile == authorUrl(sha)
  {
    if sha in cache then Lookup(cache[sha], cache, 0)
    else Lookup(authorUrl(sha), cache[sha := authorUrl(sha)], 1)
  }

  /** A second lookup of the same sha makes no request and changes nothing. */
  lemma CachedLookupIdempotent(cache: map<string, string>, sha: string, authorUrl: string -> string)
    ensures var r := CachedLookup(cache, sha, authorUrl);
      CachedLookup(r.cache, sha, authorUrl) == Lookup(r.profile, r.cache, 0)
  {
  }

  /** With a cache that agrees with the API, the lookup gives the API's answer and the cache stays in agreement. */
  lemma CachedLookupCoherent(cache: map<string, string>, sha: string, authorUrl: string -> string)
    requires Coherent(cache, authorUrl)
    ensures var r := CachedLookup(cache, sha, authorUrl);
      r.profile == authorUrl(sha) && Coherent(r.cache, authorUrl)
  {
  }

  /** The method the script calls: the cache and the request counter change as CachedLookup says. */
  method LookupProfileFromCommit(repository: Repository, sha: string, cache: ProfileCache) returns (profile: string)
    modifies repository, cache
    ensures var r := CachedLookup(old(cache.entries), sha, repository.authorUrl);
      && profile == r.profile
      && cache.entries == r.cache
      && repository.apiCalls == old(repository.apiCalls) + r.calls
  {
    if sha in cache.entries {
      return cache.entries[sha];
    }
    profile := repository.CommitAuthorUrl(sha);
    cache.entries := cache.entries[sha := profile];
  }

  /** `email.split('@')[0].lower()`: the user part of an email, lower-cased. */
  function EmailUser(email: string): (r: string)
    ensures |r| <= |email| && '@' !in r
    ensures forall i :: 0 <= i < |r| ==> !('A' <= r[i] <= 'Z')
    ensures '@' !in email ==> r == Lower(email)
    ensures r == Lower(email[..|r|])
    ensures |r| < |email| ==> email[|r|] == '@'
  {
    Lower(BeforeFirst(email, '@'))
  }

  /** The position of the first login whose lower-cased form is `user`, if any. */
  function FirstLoginMatch(logins: seq<(string, string)>, user: string): (r: Option<nat>)
    ensures r.Some? ==> r.value < |logins| && Lower(logins[r.value].0) == user
    ensures r.Some? ==> forall j :: 0 <= j < r.value ==> Lower(logins[j].0) != user
    ensures r.None? <==> forall j :: 0 <= j < |logins| ==> Lower(logins[j].0) != user
  {
    if logins == [] then None
    else if Lower(logins[0].0) == user then Some(0)
    else match FirstLoginMatch(logins[1..], user)
      case None => None
      case Some(i) => Some(i + 1)
  }

  /** The profile the login heuristic guesses for `email`: the URL of the first matching login, or "". */
  function LoginGuess(logins: seq<(string, string)>, email: string): string {
    match FirstLoginMatch(logins, EmailUser(email))
    case None => ""
    case Some(i) => logins[i].1
  }

  /** A non-empty guess is the URL of a login matching the user part; with no matching login the guess is "". */
  lemma LoginGuessCorrect(logins: seq<(string, string)>, email: string)
    ensures var r := LoginGuess(logins, email);
      r != "" ==> exists i :: 0 <= i < |logins| && Lower(logins[i].0) == EmailUser(email) && r == logins[i].1
    ensures (forall i :: 0 <= i < |logins| ==> Lower(logins[i].0) != EmailUser(email)) ==> LoginGuess(logins, email) == ""
  {
  }

  /**
   * The loop over `login_to_profile.items()` that stops at the first login
   * whose lower-cased form equals the email's user part.
   */
  method MatchLogin(logins: seq<(string, string)>, email: string) returns (profile: string)
    ensures profile == LoginGuess(logins, email)
  {
    var user := EmailUser(email);
    profile := "";
    var n := 0;
    while n < |logins|
      invariant n <= |logins|
      invariant forall j :: 0 <= j < n ==> Lower(logins[j].0) != user
    {
      if Lower(logins[n].0) == user {
        assert FirstLoginMatch(logins, user) == Some(n);
        profile := logins[n].1;
        return;
      }
      n := n + 1;
    }
    assert FirstLoginMatch(logins, user) == None;
  }

  /** Matching ignores ASCII case and needs the whole user part: `Jo@x.com` matches `jo`, not `jon`. */
  lemma MatchExample()
    ensures FirstLoginMatch([("jon", "u1"), ("jo", "u2")], EmailUser("Jo@x.com")) == Some(1)
  {
    var email := "Jo@x.com";
    assert email[1..][1..] == email[2..];
    assert IndexOf(email, '@') == Some(2);
    var user := EmailUser(email);
    assert user == Lower(email[..2]);
    assert user[0] == 'j' && user[1] == 'o';
    assert |Lower("jon")| == 3;
    assert Lower("jo") == user;
  }

  /**
   * The profile shown for one row: the login guess when it is not empty
   * (no request, cache untouched), otherwise the cached commit lookup.
   */
  function ResolveProfile(email: string, sha: string, logins: seq<(string, string)>,
                          cache: map<string, string>, authorUrl: string -> string): (r: Lookup)
    ensures LoginGuess(logins, email) != "" ==> r == Lookup(LoginGuess(logins, email), cache, 0)
    ensures LoginGuess(logins, email) == "" ==> r == CachedLookup(cache, sha, authorUrl)
  {
    var guess := LoginGuess(logins, email);
    if guess != "" then Lookup(guess, cache, 0) else CachedLookup(cache, sha, authorUrl)
  }

  /**
   * A resolution makes at most one request, and makes one exactly when the
   * guess is empty and the sha is not cached; only then does the cache change,
   * by the one new entry.
   */
  lemma ResolveProfileCalls(email: string, sha: string, logins: seq<(string, string)>,
                            cache: map<string, string>, authorUrl: string -> string)
    ensures var r := ResolveProfile(email, sha, logins, cache, authorUrl);
      && r.calls <= 1
      && (r.calls == 1 <==> LoginGuess(logins, email) == "" && sha !in cache)
      && (r.calls == 0 ==> r.cache == cache)
      && (r.calls == 1 ==> r.cache == cache[sha := authorUrl(sha)])
  {
  }

  /**
   * With a cache that agrees with the API, the profile is the URL of the
   * matched login when there is one and the commit author's URL otherwise,
   * and the cache still agrees with the API.
   */
  lemma ResolveProfileCoherent(email: string, sha: string, logins: seq<(string, string)>,
                               cache: map<string, string>, authorUrl: string -> string)
    requires Coherent(cache, authorUrl)
    ensures var r := ResolveProfile(email, sha, logins, cache, authorUrl);
      && Coherent(r.cache, authorUrl)
      && r.profile == (if LoginGuess(logins, email) != "" then LoginGuess(logins, email) else authorUrl(sha))
  {
    CachedLookupCoherent(cache, sha, authorUrl);
  }

  /**
   * `cache` grew from the loaded cache `cache0` by lookups: every loaded
   * entry is kept as it was, stale or not, and every added entry is the
   * API's answer.
   */
  ghost predicate ExtendsWithApi(cache: map<string, string>, cache0: map<string, string>, authorUrl: string -> string) {
    && (forall sha :: sha in cache0 ==> sha in cache && cache[sha] == cache0[sha])
    && (forall sha :: sha in cache && sha !in cache0 ==> cache[sha] == authorUrl(sha))
  }

  /** What a commit lookup of `sha` gives from a cache that grew from `cache0`: the loaded entry, else the API's answer. */
  function ProfileFrom(cache0: map<string, string>, sha: string, authorUrl: string -> string): string {
    if sha in cache0 then cache0[sha] else authorUrl(sha)
  }

  /**
   * From any cache that grew from the loaded cache `cache0`, the profile is
   * the login guess when there is one, else the loaded entry for the sha,
   * else the API's answer; and the cache keeps growing that way.
   */
  lemma ResolveProfileFrom(email: string, sha: string, logins: seq<(string, string)>,
                           cache: map<string, string>, cache0: map<string, string>, authorUrl: string -> string)
    requires ExtendsWithApi(cache, cache0, authorUrl)
    ensures var r := ResolveProfile(email, sha, logins, cache, authorUrl);
      && ExtendsWithApi(r.cache, cache0, authorUrl)
      && r.profile == (if LoginGuess(logins, email) != "" then LoginGuess(logins, email) else ProfileFrom(cache0, sha, authorUrl))
  {
  }

  /** Lines 171-180 of the main loop: the login guess, then the commit lookup when it is empty. */
  method Resolve(email: string, sha: string, logins: seq<(string, string)>,
                 repository: Repository, cache: ProfileCache) returns (profile: string)
    modifies repository, cache
    ensures var r := ResolveProfile(email, sha, logins, old(cache.entries), repository.authorUrl);
      && profile == r.profile
      && cache.entries == r.cache
      && repository.apiCalls == old(repository.apiCalls) + r.calls
  {
    profile := MatchLogin(logins, email);
    if profile == "" {
      profile := LookupProfileFromCommit(repository, sha, cache);
    }
  }
}
