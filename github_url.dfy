/**
 * `parse_github_url`: the two anchored regular expressions that split a
 * GitHub repository URL into owner and repository name.
 *
 *   HTTPS: ^https://github\.com/([^/]+)/([^/]+?)(?:\.git)?/?$
 *   SSH:   ^git@github\.com:([^/]+)/(.+?)(?:\.git)?$
 *
 * Each pattern is matched by hand, by positions in the URL: the literal
 * prefix, then the owner group `[^/]+` (greedy and followed by a `/`, so it
 * runs up to the first `/`), then the lazy repository group, which the regex
 * engine makes as short as it can while what follows it is an allowed tail.
 * Python's `$` matches at the end of the string or just before a final
 * newline, and `.` does not match a newline; both are modelled.
 */
module GithubUrl {
  import opened Wrappers

  datatype Pattern = Https | Ssh

  function Prefix(p: Pattern): string {
    match p
    case Https => "https://github.com/"
    case Ssh => "git@github.com:"
  }

  /** What the repository group may contain: `[^/]` for HTTPS, `.` for SSH. */
  predicate RepoChar(p: Pattern, c: char) {
    match p
    case Https => c != '/'
    case Ssh => c != '\n'
  }

  /** `t[j..]` starts with `.git`. */
  predicate GitAt(t: string, j: nat) {
    j + 4 <= |t| && t[j] == '.' && t[j + 1] == 'g' && t[j + 2] == 'i' && t[j + 3] == 't'
  }

  /**
   * What may follow the repository group: `(?:\.git)?`, for HTTPS `/?`, then
   * `$`, which also matches before a final newline. Stated on characters;
   * TailStrings lists the tails it accepts.
   */
  predicate Tail(p: Pattern, t: string) {
    var n := if |t| > 0 && t[|t| - 1] == '\n' then |t| - 1 else |t|;
    match p
    case Https =>
      || n == 0
      || (n == 1 && t[0] == '/')
      || (n == 4 && GitAt(t, 0))
      || (n == 5 && GitAt(t, 0) && t[4] == '/')
    case Ssh =>
      || n == 0
      || (n == 4 && GitAt(t, 0))
  }

  /** The tails each pattern accepts, written out. */
  lemma TailStrings(p: Pattern, t: string)
    ensures p == Https ==> (Tail(p, t) <==> t in {"", "/", ".git", ".git/", "\n", "/\n", ".git\n", ".git/\n"})
    ensures p == Ssh ==> (Tail(p, t) <==> t in {"", ".git", "\n", ".git\n"})
  {
    if Tail(p, t) {
      var n := if |t| > 0 && t[|t| - 1] == '\n' then |t| - 1 else |t|;
      var body, end := t[..n], t[n..];
      assert t == body + end;
      assert end == "" || end == "\n";
      assert body in {"", "/", ".git", ".git/"} by {
        if n == 1 { assert body == "/"; }
        else if n == 4 { assert body == ".git"; }
        else if n == 5 { assert body == ".git/"; }
      }
      assert p == Ssh ==> body in {"", ".git"};
      if end == "" {
        assert t == body;
      } else if body == "" {
        assert t == "\n";
      } else if body == "/" {
        assert t == "/\n";
      } else if body == ".git" {
        assert t == ".git\n";
      } else {
        assert t == ".git/\n";
      }
    } else {
      assert GitAt(".git", 0) && GitAt(".git/", 0) && GitAt(".git\n", 0) && GitAt(".git/\n", 0);
      assert Tail(Https, "") && Tail(Https, "/") && Tail(Https, ".git") && Tail(Https, ".git/");
      assert Tail(Https, "\n") && Tail(Https, "/\n") && Tail(Https, ".git\n") && Tail(Https, ".git/\n");
      assert Tail(Ssh, "") && Tail(Ssh, ".git") && Tail(Ssh, "\n") && Tail(Ssh, ".git\n");
    }
  }

  predicate HasPrefix(p: Pattern, url: string) {
    |Prefix(p)| <= |url| && url[..|Prefix(p)|] == Prefix(p)
  }

  /** `url[start..k]` is a repository group that pattern `p` can match before an allowed tail. */
  predicate RepoEndsAt(p: Pattern, url: string, start: nat, k: nat) {
    && start < k <= |url|
    && (forall j :: start <= j < k ==> RepoChar(p, url[j]))
    && Tail(p, url[k..])
  }

  /**
   * One way pattern `p` matches `url`: the prefix, the owner `url[|Prefix(p)|..i]`,
   * a `/` at `i`, the repository `url[i + 1..k]`, then an allowed tail.
   */
  ghost predicate MatchesAt(p: Pattern, url: string, i: nat, k: nat) {
    && HasPrefix(p, url)
    && |Prefix(p)| < i < |url| && url[i] == '/'
    && (forall j :: |Prefix(p)| <= j < i ==> url[j] != '/')
    && RepoEndsAt(p, url, i + 1, k)
  }

  /** The match `re.match` reports: the one whose repository group is shortest (lazy `+?`). */
  ghost predicate LazyMatchAt(p: Pattern, url: string, i: nat, k: nat) {
    MatchesAt(p, url, i, k) && forall i': nat, k': nat :: MatchesAt(p, url, i', k') ==> k <= k'
  }

  /** Pattern `p` does not match `url` at all. */
  ghost predicate NoMatch(p: Pattern, url: string) {
    forall i: nat, k: nat :: !MatchesAt(p, url, i, k)
  }

  /** The groups of a lazy match, as strings. */
  ghost predicate Groups(p: Pattern, url: string, owner: string, repo: string) {
    var i := |Prefix(p)| + |owner|;
    var k := i + 1 + |repo|;
    && LazyMatchAt(p, url, i, k)
    && owner == url[|Prefix(p)|..i] && repo == url[i + 1..k]
  }

  /** The first `/` at or after position `j`. */
  function FindSlash(url: string, j: nat): (r: Option<nat>)
    requires j <= |url|
    ensures r.Some? ==> j <= r.value < |url| && url[r.value] == '/'
    ensures r.Some? ==> forall m :: j <= m < r.value ==> url[m] != '/'
    ensures r.None? ==> forall m :: j <= m < |url| ==> url[m] != '/'
    decreases |url| - j
  {
    if j == |url| then None
    else if url[j] == '/' then Some(j)
    else FindSlash(url, j + 1)
  }

  /** The shortest repository group starting at `start` that ends at `k` or later, scanning as the lazy `+?` does. */
  function ShortestRepoEnd(p: Pattern, url: string, start: nat, k: nat): (r: Option<nat>)
    requires start < k <= |url| + 1
    requires forall j :: start <= j < k - 1 ==> RepoChar(p, url[j])
    ensures r.Some? ==> k <= r.value && RepoEndsAt(p, url, start, r.value)
    ensures r.Some? ==> forall m :: k <= m < r.value ==> !RepoEndsAt(p, url, start, m)
    ensures r.None? ==> forall m :: k <= m ==> !RepoEndsAt(p, url, start, m)
    decreases |url| + 1 - k
  {
    if k > |url| || !RepoChar(p, url[k - 1]) then None
    else if Tail(p, url[k..]) then Some(k)
    else ShortestRepoEnd(p, url, start, k + 1)
  }

  /** Any match has its `/` at the first `/` after the prefix. */
  lemma OwnerEndsAtFirstSlash(p: Pattern, url: string, i: nat, k: nat)
    requires MatchesAt(p, url, i, k)
    ensures FindSlash(url, |Prefix(p)|) == Some(i)
  {
  }

  /**
   * The positions `(i, k)` of the match `re.match(pattern, url)` reports: the
   * lazy match when there is one, None when the pattern does not match.
   */
  function MatchPositions(p: Pattern, url: string): (r: Option<(nat, nat)>)
    ensures r.Some? ==> LazyMatchAt(p, url, r.value.0, r.value.1)
    ensures r.None? ==> NoMatch(p, url)
  {
    var pre := |Prefix(p)|;
    if !HasPrefix(p, url) then None
    else match FindSlash(url, pre)
      case None =>
        assert forall i: nat, k: nat :: MatchesAt(p, url, i, k) ==> FindSlash(url, pre) == Some(i) by {
          forall i: nat, k: nat | MatchesAt(p, url, i, k) ensures FindSlash(url, pre) == Some(i) {
            OwnerEndsAtFirstSlash(p, url, i, k);
          }
        }
        None
      case Some(i) =>
        assert forall i': nat, k': nat :: MatchesAt(p, url, i', k') ==> i' == i && RepoEndsAt(p, url, i + 1, k') by {
          forall i': nat, k': nat | MatchesAt(p, url, i', k') ensures i' == i && RepoEndsAt(p, url, i + 1, k') {
            OwnerEndsAtFirstSlash(p, url, i', k');
          }
        }
        if i == pre then None
        else match ShortestRepoEnd(p, url, i + 1, i + 2)
          case None => None
          case Some(k) => Some((i, k))
  }

  /** The strings between the positions of a lazy match are its groups. */
  lemma LazyGroups(p: Pattern, url: string, i: nat, k: nat)
    requires LazyMatchAt(p, url, i, k)
    ensures Groups(p, url, url[|Prefix(p)|..i], url[i + 1..k])
  {
    var owner, repo := url[|Prefix(p)|..i], url[i + 1..k];
    assert |Prefix(p)| + |owner| == i && i + 1 + |repo| == k;
  }

  /** `re.match(pattern, url)` with its two groups. */
  function MatchPattern(p: Pattern, url: string): (r: Option<(string, string)>)
    ensures r.Some? ==> Groups(p, url, r.value.0, r.value.1)
    ensures r.None? <==> NoMatch(p, url)
  {
    match MatchPositions(p, url)
    case None => None
    case Some((i, k)) =>
      LazyGroups(p, url, i, k);
      Some((url[|Prefix(p)|..i], url[i + 1..k]))
  }

  /**
   * `parse_github_url`: the owner and repository of an HTTPS or SSH GitHub URL;
   * `ValueError` when the URL matches neither pattern.
   */
  function ParseGithubUrl(url: string): (r: Result<(string, string), string>)
    ensures r.Failure? <==> NoMatch(Https, url) && NoMatch(Ssh, url)
    ensures r.Failure? ==> r.error == "Invalid GitHub URL format: " + url
    ensures r.Success? ==>
      || Groups(Https, url, r.value.0, r.value.1)
      || (NoMatch(Https, url) && Groups(Ssh, url, r.value.0, r.value.1))
  {
    match MatchPattern(Https, url)
    case Some(m) => Success(m)
    case None =>
      match MatchPattern(Ssh, url)
      case Some(m) => Success(m)
      case None => Failure("Invalid GitHub URL format: " + url)
  }

  /** The groups of a match: a non-empty owner without `/`, and a non-empty repository of allowed characters. */
  lemma GroupsParts(p: Pattern, url: string, owner: string, repo: string)
    requires Groups(p, url, owner, repo)
    ensures owner != [] && '/' !in owner
    ensures repo != [] && forall j :: 0 <= j < |repo| ==> RepoChar(p, repo[j])
  {
    var pre := |Prefix(p)|;
    var i := pre + |owner|;
    forall j | 0 <= j < |owner| ensures owner[j] != '/' {
      assert owner[j] == url[pre + j];
    }
    forall j | 0 <= j < |repo| ensures RepoChar(p, repo[j]) {
      assert repo[j] == url[i + 1 + j];
    }
  }

  /**
   * A successful parse has a non-empty owner without `/` and a non-empty
   * repository; an HTTPS repository has no `/`, an SSH one no newline.
   */
  lemma ParsedParts(url: string)
    requires ParseGithubUrl(url).Success?
    ensures var (o, r) := ParseGithubUrl(url).value;
      && o != [] && '/' !in o && r != []
      && (Groups(Https, url, o, r) ==> '/' !in r)
      && (Groups(Ssh, url, o, r) ==> '\n' !in r)
  {
    var (o, r) := ParseGithubUrl(url).value;
    if Groups(Https, url, o, r) {
      GroupsParts(Https, url, o, r);
    }
    if Groups(Ssh, url, o, r) {
      GroupsParts(Ssh, url, o, r);
    }
  }

  /** Where the pieces of `pre + owner + "/" + repo + suffix` sit. */
  lemma Layout(pre: string, owner: string, repo: string, suffix: string)
    ensures var url := pre + owner + "/" + repo + suffix;
      var i := |pre| + |owner|;
      var k := i + 1 + |repo|;
      && |url| == k + |suffix|
      && url[..|pre|] == pre
      && url[|pre|..i] == owner && url[i] == '/' && url[i + 1..k] == repo
      && url[k..] == suffix
  {
  }

  /** No repository group ending before a final `.git` is an allowed one: the tail would end in `t` and be too long. */
  lemma NoEarlierEnd(p: Pattern, url: string, start: nat, k: nat)
    requires k + 4 == |url| && url[|url| - 1] == 't'
    ensures forall m: nat :: m < k ==> !RepoEndsAt(p, url, start, m)
  {
    forall m: nat | m < k ensures !Tail(p, url[m..]) {
      var t := url[m..];
      assert |t| >= 5 && t[|t| - 1] == 't';
    }
  }

  /** A URL ending in `.git` has only one lazy match: the one whose tail is that `.git`. */
  lemma LazyMatchUnique(p: Pattern, url: string, i: nat, k: nat, i': nat, k': nat)
    requires MatchesAt(p, url, i, k) && k + 4 == |url| && url[|url| - 1] == 't'
    requires LazyMatchAt(p, url, i', k')
    ensures i' == i && k' == k
  {
    OwnerEndsAtFirstSlash(p, url, i', k');
    OwnerEndsAtFirstSlash(p, url, i, k);
    assert RepoEndsAt(p, url, i + 1, k');
    NoEarlierEnd(p, url, i + 1, k);
  }

  /** On `Prefix(p) + owner + "/" + repo + ".git"` the lazy match ends the repository group before `.git`. */
  lemma RoundTripPositions(p: Pattern, url: string, i: nat, k: nat)
    requires MatchesAt(p, url, i, k) && k + 4 == |url| && url[|url| - 1] == 't'
    ensures MatchPositions(p, url) == Some((i, k))
  {
    assert !NoMatch(p, url);
    var r := MatchPositions(p, url);
    LazyMatchUnique(p, url, i, k, r.value.0, r.value.1);
  }

  /** Pattern `p` applied to `Prefix(p) + owner + "/" + repo + ".git"` gives back owner and repository. */
  lemma RoundTrip(p: Pattern, owner: string, repo: string)
    requires owner != [] && '/' !in owner && repo != []
    requires forall c :: c in repo ==> RepoChar(p, c)
    ensures MatchPattern(p, Prefix(p) + owner + "/" + repo + ".git") == Some((owner, repo))
  {
    var url := Prefix(p) + owner + "/" + repo + ".git";
    var pre := |Prefix(p)|;
    var i := pre + |owner|;
    var k := i + 1 + |repo|;
    Layout(Prefix(p), owner, repo, ".git");
    assert MatchesAt(p, url, i, k) by {
      forall j | pre <= j < i ensures url[j] != '/' {
        assert url[j] == url[pre..i][j - pre];
      }
      forall j | i + 1 <= j < k ensures RepoChar(p, url[j]) {
        assert url[j] == url[i + 1..k][j - i - 1];
      }
      assert GitAt(url[k..], 0);
    }
    RoundTripPositions(p, url, i, k);
  }

  /** `https://github.com/O/R.git` parses to `(O, R)` for any owner and repository name without `/`. */
  lemma HttpsRoundTrip(owner: string, repo: string)
    requires owner != [] && '/' !in owner && repo != [] && '/' !in repo
    ensures ParseGithubUrl("https://github.com/" + owner + "/" + repo + ".git") == Success((owner, repo))
  {
    RoundTrip(Https, owner, repo);
  }

  /** `git@github.com:O/R.git` parses to `(O, R)`, also when R contains `/`, as long as it has no newline. */
  lemma SshRoundTrip(owner: string, repo: string)
    requires owner != [] && '/' !in owner && repo != [] && '\n' !in repo
    ensures ParseGithubUrl("git@github.com:" + owner + "/" + repo + ".git") == Success((owner, repo))
  {
    var url := "git@github.com:" + owner + "/" + repo + ".git";
    assert url[0] == 'g';
    assert !HasPrefix(Https, url);
    RoundTrip(Ssh, owner, repo);
  }
}
