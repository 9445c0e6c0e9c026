/**
 * `get_commit_email_stats`: the loop that turns the output of
 * `git log --format=%ae|%H --all` into a dict from author email to
 * `{'commits': count, 'sha': first sha}`.
 *
 * The dict is a `defaultdict`, so a key is created by its first update; the
 * model keeps the keys in that insertion order (`EmailStats.order`) because
 * the later stable sort breaks ties by it.
 */
module CommitStats {
  import opened Wrappers
  import opened PyStr

  datatype Stat = Stat(commits: nat, sha: string)

  /** A Python dict from email to Stat: its keys in insertion order, and its entries. */
  datatype EmailStats = EmailStats(order: seq<string>, stats: map<string, Stat>)

  ghost predicate NoDup(s: seq<string>) {
    forall i, j :: 0 <= i < j < |s| ==> s[i] != s[j]
  }

  /** The insertion order lists every key exactly once. */
  ghost predicate Valid(d: EmailStats) {
    NoDup(d.order) && forall e :: e in d.stats <==> e in d.order
  }

  /** `result.stdout.strip().split('\n')` */
  function Lines(stdout: string): (r: seq<string>)
    ensures |r| >= 1 && Join(r, '\n') == Strip(stdout)
    ensures forall i :: 0 <= i < |r| ==> '\n' !in r[i]
  {
    Split(Strip(stdout), '\n')
  }

  /** The `(email, sha)` a log line contributes: both stripped, split at the first `|`; None for a line without `|`. */
  function ParseLine(raw: string): (r: Option<(string, string)>)
    ensures r.Some? <==> '|' in Strip(raw)
    ensures r.Some? ==> Trimmed(r.value.0) && Trimmed(r.value.1)
    ensures r.Some? ==> exists i :: SplitAtFirstBar(Strip(raw), i, r.value)
  {
    var line := Strip(raw);
    if '|' !in line then None
    else
      var (email, sha) := SplitOnce(line, '|');
      assert SplitAtFirstBar(line, |email|, (Strip(email), Strip(sha)));
      Some((Strip(email), Strip(sha)))
  }

  /** Position `i` of `line` holds its first `|`, and `entry` is the stripped text before and after it. */
  ghost predicate SplitAtFirstBar(line: string, i: nat, entry: (string, string)) {
    && i < |line|
    && line[i] == '|'
    && '|' !in line[..i]
    && entry == (Strip(line[..i]), Strip(line[i + 1..]))
  }

  /** The `(email, sha)` pairs of the lines that contain `|`, in log order. */
  function Entries(lines: seq<string>): (r: seq<(string, string)>)
    ensures |r| <= |lines|
    ensures forall i :: 0 <= i < |r| ==> exists k :: 0 <= k < |lines| && ParseLine(lines[k]) == Some(r[i])
  {
    if lines == [] then []
    else
      var prev := Entries(lines[..|lines| - 1]);
      match ParseLine(lines[|lines| - 1])
      case None => prev
      case Some(entry) => prev + [entry]
  }

  function Emails(es: seq<(string, string)>): (r: seq<string>)
    ensures |r| == |es| && forall i :: 0 <= i < |es| ==> r[i] == es[i].0
  {
    if es == [] then [] else Emails(es[..|es| - 1]) + [es[|es| - 1].0]
  }

  /** One iteration of the loop body on a line that contains `|`: the defaultdict update. */
  function AddCommit(d: EmailStats, email: string, sha: string): EmailStats {
    var before := if email in d.stats then d.stats[email] else Stat(0, "");
    var order := if email in d.stats then d.order else d.order + [email];
    EmailStats(order, d.stats[email := Stat(before.commits + 1, if before.sha == "" then sha else before.sha)])
  }

  /** The dict after the loop has seen the entries `es`. */
  function AggregateEntries(es: seq<(string, string)>): (r: EmailStats)
    ensures |r.order| <= |es|
  {
    if es == [] then EmailStats([], map[])
    else
      var (email, sha) := es[|es| - 1];
      AddCommit(AggregateEntries(es[..|es| - 1]), email, sha)
  }

  /** What `get_commit_email_stats` returns for the given `git log` output. */
  function Aggregate(stdout: string): (r: EmailStats)
    ensures |r.order| <= |Lines(stdout)|
  {
    AggregateEntries(Entries(Lines(stdout)))
  }

  /** The first non-empty sha among `e`'s entries, or "" when all of them are empty. */
  function FirstSha(es: seq<(string, string)>, e: string): string {
    if es == [] then ""
    else if es[0].0 == e && es[0].1 != "" then es[0].1
    else FirstSha(es[1..], e)
  }

  /** The position of the first `x` in `s`. */
  function FirstIndex(s: seq<string>, x: string): (r: nat)
    requires x in s
    ensures r < |s| && s[r] == x && x !in s[..r]
  {
    if s[0] == x then 0
    else
      var r := 1 + FirstIndex(s[1..], x);
      assert s[..r] == [s[0]] + s[1..][..r - 1];
      r
  }

  lemma {:induction false} FirstShaSnoc(es: seq<(string, string)>, x: (string, string), e: string)
    ensures FirstSha(es + [x], e) ==
      if FirstSha(es, e) != "" then FirstSha(es, e) else if x.0 == e then x.1 else ""
  {
    if es != [] {
      assert (es + [x])[1..] == es[1..] + [x];
      FirstShaSnoc(es[1..], x, e);
    }
  }

  lemma {:induction false} FirstIndexSnoc(s: seq<string>, y: string, x: string)
    requires x in s
    ensures FirstIndex(s + [y], x) == FirstIndex(s, x)
  {
    if s[0] != x {
      assert (s + [y])[1..] == s[1..] + [y];
      FirstIndexSnoc(s[1..], y, x);
    }
  }

  /** The keys are the emails of the entries, each listed once, in insertion order. */
  lemma {:induction false} AggregateKeys(es: seq<(string, string)>)
    ensures Valid(AggregateEntries(es))
    ensures forall e :: e in AggregateEntries(es).stats <==> e in Emails(es)
  {
    if es != [] {
      var init := es[..|es| - 1];
      AggregateKeys(init);
      assert Emails(es) == Emails(init) + [es[|es| - 1].0];
    }
  }

  /** Every key of the dict has been counted at least once. */
  lemma {:induction false} AggregateCounted(es: seq<(string, string)>)
    ensures Valid(AggregateEntries(es))
    ensures forall e :: e in AggregateEntries(es).stats ==> AggregateEntries(es).stats[e].commits >= 1
  {
    if es != [] {
      AggregateCounted(es[..|es| - 1]);
    }
  }

  /** Each email's `commits` is the number of entries with that email. */
  lemma {:induction false} AggregateCounts(es: seq<(string, string)>)
    ensures forall e :: e in AggregateEntries(es).stats ==>
      AggregateEntries(es).stats[e].commits == multiset(Emails(es))[e]
  {
    if es != [] {
      var init := es[..|es| - 1];
      AggregateCounts(init);
      AggregateKeys(init);
      assert Emails(es) == Emails(init) + [es[|es| - 1].0];
    }
  }

  /** Each email's `sha` is its first non-empty sha in log order (the `if not ...['sha']` test). */
  lemma {:induction false} AggregateShas(es: seq<(string, string)>)
    ensures forall e :: e in AggregateEntries(es).stats ==>
      AggregateEntries(es).stats[e].sha == FirstSha(es, e)
  {
    if es != [] {
      var init := es[..|es| - 1];
      var x := es[|es| - 1];
      AggregateShas(init);
      AggregateKeys(init);
      assert init + [x] == es;
      forall e ensures FirstSha(es, e) == if FirstSha(init, e) != "" then FirstSha(init, e) else if x.0 == e then x.1 else "" {
        FirstShaSnoc(init, x, e);
      }
      forall e | e !in AggregateEntries(init).stats ensures FirstSha(init, e) == "" {
        FirstShaAbsent(init, e);
      }
    }
  }

  lemma {:induction false} FirstShaAbsent(es: seq<(string, string)>, e: string)
    requires e !in Emails(es)
    ensures FirstSha(es, e) == ""
  {
    if es != [] {
      assert es[0].0 == Emails(es)[0];
      assert forall i :: 0 <= i < |es| - 1 ==> Emails(es[1..])[i] == Emails(es)[i + 1];
      FirstShaAbsent(es[1..], e);
    }
  }

  /** `order` lists emails of `ems` in the order of their first appearance in `ems`. */
  ghost predicate FirstSeenOrder(order: seq<string>, ems: seq<string>) {
    && (forall e :: e in order ==> e in ems)
    && forall i, j :: 0 <= i < j < |order| ==> FirstIndex(ems, order[i]) < FirstIndex(ems, order[j])
  }

  lemma FirstSeenGrow(order: seq<string>, ems: seq<string>, y: string)
    requires FirstSeenOrder(order, ems)
    ensures FirstSeenOrder(order, ems + [y])
  {
    forall e | e in order ensures FirstIndex(ems + [y], e) == FirstIndex(ems, e) {
      FirstIndexSnoc(ems, y, e);
    }
  }

  lemma FirstSeenAppend(order: seq<string>, ems: seq<string>, y: string)
    requires FirstSeenOrder(order, ems) && y !in ems
    ensures FirstSeenOrder(order + [y], ems + [y])
  {
    var all := ems + [y];
    FirstSeenGrow(order, ems, y);
    assert FirstIndex(all, y) == |ems|;
    forall i, j | 0 <= i < j < |order| + 1
      ensures FirstIndex(all, (order + [y])[i]) < FirstIndex(all, (order + [y])[j])
    {
      if j == |order| {
        assert FirstIndex(all, order[i]) == FirstIndex(ems, order[i]);
      }
    }
  }

  /** The insertion order is the order in which the emails first appear in the log. */
  lemma {:induction false} AggregateOrder(es: seq<(string, string)>)
    ensures FirstSeenOrder(AggregateEntries(es).order, Emails(es))
  {
    if es != [] {
      var init := es[..|es| - 1];
      var x := es[|es| - 1];
      AggregateOrder(init);
      AggregateKeys(init);
      assert Emails(es) == Emails(init) + [x.0];
      if x.0 in AggregateEntries(init).stats {
        FirstSeenGrow(AggregateEntries(init).order, Emails(init), x.0);
      } else {
        FirstSeenAppend(AggregateEntries(init).order, Emails(init), x.0);
      }
    }
  }

  /**
   * `d` is the dict of the entries `es`: its keys are their emails, listed once
   * each in order of first appearance; each count is the number of entries
   * with that email and is at least 1; each sha is the email's first non-empty
   * sha.
   */
  ghost predicate Summarizes(d: EmailStats, es: seq<(string, string)>) {
    && Valid(d)
    && (forall e :: e in d.stats <==> e in Emails(es))
    && (forall e :: e in d.stats ==> d.stats[e].commits == multiset(Emails(es))[e] >= 1)
    && (forall e :: e in d.stats ==> d.stats[e].sha == FirstSha(es, e))
    && FirstSeenOrder(d.order, Emails(es))
  }

  /** The loop's dict summarizes the entries it has seen. */
  lemma AggregateEntriesCorrect(es: seq<(string, string)>)
    ensures Summarizes(AggregateEntries(es), es)
  {
    AggregateKeys(es);
    AggregateCounts(es);
    AggregateShas(es);
    AggregateOrder(es);
  }

  /** What the loop computes from the `git log` output; every key is stripped. */
  lemma AggregateCorrect(stdout: string)
    ensures Summarizes(Aggregate(stdout), Entries(Lines(stdout)))
    ensures forall e :: e in Aggregate(stdout).stats ==> Trimmed(e)
  {
    var es := Entries(Lines(stdout));
    AggregateEntriesCorrect(es);
    EntriesStripped(Lines(stdout));
    KeysStripped(es);
  }

  lemma KeysStripped(es: seq<(string, string)>)
    requires forall i :: 0 <= i < |es| ==> Trimmed(es[i].0)
    ensures forall e :: e in AggregateEntries(es).stats ==> Trimmed(e)
  {
    AggregateKeys(es);
    forall e | e in AggregateEntries(es).stats ensures Trimmed(e) {
      var k :| 0 <= k < |Emails(es)| && Emails(es)[k] == e;
      assert es[k].0 == e;
    }
  }

  lemma {:induction false} EntriesStripped(lines: seq<string>)
    ensures forall i :: 0 <= i < |Entries(lines)| ==> Trimmed(Entries(lines)[i].0)
  {
    if lines != [] {
      var prev := Entries(lines[..|lines| - 1]);
      var r := ParseLine(lines[|lines| - 1]);
      EntriesStripped(lines[..|lines| - 1]);
      if r.Some? {
        assert Entries(lines) == prev + [r.value];
        TrimmedSnoc(prev, r.value);
      }
    }
  }

  lemma TrimmedSnoc(es: seq<(string, string)>, x: (string, string))
    requires forall i :: 0 <= i < |es| ==> Trimmed(es[i].0)
    requires Trimmed(x.0)
    ensures forall i :: 0 <= i < |es + [x]| ==> Trimmed((es + [x])[i].0)
  {
    forall i | 0 <= i < |es + [x]| ensures Trimmed((es + [x])[i].0) {
      if i < |es| {
        assert (es + [x])[i] == es[i];
      }
    }
  }

  /** Output with no `|` at all, including empty output, gives an empty dict. */
  lemma NoBarNoStats(stdout: string)
    requires '|' !in stdout
    ensures Aggregate(stdout) == EmailStats([], map[])
  {
    var lines := Lines(stdout);
    forall k | 0 <= k < |lines| ensures '|' !in Strip(lines[k]) {
      if '|' in Strip(lines[k]) {
        StripChars(lines[k], '|');
        SplitChars(Strip(stdout), '\n', k, '|');
        StripChars(stdout, '|');
      }
    }
    NoBarNoEntries(lines);
  }

  lemma {:induction false} NoBarNoEntries(lines: seq<string>)
    requires forall k :: 0 <= k < |lines| ==> '|' !in Strip(lines[k])
    ensures Entries(lines) == []
  {
    if lines != [] {
      NoBarNoEntries(lines[..|lines| - 1]);
    }
  }

  /** A line without `|` adds no entry, so it adds no key and changes no count. */
  lemma NoBarLineIgnored(lines: seq<string>, raw: string)
    requires '|' !in Strip(raw)
    ensures Entries(lines + [raw]) == Entries(lines)
    ensures AggregateEntries(Entries(lines + [raw])) == AggregateEntries(Entries(lines))
  {
    assert (lines + [raw])[..|lines|] == lines;
  }

  /** Only the first `|` splits a line, so a sha may itself contain `|`. */
  lemma ShaMayContainBar()
    ensures ParseLine("a|b|c") == Some(("a", "b|c"))
  {
    TrimmedStrip("a|b|c");
    assert IndexOf("a|b|c", '|') == Some(1);
    assert "a|b|c"[..1] == "a" && "a|b|c"[2..] == "b|c";
    TrimmedStrip("a");
    TrimmedStrip("b|c");
  }

  lemma EntriesStep(lines: seq<string>, i: nat)
    requires i < |lines|
    ensures Entries(lines[..i + 1]) == match ParseLine(lines[i])
      case None => Entries(lines[..i])
      case Some(entry) => Entries(lines[..i]) + [entry]
  {
    assert lines[..i + 1][..i] == lines[..i];
  }

  lemma AggregateSnoc(es: seq<(string, string)>, e: (string, string))
    ensures AggregateEntries(es + [e]) == AddCommit(AggregateEntries(es), e.0, e.1)
  {
    assert (es + [e])[..|es|] == es;
  }

  /**
   * The loop body on a line that contains `|`: `email_stats[email]`, created
   * by the defaultdict on first access, counts one more commit and keeps its
   * first non-empty sha.
   */
  method RecordCommit(order0: seq<string>, stats0: map<string, Stat>, email: string, sha: string)
    returns (order: seq<string>, stats: map<string, Stat>)
    ensures EmailStats(order, stats) == AddCommit(EmailStats(order0, stats0), email, sha)
  {
    order, stats := order0, stats0;
    var entry := Stat(0, "");
    if email in stats {
      entry := stats[email];
    } else {
      order := order + [email];
    }
    entry := entry.(commits := entry.commits + 1);
    if entry.sha == "" {
      entry := entry.(sha := sha);
    }
    stats := stats[email := entry];
  }

  /** The loop of `get_commit_email_stats` over the lines of `git log` output. */
  method GetCommitEmailStats(stdout: string) returns (d: EmailStats)
    ensures d == Aggregate(stdout)
    ensures Valid(d) && forall e :: e in d.stats ==> d.stats[e].commits >= 1
  {
    var lines := Lines(stdout);
    var order: seq<string> := [];
    var stats: map<string, Stat> := map[];
    for i := 0 to |lines|
      invariant EmailStats(order, stats) == AggregateEntries(Entries(lines[..i]))
    {
      EntriesStep(lines, i);
      var parsed := ParseLine(lines[i]);
      if parsed.Some? {
        var (email, sha) := parsed.value;
        AggregateSnoc(Entries(lines[..i]), (email, sha));
        order, stats := RecordCommit(order, stats, email, sha);
      }
    }
    assert lines[..|lines|] == lines;
    d := EmailStats(order, stats);
    AggregateCounted(Entries(lines));
  }
}
