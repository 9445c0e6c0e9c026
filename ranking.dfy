/**
 * `sorted(email_stats.items(), key=lambda x: x[1]['commits'], reverse=True)[:limit]`:
 * the dict's items ordered by commit count, largest first, keeping insertion
 * order among equal counts (Python's sort is stable, also with `reverse=True`),
 * then cut to the first `limit`.
 */
module Ranking {
  import opened CommitStats

  type Item = (string, Stat)

  /** The `--limit` default. */
  const DefaultLimit: nat := 20

  /** `email_stats.items()`: the entries in insertion order. */
  function Items(d: EmailStats): (r: seq<Item>)
    requires Valid(d)
    ensures |r| == |d.order|
    ensures forall i :: 0 <= i < |r| ==> r[i].0 == d.order[i] && r[i].1 == d.stats[d.order[i]]
  {
    ItemsOf(d.order, d.stats)
  }

  function ItemsOf(order: seq<string>, stats: map<string, Stat>): (r: seq<Item>)
    requires forall e :: e in order ==> e in stats
    ensures |r| == |order|
    ensures forall i :: 0 <= i < |r| ==> r[i].0 == order[i] && r[i].1 == stats[order[i]]
  {
    if order == [] then [] else [(order[0], stats[order[0]])] + ItemsOf(order[1..], stats)
  }

  ghost predicate NonIncreasing(s: seq<Item>) {
    forall i, j :: 0 <= i < j < |s| ==> s[i].1.commits >= s[j].1.commits
  }

  /** The items with exactly `c` commits, in their order in `s`. */
  function WithCount(s: seq<Item>, c: nat): (r: seq<Item>)
    ensures |r| <= |s|
  {
    if s == [] then []
    else if s[0].1.commits == c then [s[0]] + WithCount(s[1..], c)
    else WithCount(s[1..], c)
  }

  /** Puts `x` in front of the first element with at most as many commits. */
  function Insert(x: Item, s: seq<Item>): (r: seq<Item>)
    ensures |r| == |s| + 1
  {
    if s == [] || x.1.commits >= s[0].1.commits then [x] + s
    else [s[0]] + Insert(x, s[1..])
  }

  /** The stable sort by commit count, largest first. */
  function SortByCommits(items: seq<Item>): (r: seq<Item>)
    ensures |r| == |items|
  {
    if items == [] then [] else Insert(items[0], SortByCommits(items[1..]))
  }

  lemma {:induction false} InsertPermutes(x: Item, s: seq<Item>)
    ensures multiset(Insert(x, s)) == multiset(s) + multiset{x}
  {
    if s != [] && x.1.commits < s[0].1.commits {
      InsertPermutes(x, s[1..]);
      assert s == [s[0]] + s[1..];
    }
  }

  lemma ConsSorted(h: Item, rest: seq<Item>)
    requires NonIncreasing(rest)
    requires forall j :: 0 <= j < |rest| ==> rest[j].1.commits <= h.1.commits
    ensures NonIncreasing([h] + rest)
  {
    var s := [h] + rest;
    forall i, j | 0 <= i < j < |s| ensures s[i].1.commits >= s[j].1.commits {
      if i > 0 {
        assert s[i] == rest[i - 1] && s[j] == rest[j - 1];
      } else {
        assert s[j] == rest[j - 1];
      }
    }
  }

  lemma {:induction false} InsertSorted(x: Item, s: seq<Item>)
    requires NonIncreasing(s)
    ensures NonIncreasing(Insert(x, s))
  {
    if s == [] || x.1.commits >= s[0].1.commits {
      ConsSorted(x, s);
    } else {
      var rest := Insert(x, s[1..]);
      InsertSorted(x, s[1..]);
      InsertPermutes(x, s[1..]);
      forall j | 0 <= j < |rest| ensures rest[j].1.commits <= s[0].1.commits {
        assert rest[j] in multiset(s[1..]) + multiset{x};
        if rest[j] != x {
          assert rest[j] in s[1..];
        }
      }
      ConsSorted(s[0], rest);
    }
  }

  lemma {:induction false} InsertWithCount(x: Item, s: seq<Item>, c: nat)
    ensures WithCount(Insert(x, s), c) == (if x.1.commits == c then [x] else []) + WithCount(s, c)
  {
    if s != [] && x.1.commits < s[0].1.commits {
      InsertWithCount(x, s[1..], c);
    }
  }

  /**
   * The sort orders by commits, largest first, is a permutation of its input,
   * and keeps the input order among items with the same count.
   */
  lemma {:induction false} SortByCommitsCorrect(items: seq<Item>)
    ensures NonIncreasing(SortByCommits(items))
    ensures multiset(SortByCommits(items)) == multiset(items)
    ensures forall c: nat :: WithCount(SortByCommits(items), c) == WithCount(items, c)
  {
    if items != [] {
      SortByCommitsCorrect(items[1..]);
      InsertSorted(items[0], SortByCommits(items[1..]));
      InsertPermutes(items[0], SortByCommits(items[1..]));
      assert items == [items[0]] + items[1..];
      forall c: nat ensures WithCount(SortByCommits(items), c) == WithCount(items, c) {
        InsertWithCount(items[0], SortByCommits(items[1..]), c);
      }
    }
  }

  /** `[:limit]` of the sorted items. */
  function TopN(items: seq<Item>, limit: nat): (r: seq<Item>)
    ensures |r| == (if |items| <= limit then |items| else limit)
  {
    var sorted := SortByCommits(items);
    if |sorted| <= limit then sorted else sorted[..limit]
  }

  lemma {:induction false} WithCountPrefix(s: seq<Item>, n: nat, c: nat)
    requires n <= |s|
    ensures WithCount(s[..n], c) <= WithCount(s, c)
  {
    if n > 0 {
      assert s[..n][1..] == s[1..][..n - 1];
      WithCountPrefix(s[1..], n - 1, c);
    }
  }

  /**
   * The report shows `min(limit, #emails)` entries, largest counts first, each
   * taken from the dict, as the first entries of the sorted list; among equal
   * counts the ones shown are the first in insertion order.
   */
  lemma TopNCorrect(items: seq<Item>, limit: nat)
    ensures var top := TopN(items, limit);
      && |top| == (if |items| <= limit then |items| else limit)
      && top <= SortByCommits(items)
      && NonIncreasing(top)
      && multiset(top) <= multiset(items)
      && (forall c: nat :: WithCount(top, c) <= WithCount(items, c))
  {
    var sorted := SortByCommits(items);
    SortByCommitsCorrect(items);
    assert |sorted| == |items| by {
      assert |multiset(sorted)| == |multiset(items)|;
    }
    var top := TopN(items, limit);
    if limit < |sorted| {
      assert sorted == top + sorted[limit..];
      assert multiset(sorted) == multiset(top) + multiset(sorted[limit..]);
      forall c: nat ensures WithCount(top, c) <= WithCount(items, c) {
        WithCountPrefix(sorted, limit, c);
      }
    }
  }

  /** In a list ordered by commits, nothing after position `n` has more commits than anything before it. */
  lemma SplitOrdered(s: seq<Item>, n: nat)
    requires NonIncreasing(s) && n <= |s|
    ensures forall x: Item, y: Item :: x in multiset(s[n..]) && y in multiset(s[..n]) ==> x.1.commits <= y.1.commits
  {
    forall x: Item, y: Item | x in multiset(s[n..]) && y in multiset(s[..n]) ensures x.1.commits <= y.1.commits {
      var j :| n <= j < |s| && s[j] == x;
      var i :| 0 <= i < n && s[i] == y;
    }
  }

  /** No item left out has more commits than an item shown. */
  lemma TopNLargest(items: seq<Item>, limit: nat)
    ensures var top := TopN(items, limit);
      forall x: Item, y: Item :: x in multiset(items) - multiset(top) && y in multiset(top) ==> x.1.commits <= y.1.commits
  {
    var sorted := SortByCommits(items);
    SortByCommitsCorrect(items);
    var top := TopN(items, limit);
    var n := |top|;
    assert top == sorted[..n];
    assert sorted == sorted[..n] + sorted[n..];
    assert multiset(items) - multiset(top) == multiset(sorted[n..]);
    SplitOrdered(sorted, n);
  }

  /** Every entry shown is an `(email, stats)` item of the dict, and all of them are shown when there are at most `limit`. */
  lemma TopNEntries(d: EmailStats, limit: nat)
    requires Valid(d)
    ensures var top := TopN(Items(d), limit);
      && |top| == (if |d.order| <= limit then |d.order| else limit)
      && forall i :: 0 <= i < |top| ==> top[i].0 in d.stats && top[i].1 == d.stats[top[i].0]
  {
    var items := Items(d);
    var top := TopN(items, limit);
    TopNCorrect(items, limit);
    forall i | 0 <= i < |top| ensures top[i].0 in d.stats && top[i].1 == d.stats[top[i].0] {
      assert top[i] in multiset(items);
      var k :| 0 <= k < |items| && items[k] == top[i];
    }
  }

  lemma {:induction false} DistinctCount(s: seq<Item>)
    requires forall i, j :: 0 <= i < j < |s| ==> s[i].0 != s[j].0
    ensures forall x: Item :: multiset(s)[x] <= 1
  {
    if s != [] {
      DistinctCount(s[1..]);
      assert s == [s[0]] + s[1..];
      assert s[0] !in s[1..];
    }
  }

  lemma TwiceCount(t: seq<Item>, i: nat, j: nat)
    requires i < j < |t| && t[i] == t[j]
    ensures multiset(t)[t[i]] >= 2
  {
    assert t == t[..j] + t[j..];
    assert t[i] in t[..j] && t[j] in t[j..];
  }

  /** No email is shown twice. */
  lemma TopNDistinct(d: EmailStats, limit: nat)
    requires Valid(d)
    ensures var top := TopN(Items(d), limit);
      forall i, j :: 0 <= i < j < |top| ==> top[i].0 != top[j].0
  {
    var items := Items(d);
    var top := TopN(items, limit);
    TopNEntries(d, limit);
    TopNCorrect(items, limit);
    DistinctCount(items);
    forall i, j | 0 <= i < j < |top| ensures top[i].0 != top[j].0 {
      assert multiset(top)[top[i]] <= 1;
      if top[i].0 == top[j].0 {
        TwiceCount(top, i, j);
      }
    }
  }

  /** The item of an email that is not shown is among the items left out. */
  lemma NotShownItem(d: EmailStats, limit: nat, e: string)
    requires Valid(d) && e in d.stats
    requires var top := TopN(Items(d), limit); forall i :: 0 <= i < |top| ==> top[i].0 != e
    ensures (e, d.stats[e]) in multiset(Items(d)) - multiset(TopN(Items(d), limit))
  {
    var items := Items(d);
    var k :| 0 <= k < |d.order| && d.order[k] == e;
    assert items[k] == (e, d.stats[e]);
    assert (e, d.stats[e]) !in multiset(TopN(items, limit));
  }

  /** An email of the dict that is not shown has no more commits than any shown. */
  lemma TopNOmitted(d: EmailStats, limit: nat)
    requires Valid(d)
    ensures var top := TopN(Items(d), limit);
      forall e :: e in d.stats && (forall i :: 0 <= i < |top| ==> top[i].0 != e) ==>
        forall i :: 0 <= i < |top| ==> d.stats[e].commits <= top[i].1.commits
  {
    var items := Items(d);
    var top := TopN(items, limit);
    TopNLargest(items, limit);
    forall e, i | e in d.stats && (forall i :: 0 <= i < |top| ==> top[i].0 != e) && 0 <= i < |top|
      ensures d.stats[e].commits <= top[i].1.commits
    {
      NotShownItem(d, limit, e);
      assert top[i] in multiset(top);
    }
  }

  /**
   * What `sorted(email_stats.items(), ...)[:limit]` shows for the dict `d`:
   * `min(limit, #emails)` entries of `d`, largest counts first, no email twice,
   * and no email left out with more commits than one shown.
   */
  ghost predicate Shown(d: EmailStats, limit: nat) {
    && Valid(d)
    && var top := TopN(Items(d), limit);
      && |top| == (if |d.order| <= limit then |d.order| else limit)
      && NonIncreasing(top)
      && (forall i :: 0 <= i < |top| ==> top[i].0 in d.stats && top[i].1 == d.stats[top[i].0])
      && (forall i, j :: 0 <= i < j < |top| ==> top[i].0 != top[j].0)
      && (forall e :: e in d.stats && (forall i :: 0 <= i < |top| ==> top[i].0 != e) ==>
            forall i :: 0 <= i < |top| ==> d.stats[e].commits <= top[i].1.commits)
  }

  lemma TopNShown(d: EmailStats, limit: nat)
    requires Valid(d)
    ensures Shown(d, limit)
  {
    TopNEntries(d, limit);
    TopNCorrect(Items(d), limit);
    TopNDistinct(d, limit);
    TopNOmitted(d, limit);
  }

  /** Under the default `--limit`, the report shows every email when there are at most 20, else the 20 with the most commits. */
  lemma DefaultLimitShown(d: EmailStats)
    requires Valid(d)
    ensures Shown(d, DefaultLimit)
    ensures |TopN(Items(d), DefaultLimit)| == (if |d.order| <= 20 then |d.order| else 20)
  {
    TopNShown(d, DefaultLimit);
  }
}
