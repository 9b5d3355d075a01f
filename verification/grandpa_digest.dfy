/** The GRANDPA queries of the node runtime that read a block header's digest.

    A digest is a sequence of log items. Some are GRANDPA signals; the rest
    belong to other modules (the system module's changes-trie root, Aura's
    pre-runtime item). `grandpa_pending_change` and `grandpa_forced_change`
    walk the GRANDPA signals in digest order and return what GRANDPA's scraper
    makes of the first signal it recognises, or nothing if it recognises none.

    The scrapers themselves belong to the GRANDPA module, which is not part of
    this model: each is a parameter `scrape: Signal -> Option<Change>`. So is
    the type of a scheduled change. */
module GrandpaDigest {
  import opened Primitives

  /** A digest log item: a GRANDPA signal, or an item of another module. */
  datatype Log<Signal, Item> = Grandpa(signal: Signal) | Other(item: Item)

  /** The item at `i` is a GRANDPA signal that `scrape` recognises. */
  predicate IsHit<S, X, C>(logs: seq<Log<S, X>>, scrape: S -> Option<C>, i: int)
    requires 0 <= i < |logs|
  {
    logs[i].Grandpa? && scrape(logs[i].signal).Some?
  }

  /** `r` is what a first-match scan of `logs` must return: nothing when no
      item is a hit, and otherwise the scrape of the earliest hit. */
  ghost predicate IsFirstMatch<S, X, C>(logs: seq<Log<S, X>>, scrape: S -> Option<C>, r: Option<C>)
  {
    && (r.None? <==> forall i :: 0 <= i < |logs| ==> !IsHit(logs, scrape, i))
    && (r.Some? ==>
          exists i :: 0 <= i < |logs| && IsHit(logs, scrape, i)
                      && r == scrape(logs[i].signal)
                      && forall j :: 0 <= j < i ==> !IsHit(logs, scrape, j))
  }

  /** The first-match scan of a digest, one item at a time: the reference
      definition the runtime's loops are held to. */
  function FirstGrandpaScrape<S, X, C>(logs: seq<Log<S, X>>, scrape: S -> Option<C>): (r: Option<C>)
    ensures IsFirstMatch(logs, scrape, r)
    decreases |logs|
  {
    if |logs| == 0 then None
    else if logs[0].Grandpa? && scrape(logs[0].signal).Some? then
      assert IsHit(logs, scrape, 0);
      scrape(logs[0].signal)
    else
      var rest := FirstGrandpaScrape(logs[1..], scrape);
      FirstMatchPastMiss(logs, scrape, rest);
      rest
  }

  /** A scan that misses on the first item returns what the scan of the rest returns. */
  lemma FirstMatchPastMiss<S, X, C>(logs: seq<Log<S, X>>, scrape: S -> Option<C>, rest: Option<C>)
    requires |logs| > 0
    requires !IsHit(logs, scrape, 0)
    requires IsFirstMatch(logs[1..], scrape, rest)
    ensures IsFirstMatch(logs, scrape, rest)
  {
    var tail := logs[1..];
    forall i | 1 <= i < |logs|
      ensures IsHit(logs, scrape, i) == IsHit(tail, scrape, i - 1)
    {
      assert logs[i] == tail[i - 1];
    }
    if rest.Some? {
      var k :| 0 <= k < |tail| && IsHit(tail, scrape, k) && rest == scrape(tail[k].signal)
               && forall j :: 0 <= j < k ==> !IsHit(tail, scrape, j);
      assert IsHit(logs, scrape, k + 1);
      assert forall j :: 0 <= j < k + 1 ==> !IsHit(logs, scrape, j) by {
        forall j | 1 <= j < k + 1
          ensures !IsHit(logs, scrape, j)
        {
          assert !IsHit(tail, scrape, j - 1);
        }
      }
    } else {
      forall i | 1 <= i < |logs|
        ensures !IsHit(logs, scrape, i)
      {
        assert !IsHit(tail, scrape, i - 1);
      }
    }
  }

  /** The loop the runtime runs for both queries: walk the digest, skip the
      items of other modules, and return the first recognised GRANDPA signal. */
  method ScanGrandpaLogs<S, X, C>(logs: seq<Log<S, X>>, scrape: S -> Option<C>) returns (r: Option<C>)
    ensures IsFirstMatch(logs, scrape, r)
  {
    for k := 0 to |logs|
      invariant forall j :: 0 <= j < k ==> !IsHit(logs, scrape, j)
    {
      match logs[k]
      case Grandpa(signal) =>
        var change := scrape(signal);
        if change.Some? {
          assert IsHit(logs, scrape, k);
          return change;
        }
      case Other(_) =>
    }
    return None;
  }

  /** `grandpa_pending_change(digest)`: the authority-set change the digest
      schedules, scraped by GRANDPA's `scrape_digest_change`. */
  method GrandpaPendingChange<S, X, C>(logs: seq<Log<S, X>>, scrapeChange: S -> Option<C>)
    returns (r: Option<C>)
    ensures IsFirstMatch(logs, scrapeChange, r)
    ensures r == FirstGrandpaScrape(logs, scrapeChange)
  {
    r := ScanGrandpaLogs(logs, scrapeChange);
    FirstMatchIsUnique(logs, scrapeChange, r, FirstGrandpaScrape(logs, scrapeChange));
  }

  /** `grandpa_forced_change(digest)`: the forced authority-set change the
      digest schedules, with the block number it is forced at, scraped by
      GRANDPA's `scrape_digest_forced_change`. */
  method GrandpaForcedChange<S, X, N, C>(logs: seq<Log<S, X>>, scrapeForced: S -> Option<(N, C)>)
    returns (r: Option<(N, C)>)
    ensures IsFirstMatch(logs, scrapeForced, r)
    ensures r == FirstGrandpaScrape(logs, scrapeForced)
  {
    r := ScanGrandpaLogs(logs, scrapeForced);
    FirstMatchIsUnique(logs, scrapeForced, r, FirstGrandpaScrape(logs, scrapeForced));
  }

  /** A digest has exactly one first-match result. */
  lemma FirstMatchIsUnique<S, X, C>(logs: seq<Log<S, X>>, scrape: S -> Option<C>, r1: Option<C>, r2: Option<C>)
    requires IsFirstMatch(logs, scrape, r1)
    requires IsFirstMatch(logs, scrape, r2)
    ensures r1 == r2
  {
  }

  /** The `filter_map` of the runtime's loops: the GRANDPA signals of a
      digest, in digest order. */
  function GrandpaSignals<S, X>(logs: seq<Log<S, X>>): (r: seq<S>)
    ensures |r| <= |logs|
    ensures forall s :: s in r ==> Grandpa(s) in logs
    ensures forall i :: 0 <= i < |logs| && logs[i].Grandpa? ==> logs[i].signal in r
    decreases |logs|
  {
    if |logs| == 0 then []
    else if logs[0].Grandpa? then [logs[0].signal] + GrandpaSignals(logs[1..])
    else GrandpaSignals(logs[1..])
  }

  /** The search half of the runtime's loops: the first signal `scrape` recognises. */
  function FirstScraped<S, C>(signals: seq<S>, scrape: S -> Option<C>): (r: Option<C>)
    ensures r.None? <==> forall i :: 0 <= i < |signals| ==> scrape(signals[i]).None?
    ensures r.Some? ==>
      exists i :: 0 <= i < |signals| && r == scrape(signals[i])
                  && forall j :: 0 <= j < i ==> scrape(signals[j]).None?
    decreases |signals|
  {
    if |signals| == 0 then None
    else if scrape(signals[0]).Some? then scrape(signals[0])
    else
      var rest := FirstScraped(signals[1..], scrape);
      assert forall i :: 1 <= i < |signals| ==> signals[i] == signals[1..][i - 1];
      assert rest.Some? ==>
        exists i :: 0 <= i < |signals| && rest == scrape(signals[i])
                    && forall j :: 0 <= j < i ==> scrape(signals[j]).None? by {
        if rest.Some? {
          var k :| 0 <= k < |signals| - 1 && rest == scrape(signals[1..][k])
                   && forall j :: 0 <= j < k ==> scrape(signals[1..][j]).None?;
          assert rest == scrape(signals[k + 1]);
        }
      }
      rest
  }

  /** Scanning the digest item by item is the same as filtering out the GRANDPA
      signals first and then searching them, as the runtime writes it. */
  lemma {:induction false} ScanIsFilterThenSearch<S, X, C>(logs: seq<Log<S, X>>, scrape: S -> Option<C>)
    ensures FirstGrandpaScrape(logs, scrape) == FirstScraped(GrandpaSignals(logs), scrape)
    decreases |logs|
  {
    if |logs| > 0 {
      ScanIsFilterThenSearch(logs[1..], scrape);
      if logs[0].Grandpa? {
        var signals := GrandpaSignals(logs);
        assert signals[0] == logs[0].signal;
        assert signals[1..] == GrandpaSignals(logs[1..]);
      }
    }
  }

  /** Filtering a concatenation filters each part. */
  lemma {:induction false} GrandpaSignalsOfConcat<S, X>(a: seq<Log<S, X>>, b: seq<Log<S, X>>)
    ensures GrandpaSignals(a + b) == GrandpaSignals(a) + GrandpaSignals(b)
    decreases |a|
  {
    if |a| == 0 {
      assert a + b == b;
    } else {
      assert (a + b)[1..] == a[1..] + b;
      GrandpaSignalsOfConcat(a[1..], b);
    }
  }

  /** Appending a log appends its signal, if it is a GRANDPA log: the filter
      keeps the GRANDPA signals in digest order, each once. */
  lemma GrandpaSignalsSnoc<S, X>(logs: seq<Log<S, X>>, l: Log<S, X>)
    ensures GrandpaSignals(logs + [l]) ==
      GrandpaSignals(logs) + (if l.Grandpa? then [l.signal] else [])
  {
    GrandpaSignalsOfConcat(logs, [l]);
    assert [l][1..] == [];
  }

  /** Scanning a concatenation: the first part's result if it has one,
      otherwise the second part's. */
  lemma {:induction false} ScanOfConcat<S, X, C>(a: seq<Log<S, X>>, b: seq<Log<S, X>>, scrape: S -> Option<C>)
    ensures FirstGrandpaScrape(a + b, scrape) ==
      if FirstGrandpaScrape(a, scrape).Some? then FirstGrandpaScrape(a, scrape)
      else FirstGrandpaScrape(b, scrape)
    decreases |a|
  {
    if |a| == 0 {
      assert a + b == b;
    } else {
      assert (a + b)[1..] == a[1..] + b;
      ScanOfConcat(a[1..], b, scrape);
    }
  }

  /** Inserting an item of another module anywhere in the digest leaves the
      result of the scan unchanged. */
  lemma InsertingOtherLogKeepsScan<S, X, C>(logs: seq<Log<S, X>>, i: nat, item: X, scrape: S -> Option<C>)
    requires i <= |logs|
    ensures FirstGrandpaScrape(logs[..i] + [Other(item)] + logs[i..], scrape) == FirstGrandpaScrape(logs, scrape)
  {
    var other: seq<Log<S, X>> := [Other(item)];
    assert (other + logs[i..])[1..] == logs[i..];
    assert logs[..i] + other + logs[i..] == logs[..i] + (other + logs[i..]);
    assert logs[..i] + logs[i..] == logs;
    ScanOfConcat(logs[..i], other + logs[i..], scrape);
    ScanOfConcat(logs[..i], logs[i..], scrape);
  }

  /** Removing an item of another module from anywhere in the digest leaves
      the result of the scan unchanged. */
  lemma RemovingOtherLogKeepsScan<S, X, C>(logs: seq<Log<S, X>>, i: nat, scrape: S -> Option<C>)
    requires i < |logs|
    requires logs[i].Other?
    ensures FirstGrandpaScrape(logs[..i] + logs[i + 1..], scrape) == FirstGrandpaScrape(logs, scrape)
  {
    var removed := logs[..i] + logs[i + 1..];
    assert removed[..i] == logs[..i];
    assert removed[i..] == logs[i + 1..];
    assert removed[..i] + [Other(logs[i].item)] + removed[i..] == logs;
    InsertingOtherLogKeepsScan(removed, i, logs[i].item, scrape);
  }
}
