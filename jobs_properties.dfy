/** What a scraping cycle guarantees about the table and the items it returns. */
module JobsProperties {
  import opened Wrappers
  import opened Scraper
  import opened Jobs
  import opened Uader
  import opened UaderProperties

  // ---------------------------------------------------------------- the table invariant

  /** r is the row created for item, at some moment. */
  predicate IsRecordOf(r: InternshipRecord, item: ScrapedInternship) {
    r == NewRecord(item, r.foundAt)
  }

  /**
   * What running part of a cycle from table `before` may do: the table stays
   * keyed by url, existing rows are kept as they were, each returned item is
   * new and now has its row, every new row belongs to a returned item, and no
   * url is returned twice.
   */
  ghost predicate Grows(before: Rows, p: Progress) {
    && Keyed(p.rows)
    && (forall u :: u in before ==> u in p.rows && p.rows[u] == before[u])
    && (forall j :: 0 <= j < |p.saved| ==>
          p.saved[j].url !in before && p.saved[j].url in p.rows && IsRecordOf(p.rows[p.saved[j].url], p.saved[j]))
    && NewSaved(before, p)
    && (forall j, k :: 0 <= j < k < |p.saved| ==> p.saved[j].url != p.saved[k].url)
  }

  /** Every row that was not there before was saved by an item of p. */
  ghost predicate NewSaved(before: Rows, p: Progress) {
    forall u :: u in p.rows && u !in before ==> exists j :: 0 <= j < |p.saved| && p.saved[j].url == u
  }

  /** Saving one item keeps the invariant. */
  lemma SaveGrows(rows: Rows, item: ScrapedInternship, cond: SaveConditions)
    requires Keyed(rows)
    ensures var o := Save(rows, item, cond);
      Grows(rows, Progress(if o.saved then [item] else [], o.rows))
  {
    var o := Save(rows, item, cond);
    if o.saved {
      var p := Progress([item], o.rows);
      forall u | u in p.rows && u !in rows
        ensures exists j :: 0 <= j < |p.saved| && p.saved[j].url == u
      {
        assert p.saved[0].url == u;
      }
    }
  }

  /** The invariant composes. */
  lemma GrowsThen(rows: Rows, p: Progress, q: Progress)
    requires Grows(rows, p) && Grows(p.rows, q)
    ensures Grows(rows, Then(p, q))
  {
    ThenSavedAreNew(rows, p, q);
    ThenNewAreSaved(rows, p, q);
    ThenDistinct(rows, p, q);
  }

  lemma ThenSavedAreNew(rows: Rows, p: Progress, q: Progress)
    requires Grows(rows, p) && Grows(p.rows, q)
    ensures var r := Then(p, q);
      forall j :: 0 <= j < |r.saved| ==>
        r.saved[j].url !in rows && r.saved[j].url in r.rows && IsRecordOf(r.rows[r.saved[j].url], r.saved[j])
  {
    var r := Then(p, q);
    forall j | 0 <= j < |r.saved|
      ensures r.saved[j].url !in rows && r.saved[j].url in r.rows && IsRecordOf(r.rows[r.saved[j].url], r.saved[j])
    {
      if j >= |p.saved| {
        assert r.saved[j] == q.saved[j - |p.saved|];
      } else {
        assert r.saved[j] == p.saved[j];
      }
    }
  }

  lemma ThenNewAreSaved(rows: Rows, p: Progress, q: Progress)
    requires NewSaved(rows, p) && NewSaved(p.rows, q)
    ensures NewSaved(rows, Then(p, q))
  {
    var r := Then(p, q);
    forall u | u in r.rows && u !in rows
      ensures exists j :: 0 <= j < |r.saved| && r.saved[j].url == u
    {
      if u in p.rows {
        var j :| 0 <= j < |p.saved| && p.saved[j].url == u;
        assert r.saved[j] == p.saved[j];
      } else {
        var j :| 0 <= j < |q.saved| && q.saved[j].url == u;
        assert r.saved[|p.saved| + j] == q.saved[j];
      }
    }
  }

  lemma ThenDistinct(rows: Rows, p: Progress, q: Progress)
    requires Grows(rows, p) && Grows(p.rows, q)
    ensures var r := Then(p, q);
      forall j, k :: 0 <= j < k < |r.saved| ==> r.saved[j].url != r.saved[k].url
  {
    var r := Then(p, q);
    forall j, k | 0 <= j < k < |r.saved|
      ensures r.saved[j].url != r.saved[k].url
    {
      if k >= |p.saved| {
        assert r.saved[k] == q.saved[k - |p.saved|];
        if j < |p.saved| {
          assert r.saved[j] == p.saved[j];
        } else {
          assert r.saved[j] == q.saved[j - |p.saved|];
        }
      } else {
        assert r.saved[j] == p.saved[j] && r.saved[k] == p.saved[k];
      }
    }
  }

  lemma {:induction false} RunItemsGrows(rows: Rows, s: nat, items: seq<ScrapedInternship>, from: nat, oracle: Oracle)
    requires Keyed(rows)
    ensures Grows(rows, RunItems(rows, s, items, from, oracle))
    decreases |items| - from
  {
    if from < |items| {
      var o := Save(rows, items[from], oracle(s, from));
      SaveGrows(rows, items[from], oracle(s, from));
      RunItemsGrows(o.rows, s, items, from + 1, oracle);
      GrowsThen(rows, Progress(if o.saved then [items[from]] else [], o.rows), RunItems(o.rows, s, items, from + 1, oracle));
    }
  }

  lemma {:induction false} RunBatchesGrows(rows: Rows, batches: seq<seq<ScrapedInternship>>, from: nat, oracle: Oracle)
    requires Keyed(rows)
    ensures Grows(rows, RunBatches(rows, batches, from, oracle))
    decreases |batches| - from
  {
    if from < |batches| {
      var p := RunItems(rows, from, batches[from], 0, oracle);
      RunItemsGrows(rows, from, batches[from], 0, oracle);
      RunBatchesGrows(p.rows, batches, from + 1, oracle);
      GrowsThen(rows, p, RunBatches(p.rows, batches, from + 1, oracle));
    }
  }

  /**
   * A whole cycle, store failures or not: the table never holds a row under
   * another url, old rows are never changed, the returned items are exactly
   * the new rows (each created from its item with isPublished false), and
   * every returned url is distinct and is now a key of the table.
   */
  lemma CycleInvariant(rows: Rows, batches: seq<seq<ScrapedInternship>>, oracle: Oracle)
    requires Keyed(rows)
    ensures var p := RunBatches(rows, batches, 0, oracle);
      && Keyed(p.rows)
      && (forall u :: u in rows ==> u in p.rows && p.rows[u] == rows[u])
      && (forall j :: 0 <= j < |p.saved| ==>
            p.saved[j].url !in rows && p.saved[j].url in p.rows
            && p.rows[p.saved[j].url] == NewRecord(p.saved[j], p.rows[p.saved[j].url].foundAt))
      && (forall u :: u in p.rows && u !in rows ==> exists j :: 0 <= j < |p.saved| && p.saved[j].url == u)
      && (forall j, k :: 0 <= j < k < |p.saved| ==> p.saved[j].url != p.saved[k].url)
  {
    RunBatchesGrows(rows, batches, 0, oracle);
  }

  /** A store failure loses only its own item: the cycle goes on with the next one and the same table. */
  lemma FailureSkipsItem(rows: Rows, s: nat, items: seq<ScrapedInternship>, i: nat, oracle: Oracle)
    requires i < |items| && !oracle(s, i).fault.NoFault?
    ensures RunItems(rows, s, items, i, oracle) == RunItems(rows, s, items, i + 1, oracle)
  {
    assert Save(rows, items[i], oracle(s, i)) == Outcome(false, rows);
  }

  // ---------------------------------------------------------------- without store failures

  /** Every strategy's output, one after the other. */
  function Flatten(batches: seq<seq<ScrapedInternship>>): (r: seq<ScrapedInternship>)
    ensures forall s :: 0 <= s < |batches| ==> |batches[s]| <= |r|
  {
    if batches == [] then [] else batches[0] + Flatten(batches[1..])
  }

  function Urls(items: seq<ScrapedInternship>): set<string> {
    set x | x in items :: x.url
  }

  /**
   * The reference answer: the items, in order, whose url is not in `known`
   * and has not been seen earlier in the sequence.
   */
  function Fresh(items: seq<ScrapedInternship>, known: set<string>): seq<ScrapedInternship> {
    if items == [] then []
    else if items[0].url in known then Fresh(items[1..], known)
    else [items[0]] + Fresh(items[1..], known + {items[0].url})
  }

  ghost predicate NoFaultsIn(s: nat, items: seq<ScrapedInternship>, from: nat, oracle: Oracle) {
    forall i :: from <= i < |items| ==> oracle(s, i).fault.NoFault?
  }

  /** No lookup and no create fails during the cycle. */
  ghost predicate NoFaults(batches: seq<seq<ScrapedInternship>>, oracle: Oracle) {
    forall s :: 0 <= s < |batches| ==> NoFaultsIn(s, batches[s], 0, oracle)
  }

  lemma UrlsAppend(a: seq<ScrapedInternship>, b: seq<ScrapedInternship>)
    ensures Urls(a + b) == Urls(a) + Urls(b)
  {
    forall u | u in Urls(a + b) ensures u in Urls(a) + Urls(b) {
      var x :| x in a + b && x.url == u;
    }
    forall u | u in Urls(a) + Urls(b) ensures u in Urls(a + b) {
      if u in Urls(a) {
        var x :| x in a && x.url == u;
        assert x in a + b;
      } else {
        var x :| x in b && x.url == u;
        assert x in a + b;
      }
    }
  }

  lemma UrlsCons(items: seq<ScrapedInternship>)
    requires items != []
    ensures Urls(items) == {items[0].url} + Urls(items[1..])
  {
    assert items == [items[0]] + items[1..];
    UrlsAppend([items[0]], items[1..]);
    assert Urls([items[0]]) == {items[0].url};
  }

  /** Without failures, the inner loop returns the fresh items and adds exactly their urls. */
  lemma {:induction false} RunItemsFresh(rows: Rows, s: nat, items: seq<ScrapedInternship>, from: nat, oracle: Oracle)
    requires from <= |items| && NoFaultsIn(s, items, from, oracle)
    ensures RunItems(rows, s, items, from, oracle).saved == Fresh(items[from..], rows.Keys)
    ensures RunItems(rows, s, items, from, oracle).rows.Keys == rows.Keys + Urls(items[from..])
    decreases |items| - from
  {
    if from == |items| {
      assert items[from..] == [];
    } else {
      var o := Save(rows, items[from], oracle(s, from));
      RunItemsFresh(o.rows, s, items, from + 1, oracle);
      assert items[from..][1..] == items[from + 1..];
      UrlsCons(items[from..]);
      assert o.rows.Keys == rows.Keys + {items[from].url};
    }
  }

  /** Fresh over two pieces is Fresh over the first, then Fresh over the second with the first's urls known. */
  lemma {:induction false} FreshAppend(a: seq<ScrapedInternship>, b: seq<ScrapedInternship>, known: set<string>)
    ensures Fresh(a + b, known) == Fresh(a, known) + Fresh(b, known + Urls(a))
  {
    if a == [] {
      assert a + b == b;
      assert Urls(a) == {};
      assert known + Urls(a) == known;
    } else {
      assert (a + b)[1..] == a[1..] + b;
      assert (a + b)[0] == a[0];
      UrlsCons(a);
      if a[0].url in known {
        FreshAppend(a[1..], b, known);
        assert known + Urls(a[1..]) == known + Urls(a);
      } else {
        FreshAppend(a[1..], b, known + {a[0].url});
        assert known + {a[0].url} + Urls(a[1..]) == known + Urls(a);
      }
    }
  }

  /** Without failures, a cycle returns the fresh items of all scraped data and adds exactly their urls. */
  lemma {:induction false} RunBatchesFresh(rows: Rows, batches: seq<seq<ScrapedInternship>>, from: nat, oracle: Oracle)
    requires from <= |batches|
    requires forall s :: from <= s < |batches| ==> NoFaultsIn(s, batches[s], 0, oracle)
    ensures RunBatches(rows, batches, from, oracle).saved == Fresh(Flatten(batches[from..]), rows.Keys)
    ensures RunBatches(rows, batches, from, oracle).rows.Keys == rows.Keys + Urls(Flatten(batches[from..]))
    decreases |batches| - from
  {
    if from == |batches| {
      assert batches[from..] == [];
    } else {
      var p := RunItems(rows, from, batches[from], 0, oracle);
      RunItemsFresh(rows, from, batches[from], 0, oracle);
      RunBatchesFresh(p.rows, batches, from + 1, oracle);
      assert batches[from][0..] == batches[from];
      assert batches[from..][1..] == batches[from + 1..];
      assert Flatten(batches[from..]) == batches[from] + Flatten(batches[from + 1..]);
      FreshAppend(batches[from], Flatten(batches[from + 1..]), rows.Keys);
      UrlsAppend(batches[from], Flatten(batches[from + 1..]));
    }
  }

  /** Without failures, the cycle returns exactly the fresh items of what the strategies scraped, in order. */
  lemma CycleReturnsFresh(rows: Rows, batches: seq<seq<ScrapedInternship>>, oracle: Oracle)
    requires NoFaults(batches, oracle)
    ensures RunBatches(rows, batches, 0, oracle).saved == Fresh(Flatten(batches), rows.Keys)
    ensures RunBatches(rows, batches, 0, oracle).rows.Keys == rows.Keys + Urls(Flatten(batches))
  {
    assert batches[0..] == batches;
    RunBatchesFresh(rows, batches, 0, oracle);
  }

  /**
   * Each item Fresh picks is the first in the sequence to carry its url, and
   * that url was not known.
   */
  lemma {:induction false} FreshIsFirstOccurrence(items: seq<ScrapedInternship>, known: set<string>, r: ScrapedInternship)
    requires r in Fresh(items, known)
    ensures r.url !in known
    ensures exists j :: 0 <= j < |items| && items[j] == r && forall i :: 0 <= i < j ==> items[i].url != r.url
  {
    if items[0].url in known {
      FreshIsFirstOccurrence(items[1..], known, r);
      var j :| 0 <= j < |items[1..]| && items[1..][j] == r && forall i :: 0 <= i < j ==> items[1..][i].url != r.url;
      assert items[j + 1] == r;
      forall i | 0 <= i < j + 1 ensures items[i].url != r.url {
        if i > 0 {
          assert items[i] == items[1..][i - 1];
        }
      }
    } else if r == items[0] {
      assert items[0] == r;
    } else {
      FreshIsFirstOccurrence(items[1..], known + {items[0].url}, r);
      var j :| 0 <= j < |items[1..]| && items[1..][j] == r && forall i :: 0 <= i < j ==> items[1..][i].url != r.url;
      assert items[j + 1] == r;
      forall i | 0 <= i < j + 1 ensures items[i].url != r.url {
        if i > 0 {
          assert items[i] == items[1..][i - 1];
        }
      }
    }
  }

  /**
   * Without failures, when the scraped data repeats a url, the item returned
   * for it is its first occurrence.
   */
  lemma FirstOccurrenceSaved(rows: Rows, batches: seq<seq<ScrapedInternship>>, oracle: Oracle, r: ScrapedInternship)
    requires NoFaults(batches, oracle)
    requires r in RunBatches(rows, batches, 0, oracle).saved
    ensures r.url !in rows
    ensures exists j ::
      && 0 <= j < |Flatten(batches)| && Flatten(batches)[j] == r
      && (forall i :: 0 <= i < j ==> Flatten(batches)[i].url != r.url)
  {
    CycleReturnsFresh(rows, batches, oracle);
    FreshIsFirstOccurrence(Flatten(batches), rows.Keys, r);
  }

  // ---------------------------------------------------------------- idempotence

  lemma {:induction false} RunItemsKnown(rows: Rows, s: nat, items: seq<ScrapedInternship>, from: nat, oracle: Oracle)
    requires forall i :: from <= i < |items| ==> items[i].url in rows
    ensures RunItems(rows, s, items, from, oracle) == Progress([], rows)
    decreases |items| - from
  {
    if from < |items| {
      RunItemsKnown(rows, s, items, from + 1, oracle);
    }
  }

  /** When the table already holds every url, a run saves nothing and changes nothing, whatever fails. */
  lemma {:induction false} RunBatchesKnown(rows: Rows, batches: seq<seq<ScrapedInternship>>, from: nat, oracle: Oracle)
    requires from <= |batches|
    requires Urls(Flatten(batches[from..])) <= rows.Keys
    ensures RunBatches(rows, batches, from, oracle) == Progress([], rows)
    decreases |batches| - from
  {
    if from < |batches| {
      assert batches[from..][1..] == batches[from + 1..];
      assert Flatten(batches[from..]) == batches[from] + Flatten(batches[from + 1..]);
      UrlsAppend(batches[from], Flatten(batches[from + 1..]));
      forall i | 0 <= i < |batches[from]| ensures batches[from][i].url in rows {
        assert batches[from][i] in batches[from];
      }
      RunItemsKnown(rows, from, batches[from], 0, oracle);
      RunBatchesKnown(rows, batches, from + 1, oracle);
    }
  }

  /**
   * Two cycles over the same scraped data, the first without store
   * failures: the second returns nothing and leaves the table as the first
   * left it.
   */
  lemma CycleIdempotent(rows: Rows, batches: seq<seq<ScrapedInternship>>, first: Oracle, second: Oracle)
    requires NoFaults(batches, first)
    ensures var p := RunBatches(rows, batches, 0, first);
      RunBatches(p.rows, batches, 0, second) == Progress([], p.rows)
  {
    CycleReturnsFresh(rows, batches, first);
    assert batches[0..] == batches;
    RunBatchesKnown(RunBatches(rows, batches, 0, first).rows, batches, 0, second);
  }

  // ---------------------------------------------------------------- where returned items come from

  lemma {:induction false} RunItemsFromItems(rows: Rows, s: nat, items: seq<ScrapedInternship>, from: nat, oracle: Oracle)
    ensures forall x :: x in RunItems(rows, s, items, from, oracle).saved ==> x in items[from..]
    decreases |items| - from
  {
    if from < |items| {
      var o := Save(rows, items[from], oracle(s, from));
      RunItemsFromItems(o.rows, s, items, from + 1, oracle);
      assert forall x :: x in items[from + 1..] ==> x in items[from..];
    }
  }

  lemma {:induction false} RunBatchesFromBatches(rows: Rows, batches: seq<seq<ScrapedInternship>>, from: nat, oracle: Oracle)
    requires from <= |batches|
    ensures forall x :: x in RunBatches(rows, batches, from, oracle).saved ==> x in Flatten(batches[from..])
    decreases |batches| - from
  {
    if from < |batches| {
      var p := RunItems(rows, from, batches[from], 0, oracle);
      RunItemsFromItems(rows, from, batches[from], 0, oracle);
      RunBatchesFromBatches(p.rows, batches, from + 1, oracle);
      assert batches[from][0..] == batches[from];
      assert batches[from..][1..] == batches[from + 1..];
      assert Flatten(batches[from..]) == batches[from] + Flatten(batches[from + 1..]);
    }
  }

  /** Every item a cycle returns is one of the items the strategies scraped. */
  lemma CycleReturnsScraped(rows: Rows, batches: seq<seq<ScrapedInternship>>, oracle: Oracle)
    ensures forall x :: x in RunBatches(rows, batches, 0, oracle).saved ==> x in Flatten(batches)
  {
    assert batches[0..] == batches;
    RunBatchesFromBatches(rows, batches, 0, oracle);
  }

  /**
   * With the UADER strategy as the only one, every item a cycle returns is
   * tagged UADER, has a non-empty url and a valid publication date.
   */
  lemma UaderCycleItems(rows: Rows, listing: Probe<seq<Article>>, world: World, oracle: Oracle)
    ensures forall x :: x in RunBatches(rows, [Scraped(listing, world)], 0, oracle).saved ==> WellFormedItem(x)
  {
    var batches := [Scraped(listing, world)];
    CycleReturnsScraped(rows, batches, oracle);
    assert Flatten(batches) == Scraped(listing, world) + Flatten([]);
    ScrapedWellFormed(listing, world);
  }
}
