/**
 * The orchestrator: one scraping cycle runs every strategy and saves each
 * scraped item whose url the internship table does not hold yet, returning
 * the items it saved.
 */
module Jobs {
  import opened Wrappers
  import opened Calendar
  import opened Scraper

  // ---------------------------------------------------------------- the table

  /** A row of the internship table. */
  datatype InternshipRecord = InternshipRecord(
    origin: string,
    title: string,
    url: string,
    imageUrl: Option<string>,
    publishedAt: Option<JsDate>,
    foundAt: int,          // the time value of the moment the row was created
    isPublished: bool)     // whether it has been announced yet

  /** The table, by its unique `url` column. */
  type Rows = map<string, InternshipRecord>

  /** Every row sits under its own url. */
  ghost predicate Keyed(rows: Rows) {
    forall u :: u in rows ==> rows[u].url == u
  }

  /** Why a query on the table threw. */
  datatype StoreError = QueryFailed | UniqueViolation

  /** What goes wrong, if anything, while one item is being saved. */
  datatype StoreFault = NoFault | LookupFails | CreateFails

  /** The circumstances of one save: the fault, if any, and the clock reading taken for `foundAt`. */
  datatype SaveConditions = SaveConditions(fault: StoreFault, foundAt: int)

  /** The row created for a new item: the item's fields, the creation time, not yet announced. */
  function NewRecord(item: ScrapedInternship, foundAt: int): (r: InternshipRecord)
    ensures r.url == item.url && r.origin == item.origin && r.title == item.title
    ensures r.imageUrl == item.imageUrl && r.publishedAt == item.publishedAt
    ensures r.foundAt == foundAt && !r.isPublished
  {
    InternshipRecord(item.origin, item.title, item.url, item.imageUrl, item.publishedAt, foundAt, false)
  }

  /** The `internship` table, as the service reaches it. */
  class InternshipTable {
    var rows: Rows

    ghost predicate Valid()
      reads this
    {
      Keyed(rows)
    }

    constructor ()
      ensures Valid() && rows == map[]
    {
      rows := map[];
    }

    /** `findUnique({ where: { url } })`: the row under url, if any; a query that fails throws. */
    method FindUnique(url: string, fault: StoreFault) returns (r: Result<Option<InternshipRecord>, StoreError>)
      requires Valid()
      ensures fault == LookupFails <==> r.Err?
      ensures r.Ok? && r.value.Some? ==> url in rows && r.value.value == rows[url] && r.value.value.url == url
      ensures r.Ok? && r.value.None? ==> url !in rows
    {
      if fault == LookupFails {
        return Err(QueryFailed);
      }
      if url in rows {
        return Ok(Some(rows[url]));
      }
      return Ok(None);
    }

    /** `create({ data })`: adds the row, unless the query fails or the url is taken. */
    method Create(data: InternshipRecord, fault: StoreFault) returns (r: Result<InternshipRecord, StoreError>)
      requires Valid()
      modifies this
      ensures Valid()
      ensures r.Ok? <==> fault != CreateFails && data.url !in old(rows)
      ensures r.Ok? ==> r.value == data && rows == old(rows)[data.url := data]
      ensures r.Err? ==> rows == old(rows)
    {
      if fault == CreateFails {
        return Err(QueryFailed);
      }
      if data.url in rows {
        return Err(UniqueViolation);
      }
      rows := rows[data.url := data];
      return Ok(data);
    }
  }

  // ---------------------------------------------------------------- what a cycle does

  /** The result of saving one item: whether it was saved, and the table after. */
  datatype Outcome = Outcome(saved: bool, rows: Rows)

  /**
   * `saveIfNew(item)`: false when the lookup throws or finds the url, false
   * when the create throws, otherwise true with the new row added.
   */
  function Save(rows: Rows, item: ScrapedInternship, cond: SaveConditions): (o: Outcome)
    ensures o.saved <==> cond.fault.NoFault? && item.url !in rows
    ensures o.saved ==> o.rows == rows[item.url := NewRecord(item, cond.foundAt)]
    ensures !o.saved ==> o.rows == rows
  {
    if cond.fault.LookupFails? then Outcome(false, rows)
    else if item.url in rows then Outcome(false, rows)
    else if cond.fault.CreateFails? then Outcome(false, rows)
    else Outcome(true, rows[item.url := NewRecord(item, cond.foundAt)])
  }

  /** Items returned so far, and the table they left. */
  datatype Progress = Progress(saved: seq<ScrapedInternship>, rows: Rows)

  /** p followed by q, where q started from the table p left. */
  function Then(p: Progress, q: Progress): Progress {
    Progress(p.saved + q.saved, q.rows)
  }

  /** The circumstances of saving item i of strategy s's output. */
  type Oracle = (nat, nat) -> SaveConditions

  /** The inner loop from item `from` of strategy s's output on. */
  function RunItems(rows: Rows, s: nat, items: seq<ScrapedInternship>, from: nat, oracle: Oracle): (r: Progress)
    ensures from <= |items| ==> |r.saved| <= |items| - from
    ensures rows.Keys <= r.rows.Keys
    decreases |items| - from
  {
    if from >= |items| then Progress([], rows)
    else
      var o := Save(rows, items[from], oracle(s, from));
      Then(Progress(if o.saved then [items[from]] else [], o.rows), RunItems(o.rows, s, items, from + 1, oracle))
  }

  /** The outer loop from strategy `from` on; `batches[s]` is what strategy s scraped. */
  function RunBatches(rows: Rows, batches: seq<seq<ScrapedInternship>>, from: nat, oracle: Oracle): (r: Progress)
    ensures rows.Keys <= r.rows.Keys
    decreases |batches| - from
  {
    if from >= |batches| then Progress([], rows)
    else
      var p := RunItems(rows, from, batches[from], 0, oracle);
      Then(p, RunBatches(p.rows, batches, from + 1, oracle))
  }

  /** One more item of the inner loop, taken out of what is left to run. */
  lemma ItemStep(p: Progress, s: nat, items: seq<ScrapedInternship>, i: nat, oracle: Oracle, o: Outcome)
    requires i < |items| && o == Save(p.rows, items[i], oracle(s, i))
    ensures Then(Progress(p.saved + (if o.saved then [items[i]] else []), o.rows), RunItems(o.rows, s, items, i + 1, oracle))
      == Then(p, RunItems(p.rows, s, items, i, oracle))
  {
    var one: seq<ScrapedInternship> := if o.saved then [items[i]] else [];
    var rest := RunItems(o.rows, s, items, i + 1, oracle);
    assert (p.saved + one) + rest.saved == p.saved + (one + rest.saved);
  }

  /** One more strategy of the outer loop, taken out of what is left to run. */
  lemma BatchStep(before: Progress, batches: seq<seq<ScrapedInternship>>, s: nat, oracle: Oracle)
    requires s < |batches|
    ensures var q := RunItems(before.rows, s, batches[s], 0, oracle);
      Then(Then(before, q), RunBatches(q.rows, batches, s + 1, oracle))
        == Then(before, RunBatches(before.rows, batches, s, oracle))
  {
    var q := RunItems(before.rows, s, batches[s], 0, oracle);
    var rest := RunBatches(q.rows, batches, s + 1, oracle);
    assert (before.saved + q.saved) + rest.saved == before.saved + (q.saved + rest.saved);
  }

  /** The service that runs the cycle against the table. */
  class JobsService {
    const table: InternshipTable

    constructor (table: InternshipTable)
      ensures this.table == table
    {
      this.table := table;
    }

    /** Looks the url up and creates the row when it is missing; a failing query gives false. */
    method SaveIfNew(item: ScrapedInternship, cond: SaveConditions) returns (saved: bool)
      requires table.Valid()
      modifies table
      ensures table.Valid()
      ensures Outcome(saved, table.rows) == Save(old(table.rows), item, cond)
    {
      var found := table.FindUnique(item.url, cond.fault);
      if found.Err? {
        return false;
      }
      if found.value.Some? {
        return false;
      }
      var created := table.Create(NewRecord(item, cond.foundAt), cond.fault);
      if created.Err? {
        return false;
      }
      return true;
    }

    /** Step 2 of the cycle for strategy s: each scraped item in turn; returns the ones saved. */
    method SaveScraped(s: nat, scrapedData: seq<ScrapedInternship>, oracle: Oracle)
      returns (saved: seq<ScrapedInternship>)
      requires table.Valid()
      modifies table
      ensures table.Valid()
      ensures Progress(saved, table.rows) == RunItems(old(table.rows), s, scrapedData, 0, oracle)
    {
      saved := [];
      ghost var goal := RunItems(table.rows, s, scrapedData, 0, oracle);
      for i := 0 to |scrapedData|
        invariant table.Valid()
        invariant Then(Progress(saved, table.rows), RunItems(table.rows, s, scrapedData, i, oracle)) == goal
      {
        ghost var now := Progress(saved, table.rows);
        var item := scrapedData[i];
        var ok := SaveIfNew(item, oracle(s, i));
        ItemStep(now, s, scrapedData, i, oracle, Outcome(ok, table.rows));
        if ok {
          saved := saved + [item];
        }
        assert saved == now.saved + (if ok then [item] else []);
      }
    }

    /** Every strategy's items in turn; returns the ones saved, in that order. */
    method RunScrapingCycle(batches: seq<seq<ScrapedInternship>>, oracle: Oracle)
      returns (newInternships: seq<ScrapedInternship>)
      requires table.Valid()
      modifies table
      ensures table.Valid()
      ensures Progress(newInternships, table.rows) == RunBatches(old(table.rows), batches, 0, oracle)
    {
      newInternships := [];
      ghost var goal := RunBatches(table.rows, batches, 0, oracle);
      for s := 0 to |batches|
        invariant table.Valid()
        invariant Then(Progress(newInternships, table.rows), RunBatches(table.rows, batches, s, oracle)) == goal
      {
        ghost var before := Progress(newInternships, table.rows);
        var scrapedData := batches[s];
        var saved := SaveScraped(s, scrapedData, oracle);
        newInternships := newInternships + saved;
        BatchStep(before, batches, s, oracle);
      }
    }
  }
}
