/** One scheduled run of the ingestion flow (`process_movies`): the
    checkpoint decides where the run starts, at most `RecordsPerDay`
    catalog entries are looked up and normalised in order, a failed lookup
    is passed over, and the checkpoint is saved with the cursor and today's
    date. Reading and writing the checkpoint file, reading the catalog file,
    the clock and the lookup requests are inputs here. */
module Driver {
  import opened Strings
  import opened Catalog
  import opened Clean

  /** The per-run quota. */
  const RecordsPerDay: nat := 5

  /** The checkpoint: the cursor into the catalog and the date ("YYYY-MM-DD")
      of the run that saved it. */
  datatype State = State(lastIndex: nat, lastDate: string)

  /** The checkpoint used when none has been saved yet. */
  const FreshState := State(0, "")

  /** What looking up one catalog entry gave: a decoded response, or a
      request error (connection failure, error status). */
  datatype FetchOutcome = Fetched(raw: RawMovie) | RequestFailed

  /** What became of one entry of the window. */
  datatype Outcome = Cleaned(movie: Movie) | Failed

  datatype Processed = Processed(index: nat, entry: Entry, outcome: Outcome)

  datatype RunResult = RunResult(state: State, processed: seq<Processed>)

  /** The body of the loop for one entry: clean the response, or note the
      request error and carry on. */
  function Handle(o: FetchOutcome): (r: Outcome)
    ensures r.Failed? <==> o.RequestFailed?
    ensures r.Cleaned? ==> r.movie == CleanMovie(o.raw)
  {
    match o
    case Fetched(raw) => Cleaned(CleanMovie(raw))
    case RequestFailed => Failed
  }

  /** Where a run starts: at the saved cursor on the day it was saved, and
      at the beginning of the catalog on any other day. */
  function StartIndex(st: State, today: string): (i: nat)
    ensures today != st.lastDate ==> i == 0
    ensures today == st.lastDate ==> i == st.lastIndex
  {
    if today != st.lastDate then 0 else st.lastIndex
  }

  /** The loop over `range(i, end)` on the catalog entries: every entry is
      handled in turn, in order, whatever the outcome of the one before. */
  function Iterate(entries: seq<Entry>, fetch: nat -> FetchOutcome, i: nat, end: nat): (ps: seq<Processed>)
    requires i <= end && (i == end || end <= |entries|)
    ensures |ps| == end - i
    ensures forall k :: 0 <= k < |ps| ==> ps[k] == Processed(i + k, entries[i + k], Handle(fetch(i + k)))
    decreases end - i
  {
    if i == end then []
    else
      var rest := Iterate(entries, fetch, i + 1, end);
      var ps := [Processed(i, entries[i], Handle(fetch(i)))] + rest;
      assert forall k :: 0 < k < |ps| ==> ps[k] == rest[k - 1];
      ps
  }

  /** Where the cursor stands after a run from `start` over a catalog of
      `len` entries: `min(start + RecordsPerDay, len)` when that range is
      not empty, since the cursor is set past each entry in turn, and
      `start` itself when it is. */
  function WindowEnd(start: nat, len: nat): (end: nat)
    ensures start <= end
    ensures start < len ==> end == Min(start + RecordsPerDay, len) && end - start <= RecordsPerDay
    ensures start >= len ==> end == start
  {
    if start < len then Min(start + RecordsPerDay, len) else start
  }

  /** What one run on date `today` over the catalog `entries` (the title
      and year columns, row by row) must give, with `fetch(i)` the outcome
      of looking up entry `i`: the window
      `[start, min(start + RecordsPerDay, |entries|))` is handled in
      increasing order, each entry once, with that entry and its lookup's
      outcome; the saved cursor is the end of the window, or the
      start when the window is empty because the start lies past the
      catalog; the saved date is today. */
  ghost predicate IsRunOf(st: State, today: string, entries: seq<Entry>, fetch: nat -> FetchOutcome,
                          next: State, processed: seq<Processed>)
  {
    var start := StartIndex(st, today);
    var end := WindowEnd(start, |entries|);
    && next == State(end, today)
    && |processed| == end - start
    && forall k :: 0 <= k < |processed| ==>
         processed[k] == Processed(start + k, entries[start + k], Handle(fetch(start + k)))
  }

  /** `IsRunOf` leaves no choice: it describes exactly one result. */
  lemma RunDeterministic(st: State, today: string, entries: seq<Entry>, fetch: nat -> FetchOutcome,
                         next: State, processed: seq<Processed>, next': State, processed': seq<Processed>)
    requires IsRunOf(st, today, entries, fetch, next, processed)
    requires IsRunOf(st, today, entries, fetch, next', processed')
    ensures next == next' && processed == processed'
  {
    assert |processed| == |processed'|;
    forall k | 0 <= k < |processed| ensures processed[k] == processed'[k] {
    }
  }

  /** One run, as a function of the checkpoint, the date, the catalog entries
      and the lookup outcomes. */
  function Run(st: State, today: string, entries: seq<Entry>, fetch: nat -> FetchOutcome): (r: RunResult)
    ensures IsRunOf(st, today, entries, fetch, r.state, r.processed)
  {
    var start := StartIndex(st, today);
    var end := WindowEnd(start, |entries|);
    RunResult(State(end, today), Iterate(entries, fetch, start, end))
  }

  /** The body of the `for` loop over one window: every index from `start`
      up to `end` is fetched and handled, and the cursor ends on `end`. */
  method ProcessWindow(entries: seq<Entry>, fetch: nat -> FetchOutcome, start: nat, end: nat)
    returns (cursor: nat, processed: seq<Processed>)
    requires start <= end <= |entries|
    ensures cursor == end
    ensures |processed| == end - start
    ensures forall k :: 0 <= k < |processed| ==>
      processed[k] == Processed(start + k, entries[start + k], Handle(fetch(start + k)))
  {
    processed := [];
    cursor := start;
    while cursor < end
      invariant start <= cursor <= end
      invariant |processed| == cursor - start
      invariant forall k :: 0 <= k < |processed| ==>
        processed[k] == Processed(start + k, entries[start + k], Handle(fetch(start + k)))
    {
      processed := processed + [Processed(cursor, entries[cursor], Handle(fetch(cursor)))];
      cursor := cursor + 1;
    }
  }

  /** The flow as the source writes it, once the catalog is read: the
      cursor is reset on a new day, then a loop moves it past every entry
      of the window. It meets the same description as `Run`, hence gives
      the same result. */
  method ProcessEntries(st: State, today: string, entries: seq<Entry>, fetch: nat -> FetchOutcome)
    returns (next: State, processed: seq<Processed>)
    ensures IsRunOf(st, today, entries, fetch, next, processed)
  {
    var lastIndex := st.lastIndex;
    if today != st.lastDate {
      lastIndex := 0;
    }
    var endIndex := Min(lastIndex + RecordsPerDay, |entries|);
    ghost var start := lastIndex;
    assert start == StartIndex(st, today);
    processed := [];
    if lastIndex < endIndex {
      lastIndex, processed := ProcessWindow(entries, fetch, lastIndex, endIndex);
    }
    assert lastIndex == WindowEnd(start, |entries|);
    next := State(lastIndex, today);
  }

  /** The whole flow: the catalog's title column is parsed row by row, then
      processed as above. */
  method ProcessMovies(st: State, today: string, rows: seq<string>, fetch: nat -> FetchOutcome)
    returns (next: State, processed: seq<Processed>)
    ensures IsRunOf(st, today, ReadCatalog(rows), fetch, next, processed)
  {
    var entries := ReadCatalog(rows);
    next, processed := ProcessEntries(st, today, entries, fetch);
  }

  /** On a new day the stored cursor is irrelevant: the run is the one a
      checkpoint at index 0 would give. */
  lemma NewDayIgnoresCursor(st: State, today: string, entries: seq<Entry>, fetch: nat -> FetchOutcome)
    requires st.lastDate != today
    ensures Run(st, today, entries, fetch) == Run(State(0, today), today, entries, fetch)
  {
  }

  /** A failed lookup neither stops the run nor is retried in it: the entry
      is recorded as failed, the cursor ends past it, and every other entry
      of the window is handled as it would have been without the failure. */
  lemma FailureIsolated(st: State, today: string, entries: seq<Entry>, fetch: nat -> FetchOutcome,
                        fetch': nat -> FetchOutcome, j: nat)
    requires forall i :: i != j ==> fetch'(i) == fetch(i)
    requires fetch'(j) == RequestFailed
    ensures var r, r' := Run(st, today, entries, fetch), Run(st, today, entries, fetch');
      && r'.state == r.state
      && |r'.processed| == |r.processed|
      && (forall k :: 0 <= k < |r.processed| && r.processed[k].index != j ==> r'.processed[k] == r.processed[k])
      && (forall k :: 0 <= k < |r.processed| && r.processed[k].index == j ==> r'.processed[k].outcome == Failed)
      && (forall k :: 0 <= k < |r.processed| && r.processed[k].index == j ==> r'.state.lastIndex > j)
  {
  }

  /** On the day it was saved the cursor never moves back. */
  lemma SameDayMonotone(st: State, today: string, entries: seq<Entry>, fetch: nat -> FetchOutcome)
    requires st.lastDate == today
    ensures Run(st, today, entries, fetch).state.lastIndex >= st.lastIndex
  {
  }

  /** Once the cursor has reached the end of the catalog, further runs that
      day look nothing up and save the same checkpoint. */
  lemma SameDayFixpoint(st: State, today: string, entries: seq<Entry>, fetch: nat -> FetchOutcome)
    requires st.lastDate == today && st.lastIndex >= |entries|
    ensures Run(st, today, entries, fetch) == RunResult(st, [])
  {
  }

  /** `n` runs one after the other on the same day, each starting from the
      checkpoint the previous one saved; the entries they handled, in order. */
  function RunsOnDay(st: State, today: string, entries: seq<Entry>, fetch: nat -> FetchOutcome, n: nat): RunResult
    decreases n
  {
    if n == 0 then RunResult(st, [])
    else
      var first := Run(st, today, entries, fetch);
      var rest := RunsOnDay(first.state, today, entries, fetch, n - 1);
      RunResult(rest.state, first.processed + rest.processed)
  }

  /** Resuming within a day: `n` runs from a checkpoint of today handle the
      next `n * RecordsPerDay` entries (or up to the end of the catalog)
      each exactly once and in catalog order, and leave the cursor after
      them. */
  lemma {:induction false} ResumeWithinDay(st: State, today: string, entries: seq<Entry>, fetch: nat -> FetchOutcome, n: nat)
    requires st.lastDate == today && st.lastIndex <= |entries|
    ensures var r := RunsOnDay(st, today, entries, fetch, n);
      var hi := Min(st.lastIndex + n * RecordsPerDay, |entries|);
      && r.state == State(hi, today)
      && |r.processed| == hi - st.lastIndex
      && forall k :: 0 <= k < |r.processed| ==> r.processed[k].index == st.lastIndex + k
    decreases n
  {
    if n > 0 {
      var first := Run(st, today, entries, fetch);
      var rest := RunsOnDay(first.state, today, entries, fetch, n - 1);
      ResumeWithinDay(first.state, today, entries, fetch, n - 1);
      var all := first.processed + rest.processed;
      forall k | 0 <= k < |all| ensures all[k].index == st.lastIndex + k {
        if k >= |first.processed| {
          assert all[k] == rest.processed[k - |first.processed|];
        }
      }
    }
  }

  /** A new day: the first run starts again at the beginning, and `n` runs
      that day handle the first `n * RecordsPerDay` entries (or the whole
      catalog) each exactly once, in catalog order. */
  lemma NewDayCoversCatalog(st: State, today: string, entries: seq<Entry>, fetch: nat -> FetchOutcome, n: nat)
    requires st.lastDate != today && n > 0
    ensures var r := RunsOnDay(st, today, entries, fetch, n);
      var hi := Min(n * RecordsPerDay, |entries|);
      && r.state == State(hi, today)
      && |r.processed| == hi
      && forall k :: 0 <= k < hi ==> r.processed[k].index == k
  {
    var st0 := State(0, today);
    assert Run(st, today, entries, fetch) == Run(st0, today, entries, fetch);
    assert RunsOnDay(st, today, entries, fetch, n) == RunsOnDay(st0, today, entries, fetch, n);
    ResumeWithinDay(st0, today, entries, fetch, n);
  }

  /** A catalog of seven entries: the first run of a day takes entries 0..4,
      the second 5 and 6, a third changes nothing, and the next day starts
      over at entry 0. */
  lemma SevenRowScenario(entries: seq<Entry>, fetch: nat -> FetchOutcome)
    requires |entries| == 7
    ensures var r1 := Run(FreshState, "2024-05-01", entries, fetch);
      var r2 := Run(r1.state, "2024-05-01", entries, fetch);
      var r3 := Run(r2.state, "2024-05-01", entries, fetch);
      var r4 := Run(r3.state, "2024-05-02", entries, fetch);
      && r1.state == State(5, "2024-05-01") && |r1.processed| == 5
      && r2.state == State(7, "2024-05-01") && |r2.processed| == 2 && r2.processed[0].index == 5
      && r3.state == r2.state && r3.processed == []
      && r4.state == State(5, "2024-05-02") && r4.processed[0].index == 0
  {
  }
}
