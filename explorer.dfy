/** The crawl of `run`: a breadth-first exploration of name prefixes over an
    alphabet. A term whose results are cut off is split into its one-letter
    extensions until the depth limit; the rows of every other term are
    merged into the record store, and the new records may be handed to the
    artifact retrieval. The search form, the slider and the results table
    are an oracle `search` that fixes, per term, what the browser reports. */
module Explorer {
  import opened Wrappers
  import opened Seqs
  import opened Rows
  import opened Store
  import opened Retrieval

  /** The command-line settings the crawl consults. */
  datatype Config = Config(
    alphabet: string,
    maxDepth: int,
    splitThreshold: int,
    allowManualSlider: bool,
    downloadPdfs: bool,
    dbOnly: bool,
    maxPdfsPerQuery: int)

  /** The settings when none is given on the command line. */
  const DefaultConfig := Config("aábcdeéfghiíjklmnoóöőpqrstuúüűvwxyz", 3, 100, true, false, false, 0)

  /** What searching one term yields: whether the name field was found
      (otherwise the run stops with an error), whether the slider was
      solved automatically, whether the search could be submitted and
      awaited (otherwise the run stops with an error), the rows of the
      results table and the total hit count the page states, if any. */
  datatype Search = Search(
    filled: bool,
    sliderSolved: bool,
    submitted: bool,
    rows: seq<Row>,
    totalHits: Option<int>)

  /** A term whose results stayed cut off at the depth limit. */
  datatype Overflow = Overflow(term: string, rowCount: nat, totalHits: Option<int>)

  /** Everything the crawl depends on besides its own state: the settings,
      the search oracle, the record key (the crawler uses `RowKey`) and the
      per-row artifact retrieval with the file it leaves behind on success
      (the crawler uses `DownloadPdfForRow`). */
  datatype Env = Env(
    config: Config,
    search: string -> Search,
    key: Row -> string,
    attempt: (Row, set<string>) -> Attempt,
    destination: Row -> string)

  /** The state of `run`: the work queue, the terms taken up so far, the
      log of taken-up terms (in order; `[search] 'term'` is logged when a
      term is taken up, whether or not its search is then submitted), the
      record store, the unresolved overflows, the artifact counters and the
      artifact directory. */
  datatype Crawl = Crawl(
    queue: seq<string>,
    visited: set<string>,
    takenUp: seq<string>,
    table: Table,
    overflows: seq<Overflow>,
    pdfOk: nat,
    pdfFail: nat,
    stored: set<string>)

  /** The outcome of a step or of the whole run: it goes on (for a whole
      run: it completed), or an error stopped it, in the state given. */
  datatype Outcome = Running(state: Crawl) | Failed(state: Crawl)

  /** `list(dict.fromkeys(alphabet))`. */
  function Letters(config: Config): string {
    Dedup(config.alphabet)
  }

  /** `--db-only` switches artifact retrieval off. */
  predicate DownloadsOn(config: Config) {
    config.downloadPdfs && !config.dbOnly
  }

  /** The longest term the crawl can search. */
  function Depth(config: Config): (d: nat)
    ensures d >= 1 && d >= config.maxDepth
  {
    if config.maxDepth < 1 then 1 else config.maxDepth
  }

  /** The initial queue: each letter once, as a one-letter term. */
  function Seeds(letters: string): (terms: seq<string>)
    ensures |terms| == |letters| && forall i :: 0 <= i < |letters| ==> terms[i] == [letters[i]]
  {
    seq(|letters|, i requires 0 <= i < |letters| => [letters[i]])
  }

  /** The one-letter extensions of a term, in alphabet order. */
  function Expansions(term: string, letters: string): (terms: seq<string>)
    ensures |terms| == |letters| && forall i :: 0 <= i < |letters| ==> terms[i] == term + [letters[i]]
  {
    seq(|letters|, i requires 0 <= i < |letters| => term + [letters[i]])
  }

  /** The results shown are not all there is: the table is full, or the
      page states more hits than it lists. */
  predicate Truncated(rowCount: nat, totalHits: Option<int>, splitThreshold: int) {
    rowCount >= splitThreshold || (totalHits.Some? && totalHits.value > rowCount)
  }

  /** The crawl before the first search; `stored0` is the artifact directory
      as found. */
  function Init(env: Env, stored0: set<string>): Crawl {
    Crawl(Seeds(Letters(env.config)), {}, [], Empty, [], 0, 0, stored0)
  }

  /** The term at the head of the queue has not been taken up before, and
      its results are in hand. */
  predicate HasResults(c: Crawl, env: Env)
    requires c.queue != []
  {
    var o := env.search(c.queue[0]);
    && c.queue[0] !in c.visited
    && o.filled
    && (o.sliderSolved || env.config.allowManualSlider)
    && o.submitted
  }

  predicate IsTruncated(c: Crawl, env: Env)
    requires c.queue != []
  {
    var o := env.search(c.queue[0]);
    Truncated(|o.rows|, o.totalHits, env.config.splitThreshold)
  }

  /** The head term is split into its extensions. */
  predicate Expands(c: Crawl, env: Env)
    requires c.queue != []
  {
    HasResults(c, env) && IsTruncated(c, env) && |c.queue[0]| < env.config.maxDepth
  }

  /** The head term stays cut off at the depth limit. */
  predicate Overflows(c: Crawl, env: Env)
    requires c.queue != []
  {
    HasResults(c, env) && IsTruncated(c, env) && |c.queue[0]| >= env.config.maxDepth
  }

  /** Merge a term's rows, tagged with the term, into the store, and hand
      the new records to the artifact retrieval when it is on. */
  function Absorb(c: Crawl, term: string, rows: seq<Row>, env: Env): (r: Crawl)
    ensures r.table == MergeAll(c.table, Tag(rows, term), env.key)
    ensures r.queue == c.queue && r.visited == c.visited && r.takenUp == c.takenUp && r.overflows == c.overflows
    ensures var newRows := Fresh(c.table.rows.Keys, Tag(rows, term), env.key);
            if DownloadsOn(env.config) && newRows != [] then
              && r.pdfOk + r.pdfFail == c.pdfOk + c.pdfFail + |SelectedRows(newRows, env.config.maxPdfsPerQuery)|
              && c.pdfOk <= r.pdfOk && c.pdfFail <= r.pdfFail && c.stored <= r.stored
            else r.pdfOk == c.pdfOk && r.pdfFail == c.pdfFail && r.stored == c.stored
  {
    var tagged := Tag(rows, term);
    var newRows := Fresh(c.table.rows.Keys, tagged, env.key);
    var table := MergeAll(c.table, tagged, env.key);
    if DownloadsOn(env.config) && newRows != [] then
      var selected := SelectedRows(newRows, env.config.maxPdfsPerQuery);
      var t := TallyAll(selected, Tally(0, 0, c.stored), env.attempt, env.destination);
      TallyAllCounts(selected, Tally(0, 0, c.stored), env.attempt, env.destination);
      c.(table := table, pdfOk := c.pdfOk + t.ok, pdfFail := c.pdfFail + t.fail, stored := t.stored)
    else
      c.(table := table)
  }

  /** With the default settings the crawl retrieves no artifacts: merging
      a batch leaves the counters and the artifact directory alone. */
  lemma DefaultsRetrieveNothing(c: Crawl, term: string, rows: seq<Row>, env: Env)
    requires env.config == DefaultConfig
    ensures var r := Absorb(c, term, rows, env);
            r.pdfOk == c.pdfOk && r.pdfFail == c.pdfFail && r.stored == c.stored
  {
    assert !DownloadsOn(DefaultConfig);
  }

  /** What the crawl does with a term's results once they are in hand:
      split a cut-off term below the depth limit; otherwise report a
      cut-off term as an overflow and keep the rows. */
  function Results(s: Crawl, term: string, o: Search, env: Env): Crawl {
    var truncated := Truncated(|o.rows|, o.totalHits, env.config.splitThreshold);
    if truncated && |term| < env.config.maxDepth then
      s.(queue := s.queue + Expansions(term, Letters(env.config)))
    else
      var s' := if truncated then s.(overflows := s.overflows + [Overflow(term, |o.rows|, o.totalHits)]) else s;
      Absorb(s', term, o.rows, env)
  }

  /** One turn of the `while queue` loop. */
  function StepSpec(c: Crawl, env: Env): Outcome
    requires c.queue != []
  {
    var term := c.queue[0];
    var popped := c.(queue := c.queue[1..]);
    if term in c.visited then Running(popped)
    else
      var s := popped.(visited := c.visited + {term}, takenUp := c.takenUp + [term]);
      var o := env.search(term);
      if !o.filled then Failed(s)
      else if !o.sliderSolved && !env.config.allowManualSlider then Running(s)
      else if !o.submitted then Failed(s)
      else Running(Results(s, term, o, env))
  }

  /** A term taken up before is dropped without a search; any other term
      is taken up and logged, once (whether or not its search is
      submitted). */
  lemma StepSearchesNewTermsOnly(c: Crawl, env: Env)
    requires c.queue != []
    ensures var r := StepSpec(c, env);
            && (c.queue[0] in c.visited ==> r == Running(c.(queue := c.queue[1..])))
            && (c.queue[0] !in c.visited ==>
                  r.state.visited == c.visited + {c.queue[0]} && r.state.takenUp == c.takenUp + [c.queue[0]])
  {
  }

  /** A new term whose slider stays locked, with the manual slider not
      allowed, is marked visited and logged, and the loop moves on: nothing
      is searched, merged or reported. */
  lemma StepSliderFails(c: Crawl, env: Env)
    requires c.queue != [] && c.queue[0] !in c.visited
    requires var o := env.search(c.queue[0]);
             o.filled && !o.sliderSolved && !env.config.allowManualSlider
    ensures StepSpec(c, env)
            == Running(c.(queue := c.queue[1..], visited := c.visited + {c.queue[0]}, takenUp := c.takenUp + [c.queue[0]]))
  {
  }

  /** A new term whose name field cannot be found, or whose search cannot
      be submitted once the slider is solved (or may be solved by hand),
      stops the run with an error. */
  lemma StepAborts(c: Crawl, env: Env)
    requires c.queue != [] && c.queue[0] !in c.visited
    requires var o := env.search(c.queue[0]);
             || !o.filled
             || ((o.sliderSolved || env.config.allowManualSlider) && !o.submitted)
    ensures StepSpec(c, env).Failed?
    ensures StepSpec(c, env).state
            == c.(queue := c.queue[1..], visited := c.visited + {c.queue[0]}, takenUp := c.takenUp + [c.queue[0]])
  {
  }

  /** A cut-off term below the depth limit is split into its extensions, in
      alphabet order, at the back of the queue; nothing is stored or
      reported. */
  lemma StepExpands(c: Crawl, env: Env)
    requires c.queue != [] && Expands(c, env)
    ensures var r := StepSpec(c, env);
            && r.Running?
            && r.state.queue == c.queue[1..] + Expansions(c.queue[0], Letters(env.config))
            && r.state.table == c.table && r.state.overflows == c.overflows
            && r.state.pdfOk == c.pdfOk && r.state.pdfFail == c.pdfFail && r.state.stored == c.stored
  {
  }

  /** A cut-off term at the depth limit is reported exactly once, and its
      rows are still stored. */
  lemma StepOverflows(c: Crawl, env: Env)
    requires c.queue != [] && Overflows(c, env)
    ensures var r := StepSpec(c, env);
            var o := env.search(c.queue[0]);
            && r.Running?
            && r.state.queue == c.queue[1..]
            && r.state.overflows == c.overflows + [Overflow(c.queue[0], |o.rows|, o.totalHits)]
            && r.state.table == MergeAll(c.table, Tag(o.rows, c.queue[0]), env.key)
  {
  }

  /** Complete results are stored and reported nowhere else. */
  lemma StepAccepts(c: Crawl, env: Env)
    requires c.queue != [] && HasResults(c, env) && !IsTruncated(c, env)
    ensures var r := StepSpec(c, env);
            var o := env.search(c.queue[0]);
            && r.Running?
            && r.state.queue == c.queue[1..]
            && r.state.overflows == c.overflows
            && r.state.table == MergeAll(c.table, Tag(o.rows, c.queue[0]), env.key)
  {
  }

  /** A term the crawl may search: at least one and at most Depth letters,
      all from the alphabet. */
  predicate IsTerm(t: string, config: Config) {
    1 <= |t| <= Depth(config) && forall i :: 0 <= i < |t| ==> t[i] in config.alphabet
  }

  /** The invariant of the crawl: every queued or taken-up term is within
      the depth bound; the search log lists each taken-up term once; the
      store is well formed; overflows are reported for taken-up terms at the
      depth limit only. */
  ghost predicate Inv(c: Crawl, env: Env) {
    && (forall i :: 0 <= i < |c.queue| ==> IsTerm(c.queue[i], env.config))
    && (forall t :: t in c.visited ==> IsTerm(t, env.config))
    && Distinct(c.takenUp)
    && (forall t :: t in c.takenUp <==> t in c.visited)
    && WellFormed(c.table)
    && (forall i :: 0 <= i < |c.overflows| ==>
          c.overflows[i].term in c.visited && |c.overflows[i].term| >= env.config.maxDepth)
  }

  /** The words of length n over the letters. */
  ghost function Words(letters: string, n: nat): (w: set<string>)
    ensures forall t :: t in w ==> |t| == n
  {
    if n == 0 then {[]} else set t, c | t in Words(letters, n - 1) && c in letters :: t + [c]
  }

  lemma {:induction false} WordsComplete(letters: string, t: string)
    requires forall i :: 0 <= i < |t| ==> t[i] in letters
    ensures t in Words(letters, |t|)
    decreases |t|
  {
    if t != [] {
      var init := t[..|t| - 1];
      WordsComplete(letters, init);
      assert init + [t[|t| - 1]] == t;
    }
  }

  /** Every term the crawl may search, up to length n. */
  ghost function WordsUpTo(letters: string, n: nat): set<string> {
    if n == 0 then {} else WordsUpTo(letters, n - 1) + Words(letters, n)
  }

  lemma {:induction false} WordsUpToComplete(letters: string, n: nat, t: string)
    requires 1 <= |t| <= n && forall i :: 0 <= i < |t| ==> t[i] in letters
    ensures t in WordsUpTo(letters, n)
  {
    if |t| < n {
      WordsUpToComplete(letters, n - 1, t);
    } else {
      WordsComplete(letters, t);
    }
  }

  /** The finite set of terms the crawl may search. */
  ghost function Terms(config: Config): set<string> {
    WordsUpTo(config.alphabet, Depth(config))
  }

  /** The crawl starts in the invariant. */
  lemma InitInv(env: Env, stored0: set<string>)
    ensures Inv(Init(env, stored0), env)
  {
    var letters := Letters(env.config);
    DedupElements(env.config.alphabet);
    var q := Init(env, stored0).queue;
    forall i | 0 <= i < |q| ensures IsTerm(q[i], env.config) {
      assert q[i] == [letters[i]];
      assert letters[i] in letters;
    }
  }

  /** What one step may do to each part of the state. */
  ghost predicate Successor(c: Crawl, r: Crawl, env: Env)
    requires c.queue != []
  {
    var term := c.queue[0];
    var o := env.search(term);
    if term in c.visited then
      r.queue == c.queue[1..] && r.visited == c.visited && r.takenUp == c.takenUp
      && r.table == c.table && r.overflows == c.overflows
    else
      && r.visited == c.visited + {term}
      && r.takenUp == c.takenUp + [term]
      && (|| r.queue == c.queue[1..]
          || (|term| < env.config.maxDepth && r.queue == c.queue[1..] + Expansions(term, Letters(env.config))))
      && (|| r.overflows == c.overflows
          || (|term| >= env.config.maxDepth && r.overflows == c.overflows + [Overflow(term, |o.rows|, o.totalHits)]))
      && (r.table == c.table || r.table == MergeAll(c.table, Tag(o.rows, term), env.key))
  }

  lemma StepIsSuccessor(c: Crawl, env: Env)
    requires c.queue != []
    ensures Successor(c, StepSpec(c, env).state, env)
  {
  }

  /** The progress measure of the crawl drops when a new term of the
      finite set of terms is taken up. */
  lemma TakingUpShrinks(visited: set<string>, term: string, config: Config)
    requires IsTerm(term, config) && term !in visited
    ensures |Terms(config) - (visited + {term})| < |Terms(config) - visited|
  {
    WordsUpToComplete(config.alphabet, Depth(config), term);
    assert Terms(config) - visited == (Terms(config) - (visited + {term})) + {term};
  }

  /** Whatever a step may do to the queue keeps it within the terms. */
  lemma SuccessorQueueInTerms(c: Crawl, r: Crawl, env: Env)
    requires c.queue != [] && Successor(c, r, env)
    requires forall i :: 0 <= i < |c.queue| ==> IsTerm(c.queue[i], env.config)
    ensures forall i :: 0 <= i < |r.queue| ==> IsTerm(r.queue[i], env.config)
  {
    var cfg := env.config;
    var term := c.queue[0];
    var letters := Letters(cfg);
    DedupElements(cfg.alphabet);
    forall i | 0 <= i < |r.queue| ensures IsTerm(r.queue[i], cfg) {
      if i < |c.queue| - 1 {
        assert r.queue[i] == c.queue[i + 1];
      } else {
        var k := i - (|c.queue| - 1);
        assert r.queue[i] == Expansions(term, letters)[k] == term + [letters[k]];
        assert letters[k] in letters;
      }
    }
  }

  /** A step that takes up a new term logs it once, and reports an
      overflow only for it and only at the depth limit. */
  lemma SuccessorKeepsLog(c: Crawl, r: Crawl, env: Env)
    requires Inv(c, env) && c.queue != [] && Successor(c, r, env)
    ensures Distinct(r.takenUp) && (forall t :: t in r.takenUp <==> t in r.visited)
    ensures forall t :: t in r.visited ==> IsTerm(t, env.config)
    ensures forall i :: 0 <= i < |r.overflows| ==>
              r.overflows[i].term in r.visited && |r.overflows[i].term| >= env.config.maxDepth
  {
    var term := c.queue[0];
    assert IsTerm(term, env.config);
    if term !in c.visited {
      assert term !in c.takenUp;
      forall i | 0 <= i < |r.overflows|
        ensures r.overflows[i].term in r.visited && |r.overflows[i].term| >= env.config.maxDepth
      {
        if i < |c.overflows| {
          assert r.overflows[i] == c.overflows[i];
        }
      }
    }
  }

  /** Whatever a step may do keeps the invariant and makes progress: it
      takes up a new term, or it takes up none and the queue shrinks. */
  lemma SuccessorPreservesInv(c: Crawl, r: Crawl, env: Env)
    requires Inv(c, env) && c.queue != [] && Successor(c, r, env)
    ensures Inv(r, env)
    ensures || (r.visited == c.visited && |r.queue| < |c.queue|)
            || (c.visited < r.visited && |Terms(env.config) - r.visited| < |Terms(env.config) - c.visited|)
  {
    var term := c.queue[0];
    assert IsTerm(term, env.config);
    SuccessorQueueInTerms(c, r, env);
    SuccessorKeepsLog(c, r, env);
    if term !in c.visited {
      TakingUpShrinks(c.visited, term, env.config);
      if r.table != c.table {
        MergeAllWellFormed(c.table, Tag(env.search(term).rows, term), env.key);
      }
    }
  }

  /** Every step keeps the invariant and makes progress. */
  lemma StepPreservesInv(c: Crawl, env: Env)
    requires Inv(c, env) && c.queue != []
    ensures var r := StepSpec(c, env).state;
            && Inv(r, env)
            && (|| (r.visited == c.visited && |r.queue| < |c.queue|)
                || (c.visited < r.visited && |Terms(env.config) - r.visited| < |Terms(env.config) - c.visited|))
  {
    StepIsSuccessor(c, env);
    SuccessorPreservesInv(c, StepSpec(c, env).state, env);
  }

  /** The whole run from a state: steps until the queue is empty or a step
      fails. It terminates: every step takes up a new term of a finite set
      or shortens the queue. */
  function RunSpec(c: Crawl, env: Env): (r: Outcome)
    requires Inv(c, env)
    ensures r.Running? ==> r.state.queue == []
    decreases |Terms(env.config) - c.visited|, |c.queue|
  {
    if c.queue == [] then Running(c)
    else
      StepPreservesInv(c, env);
      match StepSpec(c, env)
      case Failed(c') => Failed(c')
      case Running(c') => RunSpec(c', env)
  }

  /** Whatever the run ends in satisfies the invariant: every taken-up term
      is within the depth bound and was taken up exactly once. */
  lemma {:induction false} RunPreservesInv(c: Crawl, env: Env)
    requires Inv(c, env)
    ensures Inv(RunSpec(c, env).state, env)
    decreases |Terms(env.config) - c.visited|, |c.queue|
  {
    if c.queue != [] {
      StepPreservesInv(c, env);
      var s := StepSpec(c, env);
      if s.Running? {
        RunPreservesInv(s.state, env);
      }
    }
  }

  /** The run only adds: taken-up terms stay in the log, in order, and
      stored records keep their keys and their places. */
  lemma {:induction false} RunOnlyAdds(c: Crawl, env: Env)
    requires Inv(c, env)
    ensures var r := RunSpec(c, env).state;
            && c.takenUp <= r.takenUp
            && c.table.keys <= r.table.keys
            && c.visited <= r.visited
    decreases |Terms(env.config) - c.visited|, |c.queue|
  {
    if c.queue != [] {
      StepPreservesInv(c, env);
      var s := StepSpec(c, env);
      StepOnlyAdds(c, env);
      if s.Running? {
        RunOnlyAdds(s.state, env);
      }
    }
  }

  /** A single step only adds to the search log and to the store's keys. */
  lemma StepOnlyAdds(c: Crawl, env: Env)
    requires Inv(c, env) && c.queue != []
    ensures var r := StepSpec(c, env).state;
            && c.takenUp <= r.takenUp
            && c.table.keys <= r.table.keys
            && c.visited <= r.visited
  {
    var r := StepSpec(c, env).state;
    StepIsSuccessor(c, env);
    if r.table != c.table {
      var term := c.queue[0];
      MergeAllKeys(c.table, Tag(env.search(term).rows, term), env.key);
    }
  }

  /** The crawler of `run`, over its own state. */
  class Crawler {
    const env: Env
    const alphabet: string
    const downloadPdfs: bool
    var queue: seq<string>
    var visited: set<string>
    var takenUp: seq<string>
    var order: seq<string>
    var collected: map<string, Row>
    var overflows: seq<Overflow>
    var pdfOk: nat
    var pdfFail: nat
    var stored: set<string>

    function State(): Crawl
      reads this
    {
      Crawl(queue, visited, takenUp, Table(order, collected), overflows, pdfOk, pdfFail, stored)
    }

    /** The settings the constructor derives once. */
    predicate Settled()
      reads this
    {
      alphabet == Letters(env.config) && downloadPdfs == DownloadsOn(env.config)
    }

    ghost predicate Valid()
      reads this
    {
      Settled() && Inv(State(), env)
    }

    /** Set up a crawl of a site: `stored0` is the artifact directory as
        found. */
    constructor (config: Config, search: string -> Search, site: Site, stored0: set<string>)
      ensures env == Env(config, search, RowKey, RowAttempt(site), RowDestination(site))
      ensures State() == Init(env, stored0)
      ensures Valid()
    {
      env := Env(config, search, RowKey, RowAttempt(site), RowDestination(site));
      downloadPdfs := config.downloadPdfs && !config.dbOnly;
      alphabet := Dedup(config.alphabet);
      queue := Seeds(Dedup(config.alphabet));
      visited := {};
      takenUp := [];
      order := [];
      collected := map[];
      overflows := [];
      pdfOk, pdfFail := 0, 0;
      stored := stored0;
      new;
      InitInv(env, stored0);
    }

    /** Tag every row with the term and store it under its key; return the
        rows whose key was not stored yet, in batch order. */
    method Merge(term: string, rows: seq<Row>) returns (newRows: seq<Row>)
      modifies this
      ensures Table(order, collected) == MergeAll(old(Table(order, collected)), Tag(rows, term), env.key)
      ensures newRows == Fresh(old(collected).Keys, Tag(rows, term), env.key)
      ensures queue == old(queue) && visited == old(visited) && takenUp == old(takenUp)
      ensures overflows == old(overflows) && pdfOk == old(pdfOk) && pdfFail == old(pdfFail) && stored == old(stored)
    {
      var table;
      table, newRows := MergeBatch(Table(order, collected), term, rows, env.key);
      order, collected := table.keys, table.rows;
    }

    /** Append the one-letter extensions of a term to the queue. */
    method Expand(term: string)
      requires Settled()
      modifies this
      ensures State() == old(State()).(queue := old(queue) + Expansions(term, Letters(env.config)))
    {
      var q := queue;
      for i := 0 to |alphabet|
        invariant q == old(queue) + Expansions(term, alphabet[..i])
      {
        assert Expansions(term, alphabet[..i + 1]) == Expansions(term, alphabet[..i]) + [term + [alphabet[i]]];
        q := q + [term + [alphabet[i]]];
      }
      assert alphabet[..|alphabet|] == alphabet;
      queue := q;
    }

    /** Keep a term's rows and retrieve the artifacts of the new records. */
    method AbsorbRows(term: string, rows: seq<Row>)
      requires Settled()
      modifies this
      ensures State() == Absorb(old(State()), term, rows, env)
    {
      var newRows := Merge(term, rows);
      if downloadPdfs && newRows != [] {
        var ok, fail, st := DownloadPdfsForRows(newRows, env.config.maxPdfsPerQuery, stored, env.attempt, env.destination);
        pdfOk, pdfFail, stored := pdfOk + ok, pdfFail + fail, st;
      }
    }

    /** Split, report or keep the results of a term. */
    method HandleResults(term: string, outcome: Search)
      requires Settled()
      modifies this
      ensures State() == Results(old(State()), term, outcome, env)
    {
      var rowCount := |outcome.rows|;
      var truncated := rowCount >= env.config.splitThreshold;
      if outcome.totalHits.Some? && outcome.totalHits.value > rowCount {
        truncated := true;
      }
      if truncated && |term| < env.config.maxDepth {
        Expand(term);
        return;
      }
      if truncated {
        overflows := overflows + [Overflow(term, rowCount, outcome.totalHits)];
      }
      AbsorbRows(term, outcome.rows);
    }

    /** One turn of the loop: take the next term, search it unless it was
        taken up before, and split, report or keep its results. */
    method Step() returns (failed: bool)
      requires Valid() && queue != []
      modifies this
      ensures Settled()
      ensures (if failed then Failed(State()) else Running(State())) == StepSpec(old(State()), env)
    {
      ghost var c := State();
      var term := queue[0];
      queue := queue[1..];
      if term in visited {
        failed := false;
      } else {
        visited := visited + {term};
        takenUp := takenUp + [term];
        var outcome := env.search(term);
        if !outcome.filled {
          failed := true;
        } else if !outcome.sliderSolved && !env.config.allowManualSlider {
          failed := false;
        } else if !outcome.submitted {
          failed := true;
        } else {
          HandleResults(term, outcome);
          failed := false;
        }
      }
    }

    /** `run`: crawl until the queue is empty, then list the stored rows in
        key order and compute their CSV columns; an error stops the run
        without output. */
    method Run() returns (failed: bool, columns: seq<string>)
      requires Valid()
      modifies this
      ensures Valid()
      ensures (if failed then Failed(State()) else Running(State())) == RunSpec(old(State()), env)
      ensures !failed ==> columns == Dedup(Names(Values(Table(order, collected))))
    {
      failed := false;
      columns := [];
      while queue != []
        invariant Valid()
        invariant RunSpec(State(), env) == RunSpec(old(State()), env)
        decreases |Terms(env.config) - visited|, |queue|
      {
        ghost var before := State();
        StepPreservesInv(before, env);
        failed := Step();
        assert State() == StepSpec(before, env).state;
        if failed {
          return;
        }
      }
      columns := ColumnUnion(Values(Table(order, collected)));
    }
  }
}
