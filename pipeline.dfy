/**
 * The batched extract-and-append loop of process_token_balances and
 * process_defi_trades: for each offset i in range(0, len(addresses), B) the
 * loop queries the batch addresses[i:i+B] and writes the rows it gets to the
 * analysis's CSV file, with mode 'w' for the batch at offset 0 and 'a' for
 * every later one.
 *
 * The remote query service is an oracle: a function from the request to
 * either the result rows or a failure, which aborts the run (the exception
 * propagates out of the loop; lines already written stay in the file).
 */
module Pipeline {
  import opened Sequences
  import opened Batching
  import opened Query
  import opened CsvSink

  /** What the remote service gives back for one request. */
  datatype QueryResponse = Rows(rows: seq<Row>) | Failed

  /** Why a run stopped early: range() refused a zero step, or the query for a batch failed. */
  datatype RunError = StepIsZero | QueryFailed(batch: nat)

  datatype Outcome = Completed | Aborted(error: RunError)

  /** What a run leaves behind: how it ended, the requests it sent, and the output file. */
  datatype RunResult = RunResult(outcome: Outcome, issued: seq<QueryRequest>, file: FileState)

  /** The default batch_size of both process functions. */
  const DefaultBatchSize: int := 50

  /** The request for each batch, in order. */
  function Requests(a: Analysis, bs: seq<seq<string>>): (rs: seq<QueryRequest>)
    ensures |rs| == |bs|
  {
    if bs == [] then [] else [Request(a, bs[0])] + Requests(a, bs[1..])
  }

  /** The k-th request is the one for the k-th batch. */
  lemma {:induction false} RequestsAt(a: Analysis, bs: seq<seq<string>>)
    ensures forall k :: 0 <= k < |bs| ==> Requests(a, bs)[k] == Request(a, bs[k])
  {
    if bs != [] {
      RequestsAt(a, bs[1..]);
    }
  }

  /**
   * The requests the loop sends when every query succeeds. A negative batch
   * size makes range() empty, so nothing is sent.
   */
  function Plan(a: Analysis, addresses: seq<string>, batchSize: int): seq<QueryRequest>
  {
    if batchSize <= 0 then [] else Requests(a, Batches(addresses, batchSize))
  }

  /** The oracle's answer to each request, in order. */
  function Responses(plan: seq<QueryRequest>, oracle: QueryRequest -> QueryResponse): (rs: seq<QueryResponse>)
    ensures |rs| == |plan|
  {
    if plan == [] then [] else [oracle(plan[0])] + Responses(plan[1..], oracle)
  }

  /** The k-th response is the oracle's answer to the k-th request. */
  lemma {:induction false} ResponsesAt(plan: seq<QueryRequest>, oracle: QueryRequest -> QueryResponse)
    ensures forall k :: 0 <= k < |plan| ==> Responses(plan, oracle)[k] == oracle(plan[k])
  {
    if plan != [] {
      ResponsesAt(plan[1..], oracle);
    }
  }

  /** The write mode for the batch at offset i: 'a' if i > 0 else 'w'. */
  function ModeAt(i: nat): Mode
  {
    if i > 0 then Append else Truncate
  }

  /** The position of the first failed response, or |rs| when none failed. */
  function FirstFailure(rs: seq<QueryResponse>): (j: nat)
    ensures j <= |rs|
    ensures forall k :: 0 <= k < j ==> rs[k].Rows?
    ensures j < |rs| ==> rs[j].Failed?
  {
    if rs == [] || rs[0].Failed? then 0 else 1 + FirstFailure(rs[1..])
  }

  /** The rows of a sequence of successful responses. */
  function RowsOf(rs: seq<QueryResponse>): (rows: seq<seq<Row>>)
    requires forall k :: 0 <= k < |rs| ==> rs[k].Rows?
    ensures |rows| == |rs|
    ensures forall k :: 0 <= k < |rs| ==> rows[k] == rs[k].rows
  {
    if rs == [] then [] else [rs[0].rows] + RowsOf(rs[1..])
  }

  /**
   * The file after writing one result per batch, in batch order: the first
   * with 'w', the others with 'a'.
   */
  function RunWrites(f: FileState, results: seq<seq<Row>>): FileState
    decreases |results|
  {
    if results == [] then f
    else
      var n := |results| - 1;
      AfterWrite(RunWrites(f, results[..n]), results[n], ModeAt(n))
  }

  /**
   * What one call of the process function does, from the file it starts
   * with: range(0, n, 0) raises before any query; otherwise the batches are
   * queried in order until one fails, and the rows of every successful query
   * before that are written.
   */
  function RunSpec(a: Analysis, addresses: seq<string>, batchSize: int,
                   oracle: QueryRequest -> QueryResponse, f: FileState): RunResult
  {
    if batchSize == 0 then RunResult(Aborted(StepIsZero), [], f)
    else
      var plan := Plan(a, addresses, batchSize);
      var rs := Responses(plan, oracle);
      var j := FirstFailure(rs);
      if j < |rs| then RunResult(Aborted(QueryFailed(j)), plan[..j + 1], RunWrites(f, RowsOf(rs[..j])))
      else RunResult(Completed, plan, RunWrites(f, RowsOf(rs)))
  }

  /** Every response of the oracle that carries rows carries rows with one key set. */
  ghost predicate UniformShape(oracle: QueryRequest -> QueryResponse)
  {
    forall req :: oracle(req).Rows? ==> SameColumns(oracle(req).rows)
  }

  /**
   * The loop shared by process_token_balances and process_defi_trades,
   * for analysis `a` writing to `file`.
   */
  method ProcessAnalysis(a: Analysis, addresses: seq<string>, batchSize: int,
                         oracle: QueryRequest -> QueryResponse, file: CsvFile)
    returns (outcome: Outcome, issued: seq<QueryRequest>)
    requires file.name == OutputFile(a)
    requires UniformShape(oracle)
    modifies file
    ensures RunResult(outcome, issued, file.State()) == RunSpec(a, addresses, batchSize, oracle, old(file.State()))
  {
    if batchSize == 0 {
      return Aborted(StepIsZero), [];
    }
    outcome, issued := Completed, [];
    if batchSize < 0 {
      // range(0, len(addresses), batchSize) is empty for a negative step
      return;
    }
    ghost var f0 := file.State();
    ghost var written: seq<seq<Row>> := [];
    var i: nat := 0;
    var k: nat := 0;
    Progress0(a, addresses, batchSize, oracle);
    while i < |addresses|
      invariant Progress(a, addresses, batchSize, oracle, i, k, issued, written)
      invariant file.State() == RunWrites(f0, written)
      decreases |addresses| - i
    {
      var batch := Slice(addresses, i, batchSize);
      var request := Request(a, batch);
      ProgressStep(a, addresses, batchSize, oracle, i, k, issued, written);
      RunSpecAborted(a, addresses, batchSize, oracle, f0, i, k, issued, written);
      issued := issued + [request];
      var response := oracle(request);
      if response.Failed? {
        return Aborted(QueryFailed(k)), issued;
      }
      file.Write(response.rows, ModeAt(i));
      RunWritesSnoc(f0, written, response.rows);
      written := written + [response.rows];
      i, k := i + batchSize, k + 1;
    }
    RunSpecCompleted(a, addresses, batchSize, oracle, f0, i, k, issued, written);
  }

  /** process_token_balances(addresses, batch_size=50). */
  method ProcessTokenBalances(addresses: seq<string>, oracle: QueryRequest -> QueryResponse,
                              file: CsvFile, batchSize: int := DefaultBatchSize)
    returns (outcome: Outcome, issued: seq<QueryRequest>)
    requires file.name == OutputFile(TokenBalances)
    requires UniformShape(oracle)
    modifies file
    ensures RunResult(outcome, issued, file.State()) == RunSpec(TokenBalances, addresses, batchSize, oracle, old(file.State()))
  {
    outcome, issued := ProcessAnalysis(TokenBalances, addresses, batchSize, oracle, file);
  }

  /** process_defi_trades(addresses, batch_size=50). */
  method ProcessDefiTrades(addresses: seq<string>, oracle: QueryRequest -> QueryResponse,
                           file: CsvFile, batchSize: int := DefaultBatchSize)
    returns (outcome: Outcome, issued: seq<QueryRequest>)
    requires file.name == OutputFile(DefiTrades)
    requires UniformShape(oracle)
    modifies file
    ensures RunResult(outcome, issued, file.State()) == RunSpec(DefiTrades, addresses, batchSize, oracle, old(file.State()))
  {
    outcome, issued := ProcessAnalysis(DefiTrades, addresses, batchSize, oracle, file);
  }

  /**
   * The state of the loop after k successful batches: the next offset is i,
   * the first k planned requests were sent and each got rows, and `written`
   * holds those rows.
   */
  ghost predicate Progress(a: Analysis, addresses: seq<string>, batchSize: int,
                           oracle: QueryRequest -> QueryResponse,
                           i: nat, k: nat, issued: seq<QueryRequest>, written: seq<seq<Row>>)
  {
    && batchSize > 0
    && |issued| == k
    && (i == 0 <==> k == 0)
    && Plan(a, addresses, batchSize) == issued + Requests(a, BatchesFrom(addresses, i, batchSize))
    && Answered(oracle, issued, written)
  }

  /** Each request in `issued` got the rows at the same position of `written`. */
  ghost predicate Answered(oracle: QueryRequest -> QueryResponse, issued: seq<QueryRequest>, written: seq<seq<Row>>)
  {
    |issued| == |written| && forall m :: 0 <= m < |issued| ==> oracle(issued[m]) == Rows(written[m])
  }

  /** A request that got rows extends the answered requests. */
  lemma {:induction false} AnsweredSnoc(oracle: QueryRequest -> QueryResponse, issued: seq<QueryRequest>,
                                        written: seq<seq<Row>>, request: QueryRequest)
    requires Answered(oracle, issued, written) && oracle(request).Rows?
    ensures Answered(oracle, issued + [request], written + [oracle(request).rows])
  {
    var issued', written' := issued + [request], written + [oracle(request).rows];
    forall m | 0 <= m < |issued'|
      ensures oracle(issued'[m]) == Rows(written'[m])
    {
      if m < |issued| {
        assert issued'[m] == issued[m] && written'[m] == written[m];
      }
    }
  }

  /** Writing one more result extends the run's writes by one batch, in 'a' mode unless it is the first. */
  lemma {:induction false} RunWritesSnoc(f: FileState, results: seq<seq<Row>>, r: seq<Row>)
    ensures RunWrites(f, results + [r]) == AfterWrite(RunWrites(f, results), r, ModeAt(|results|))
  {
    assert (results + [r])[..|results|] == results;
  }

  /** Before the first batch: nothing sent, nothing written. */
  lemma {:induction false} Progress0(a: Analysis, addresses: seq<string>, batchSize: int,
                                     oracle: QueryRequest -> QueryResponse)
    requires batchSize > 0
    ensures Progress(a, addresses, batchSize, oracle, 0, 0, [], [])
  {
  }

  /**
   * One step of the loop: the next planned request is the one for the batch
   * at offset i, and when it gets rows the loop moves on to offset i + B.
   */
  lemma {:induction false} ProgressStep(a: Analysis, addresses: seq<string>, batchSize: int,
                                        oracle: QueryRequest -> QueryResponse,
                                        i: nat, k: nat, issued: seq<QueryRequest>, written: seq<seq<Row>>)
    requires Progress(a, addresses, batchSize, oracle, i, k, issued, written)
    requires i < |addresses|
    ensures var request := Request(a, Slice(addresses, i, batchSize));
      oracle(request).Rows? ==>
      Progress(a, addresses, batchSize, oracle, i + batchSize, k + 1, issued + [request], written + [oracle(request).rows])
  {
    var request := Request(a, Slice(addresses, i, batchSize));
    NextBatch(a, addresses, i, batchSize, issued);
    if oracle(request).Rows? {
      AnsweredSnoc(oracle, issued, written, request);
    }
  }

  /**
   * The requests from offset i are the one for the batch at i, then those
   * from i + B; so sending it moves it from the plan's rest to what was sent.
   */
  lemma {:induction false} NextBatch(a: Analysis, addresses: seq<string>, i: nat, batchSize: int, issued: seq<QueryRequest>)
    requires batchSize > 0 && i < |addresses|
    ensures issued + Requests(a, BatchesFrom(addresses, i, batchSize)) ==
      (issued + [Request(a, Slice(addresses, i, batchSize))]) + Requests(a, BatchesFrom(addresses, i + batchSize, batchSize))
  {
    var rest := BatchesFrom(addresses, i + batchSize, batchSize);
    var bs := [Slice(addresses, i, batchSize)] + rest;
    assert BatchesFrom(addresses, i, batchSize) == bs;
    assert bs[1..] == rest;
    var request := Request(a, Slice(addresses, i, batchSize));
    assert Requests(a, bs) == [request] + Requests(a, rest);
    assert issued + ([request] + Requests(a, rest)) == (issued + [request]) + Requests(a, rest);
  }

  /** The run's result when the query for the batch at offset i, the k-th, is the first to fail. */
  lemma {:induction false} RunSpecAborted(a: Analysis, addresses: seq<string>, batchSize: int,
                                          oracle: QueryRequest -> QueryResponse, f: FileState,
                                          i: nat, k: nat, issued: seq<QueryRequest>, written: seq<seq<Row>>)
    requires Progress(a, addresses, batchSize, oracle, i, k, issued, written)
    requires i < |addresses|
    ensures var request := Request(a, Slice(addresses, i, batchSize));
      oracle(request).Failed? ==>
        RunSpec(a, addresses, batchSize, oracle, f) == RunResult(Aborted(QueryFailed(k)), issued + [request], RunWrites(f, written))
  {
    var plan := Plan(a, addresses, batchSize);
    var rs := Responses(plan, oracle);
    var request := Request(a, Slice(addresses, i, batchSize));
    ResponsesAt(plan, oracle);
    if oracle(request).Failed? {
      NextBatch(a, addresses, i, batchSize, issued);
      assert plan[..k + 1] == issued + [request];
      assert rs[k].Failed?;
      forall m | 0 <= m < k
        ensures rs[m] == Rows(written[m])
      {
        assert plan[m] == issued[m];
      }
      assert FirstFailure(rs) == k;
      assert RowsOf(rs[..k]) == written;
    }
  }

  /** The run's result when every planned query got rows. */
  lemma {:induction false} RunSpecCompleted(a: Analysis, addresses: seq<string>, batchSize: int,
                                            oracle: QueryRequest -> QueryResponse, f: FileState,
                                            i: nat, k: nat, issued: seq<QueryRequest>, written: seq<seq<Row>>)
    requires Progress(a, addresses, batchSize, oracle, i, k, issued, written)
    requires i >= |addresses|
    ensures RunSpec(a, addresses, batchSize, oracle, f) == RunResult(Completed, issued, RunWrites(f, written))
  {
    var plan := Plan(a, addresses, batchSize);
    var rs := Responses(plan, oracle);
    assert plan == issued;
    ResponsesAt(plan, oracle);
    assert FirstFailure(rs) == k;
    assert rs[..k] == rs;
    assert RowsOf(rs) == written;
  }

  /**
   * The writes of a whole run amount to a single write of all the rows:
   * a 'w' write when the first batch returned rows, an 'a' write when it
   * returned none (then nothing truncates the file and no header is written).
   */
  lemma {:induction false} RunWritesAsOneWrite(f: FileState, results: seq<seq<Row>>)
    ensures RunWrites(f, results) ==
      AfterWrite(f, Flatten(results), if results != [] && results[0] != [] then Truncate else Append)
    decreases |results|
  {
    if results != [] {
      var n := |results| - 1;
      var prefix, last := results[..n], results[n];
      assert results == prefix + [last];
      FlattenSnoc(prefix, last);
      if n == 0 {
        assert Flatten([last]) == last + Flatten([]);
      } else {
        assert prefix[0] == results[0];
        RunWritesAsOneWrite(f, prefix);
        assert Flatten(prefix) == prefix[0] + Flatten(prefix[1..]);
        AppendAfterWrite(f, Flatten(prefix), last, if results[0] != [] then Truncate else Append);
      }
    }
  }

  /** Every row of every result has the columns `cols`. */
  ghost predicate AllColumns(results: seq<seq<Row>>, cols: seq<string>)
  {
    forall k, m :: 0 <= k < |results| && 0 <= m < |results[k]| ==> Columns(results[k][m]) == cols
  }

  /** The rows of the flattened results keep the columns every result row has. */
  lemma {:induction false} FlattenColumns(results: seq<seq<Row>>, cols: seq<string>)
    requires AllColumns(results, cols)
    ensures forall m :: 0 <= m < |Flatten(results)| ==> Columns(Flatten(results)[m]) == cols
  {
    if results != [] {
      FlattenColumns(results[1..], cols);
      var first, rest := results[0], Flatten(results[1..]);
      assert Flatten(results) == first + rest;
      forall m | 0 <= m < |Flatten(results)|
        ensures Columns(Flatten(results)[m]) == cols
      {
        if m >= |first| {
          assert Flatten(results)[m] == rest[m - |first|];
        }
      }
    }
  }

  /**
   * When the first batch returned rows and all rows share its columns, the
   * file after the writes holds exactly one header line and reads back as
   * all the rows of all batches, in batch order.
   */
  lemma {:induction false} RunWritesWithHeader(f: FileState, results: seq<seq<Row>>)
    requires results != [] && results[0] != []
    requires AllColumns(results, Columns(results[0][0]))
    ensures HeaderCount(RunWrites(f, results).lines) == 1
    ensures ReadTable(RunWrites(f, results).lines) == Some(Flatten(results))
  {
    RunWritesAsOneWrite(f, results);
    var all := Flatten(results);
    assert all == results[0] + Flatten(results[1..]);
    FlattenColumns(results, Columns(results[0][0]));
    WriteTruncateReadBack(f, all);
  }

  /**
   * When the first batch returned no rows, the previous content of the file
   * is kept and the rows of the later batches follow it, with no header line
   * added.
   */
  lemma {:induction false} RunWritesWithoutHeader(f: FileState, results: seq<seq<Row>>)
    requires results == [] || results[0] == []
    ensures RunWrites(f, results).lines == f.lines + Records(Flatten(results))
    ensures HeaderCount(RunWrites(f, results).lines) == HeaderCount(f.lines)
    ensures RunWrites(f, results).present == (f.present || Flatten(results) != [])
  {
    RunWritesAsOneWrite(f, results);
    WriteAppendKeepsContent(f, Flatten(results));
    var g := RunWrites(f, results);
    assert g.lines == g.lines[..|f.lines|] + g.lines[|f.lines|..];
  }

  /**
   * The requests of a run with a positive batch size: ceil(n / B) of them,
   * all for the analysis's query, and when no address contains a comma,
   * splitting their parameters on "," and concatenating gives back the
   * address list exactly.
   */
  lemma {:induction false} PlanCoversAddresses(a: Analysis, addresses: seq<string>, batchSize: int)
    requires batchSize > 0
    ensures |Plan(a, addresses, batchSize)| == (|addresses| + batchSize - 1) / batchSize
    ensures forall k :: 0 <= k < |Plan(a, addresses, batchSize)| ==> Plan(a, addresses, batchSize)[k].queryId == QueryId(a)
    ensures (forall k :: 0 <= k < |addresses| ==> ',' !in addresses[k]) ==>
      var plan := Plan(a, addresses, batchSize);
      Flatten(seq(|plan|, k requires 0 <= k < |plan| => SplitComma(plan[k].addresses))) == addresses
  {
    var bs := Batches(addresses, batchSize);
    var plan := Plan(a, addresses, batchSize);
    BatchesCount(addresses, batchSize);
    BatchesFlatten(addresses, batchSize);
    BatchesSizes(addresses, batchSize);
    RequestsAt(a, bs);
    if forall k :: 0 <= k < |addresses| ==> ',' !in addresses[k] {
      forall k | 0 <= k < |bs|
        ensures SplitComma(plan[k].addresses) == bs[k]
      {
        forall m | 0 <= m < |bs[k]|
          ensures ',' !in bs[k][m]
        {
          InFlatten(bs, k, m);
        }
        RequestRoundTrip(a, bs[k]);
      }
      assert seq(|plan|, k requires 0 <= k < |plan| => SplitComma(plan[k].addresses)) == bs;
    }
  }

  /** An empty address list sends no query and leaves the file alone, unless the batch size is 0. */
  lemma {:induction false} RunEmptyAddresses(a: Analysis, batchSize: int, oracle: QueryRequest -> QueryResponse, f: FileState)
    requires batchSize != 0
    ensures RunSpec(a, [], batchSize, oracle, f) == RunResult(Completed, [], f)
  {
    if batchSize > 0 {
      assert Batches<string>([], batchSize) == [];
    }
  }

  /** A zero batch size fails before any query or write, even for an empty list. */
  lemma {:induction false} RunZeroBatchSize(a: Analysis, addresses: seq<string>, oracle: QueryRequest -> QueryResponse, f: FileState)
    ensures RunSpec(a, addresses, 0, oracle, f) == RunResult(Aborted(StepIsZero), [], f)
  {
  }

  /** If the first query fails, the run stops after that one request and writes nothing. */
  lemma {:induction false} RunFirstQueryFails(a: Analysis, addresses: seq<string>, batchSize: int,
                           oracle: QueryRequest -> QueryResponse, f: FileState)
    requires batchSize > 0 && addresses != []
    requires oracle(Request(a, Slice(addresses, 0, batchSize))).Failed?
    ensures RunSpec(a, addresses, batchSize, oracle, f) ==
      RunResult(Aborted(QueryFailed(0)), [Request(a, Slice(addresses, 0, batchSize))], f)
  {
    var plan := Plan(a, addresses, batchSize);
    assert plan[0] == Request(a, Slice(addresses, 0, batchSize));
    var rs := Responses(plan, oracle);
    assert rs[0].Failed?;
    assert FirstFailure(rs) == 0;
    assert RowsOf(rs[..0]) == [];
  }

  /**
   * A completed run whose first batch returned rows, with every row sharing
   * the first row's columns: ceil(n / B) requests were sent, and the file
   * holds one header line and reads back as the rows of all batches in order.
   */
  lemma {:induction false} RunCompletedWithHeader(a: Analysis, addresses: seq<string>, batchSize: int,
                               oracle: QueryRequest -> QueryResponse, f: FileState)
    requires batchSize > 0
    requires var rs := Responses(Plan(a, addresses, batchSize), oracle);
      && (forall k :: 0 <= k < |rs| ==> rs[k].Rows?)
      && |rs| > 0 && rs[0].rows != []
      && AllColumns(RowsOf(rs), Columns(rs[0].rows[0]))
    ensures var rs := Responses(Plan(a, addresses, batchSize), oracle);
      var r := RunSpec(a, addresses, batchSize, oracle, f);
      && r.outcome == Completed
      && |r.issued| == (|addresses| + batchSize - 1) / batchSize
      && HeaderCount(r.file.lines) == 1
      && ReadTable(r.file.lines) == Some(Flatten(RowsOf(rs)))
  {
    var rs := Responses(Plan(a, addresses, batchSize), oracle);
    assert FirstFailure(rs) == |rs|;
    PlanCoversAddresses(a, addresses, batchSize);
    RunWritesWithHeader(f, RowsOf(rs));
  }

  /**
   * A completed run whose first batch returned no rows: the old lines of the
   * file are kept, the rows of the later batches follow them, and no header
   * line is added.
   */
  lemma {:induction false} RunCompletedFirstEmpty(a: Analysis, addresses: seq<string>, batchSize: int,
                               oracle: QueryRequest -> QueryResponse, f: FileState)
    requires batchSize > 0
    requires var rs := Responses(Plan(a, addresses, batchSize), oracle);
      && (forall k :: 0 <= k < |rs| ==> rs[k].Rows?)
      && |rs| > 0 && rs[0].rows == []
    ensures var rs := Responses(Plan(a, addresses, batchSize), oracle);
      var r := RunSpec(a, addresses, batchSize, oracle, f);
      && r.outcome == Completed
      && r.file.lines == f.lines + Records(Flatten(RowsOf(rs)))
      && HeaderCount(r.file.lines) == HeaderCount(f.lines)
  {
    var rs := Responses(Plan(a, addresses, batchSize), oracle);
    assert FirstFailure(rs) == |rs|;
    RunWritesWithoutHeader(f, RowsOf(rs));
  }
}
