/**
 * The row loop of `processFile`, stated as a left fold over the decoded rows.
 *
 * The decoder yields a finite sequence of rows, any of which may be missing.
 * Each row is cleaned; a usable product goes into the batch, which is written
 * to the database once it holds `BatchSize` products and once more at the end
 * of the stream. A write that fails in the middle of the stream is caught by
 * the per-row handler: the row is counted as omitted and the batch is kept,
 * so it is attempted again at the next usable row or at the end of the
 * stream, and keeps growing past `BatchSize` while writes fail. A write that
 * fails at the end of the stream aborts the whole call.
 *
 * Whether a write succeeds is decided by `accepts`, indexed by the number of
 * writes the repository has been asked to make so far.
 */
module Ingestion {
  import opened Wrappers
  import opened Regex
  import opened Cleaners

  /** The number of products written to the database at once. */
  const BatchSize: nat := 500

  /** A calendar date as produced by the expiration-date parser. */
  datatype Date = Date(year: int, month: int, day: int)

  /** Exchange rates by currency code, stored with every product. */
  type Rates = map<string, real>

  /** A decoded CSV line: the three columns, each of which may be absent. */
  datatype RawRow = RawRow(name: Option<string>, price: Option<string>, expiration: Option<string>)

  /** `data[column] || ''`: an absent column reads as the empty string. */
  function Field(column: Option<string>): string {
    column.GetOr("")
  }

  /** The record written to the database. */
  datatype Product = Product(name: string, price: real, expiration: Date, currencyRates: Rates)

  /**
   * The service's three field cleaners, `cleanProductName`,
   * `cleanProductPrice` and `cleanProductExpirationDate`.
   */
  datatype Cleaning = Cleaning(name: string -> string, price: string -> real, expiration: string -> Option<Date>)

  /**
   * The cleaners of the service: names go through the HTML sanitiser with NFC
   * normalisation (`markup`, not defined here) and steps 1-5, prices through
   * the digit filter and `parseFloat`.
   */
  ghost predicate ServiceCleaners(cl: Cleaning, markup: string -> string) {
    && (forall s :: cl.name(s) == CleanProductName(markup, s))
    && (forall s :: cl.price(s) == CleanProductPrice(s))
  }

  /**
   * What a run depends on besides the rows: how a row is cleaned, the JSON
   * rendering of a row used in error messages, and the repository's answers to
   * writes from call number `first` on.
   */
  datatype Env = Env(clean: RawRow -> Option<Product>, render: RawRow -> string, accepts: nat -> bool, first: nat)

  const EmptyRowMessage: string := "Empty row encountered"
  const InsertFailedMessage: string := "Failed to insert batch into the database."

  function MissingFieldsMessage(json: string): string {
    "Missing required fields: " + json
  }

  function RowErrorMessage(json: string, message: string): string {
    "Error processing row: " + json + " - " + message
  }

  function StreamFailedMessage(message: string): string {
    "Stream processing failed: " + message
  }

  /** The product a decoded row yields, if its three cleaned fields are usable. */
  function CleanRow(data: RawRow, cl: Cleaning, rates: Rates): (r: Option<Product>)
    ensures r.Some? <==>
      && cl.name(Field(data.name)) != []
      && cl.price(Field(data.price)) != 0.0
      && cl.expiration(Field(data.expiration)).Some?
    ensures r.Some? ==>
      && r.value.name == cl.name(Field(data.name))
      && r.value.price == cl.price(Field(data.price))
      && Some(r.value.expiration) == cl.expiration(Field(data.expiration))
      && r.value.currencyRates == rates
  {
    var name := cl.name(Field(data.name));
    var price := cl.price(Field(data.price));
    var expiration := cl.expiration(Field(data.expiration));
    if name == [] || price == 0.0 || expiration.None? then None
    else Some(Product(name, price, expiration.value, rates))
  }

  /**
   * With the service's cleaners, a row yields a product exactly when the
   * cleaned name is non-empty, the price is non-zero and the expiration date
   * parses.
   */
  lemma CleanRowUsable(data: RawRow, cl: Cleaning, markup: string -> string, rates: Rates)
    requires ServiceCleaners(cl, markup)
    ensures var r := CleanRow(data, cl, rates);
      && (r.Some? <==>
        && CleanProductName(markup, Field(data.name)) != []
        && CleanProductPrice(Field(data.price)) != 0.0
        && cl.expiration(Field(data.expiration)).Some?)
  {
    ServiceRow(data, cl, markup, rates);
  }

  /** With the service's cleaners, every product a row yields is usable. */
  lemma CleanRowShape(data: RawRow, cl: Cleaning, markup: string -> string, rates: Rates)
    requires ServiceCleaners(cl, markup)
    ensures CleanRow(data, cl, rates).Some? ==> Usable(CleanRow(data, cl, rates).value, rates)
  {
    var r := CleanRow(data, cl, rates);
    if r.Some? {
      ServiceRow(data, cl, markup, rates);
      var name := CleanProductName(markup, Field(data.name));
      assert r.value.name == name;
      assert forall i :: 0 <= i < |name| ==> name[i] in name;
    }
  }

  /** `CleanRow` with the service's cleaners written out. */
  lemma ServiceRow(data: RawRow, cl: Cleaning, markup: string -> string, rates: Rates)
    requires ServiceCleaners(cl, markup)
    ensures var name := CleanProductName(markup, Field(data.name));
      var price := CleanProductPrice(Field(data.price));
      var expiration := cl.expiration(Field(data.expiration));
      CleanRow(data, cl, rates)
        == if name == [] || price == 0.0 || expiration.None? then None
           else Some(Product(name, price, expiration.value, rates))
  {
    assert cl.name(Field(data.name)) == CleanProductName(markup, Field(data.name));
    assert cl.price(Field(data.price)) == CleanProductPrice(Field(data.price));
  }

  /** The environment of a run of the service with `rates`: rows are cleaned with `CleanRow`. */
  function ServiceEnv(cl: Cleaning, rates: Rates, render: RawRow -> string, accepts: nat -> bool, first: nat): Env {
    Env((data: RawRow) => CleanRow(data, cl, rates), render, accepts, first)
  }

  /** A service run cleans each row with `CleanRow`. */
  lemma ServiceCleans(cl: Cleaning, rates: Rates, render: RawRow -> string, accepts: nat -> bool, first: nat, data: RawRow)
    ensures ServiceEnv(cl, rates, render, accepts, first).clean(data) == CleanRow(data, cl, rates)
  {
  }

  /** The product a possibly missing row yields. */
  function Cleaned(row: Option<RawRow>, env: Env): Option<Product> {
    match row
    case None => None
    case Some(data) => env.clean(data)
  }

  /** The products of all usable rows, in order. */
  function ValidProducts(rows: seq<Option<RawRow>>, env: Env): (ps: seq<Product>)
    ensures |ps| <= |rows|
  {
    if rows == [] then []
    else ValidProducts(rows[..|rows| - 1], env) + Contribution(rows[|rows| - 1], env)
  }

  function Flatten(chunks: seq<seq<Product>>): seq<Product> {
    if chunks == [] then [] else Flatten(chunks[..|chunks| - 1]) + chunks[|chunks| - 1]
  }

  /**
   * The loop's variables after some rows: the two counters, the error list and
   * the batch, with the number of writes asked for and the batches written.
   */
  datatype RunState = RunState(
    processed: nat,
    omitted: nat,
    errors: seq<string>,
    batch: seq<Product>,
    calls: nat,
    inserted: seq<seq<Product>>)

  const Start: RunState := RunState(0, 0, [], [], 0, [])

  /**
   * One iteration of the row loop: errors are only ever appended, one per
   * omission, and an empty or unusable row adds its own message; the written
   * batches followed by the pending batch grow by the row's product; and a
   * row that yields no product changes nothing but the omission count and the
   * error list.
   */
  function Step(st: RunState, row: Option<RawRow>, env: Env): (r: RunState)
    ensures |st.errors| <= |r.errors| && r.errors[..|st.errors|] == st.errors
    ensures |r.errors| - |st.errors| == r.omitted - st.omitted <= 1
    ensures Flatten(r.inserted) + r.batch == Flatten(st.inserted) + st.batch + Contribution(row, env)
    ensures st.calls <= r.calls <= st.calls + 1
    ensures row.None? ==> r.errors == st.errors + [EmptyRowMessage]
    ensures row.Some? && env.clean(row.value).None? ==>
      r.errors == st.errors + [MissingFieldsMessage(env.render(row.value))]
    ensures Cleaned(row, env).None? ==>
      && r.omitted == st.omitted + 1
      && r.batch == st.batch && r.inserted == st.inserted
      && r.processed == st.processed && r.calls == st.calls
  {
    match row
    case None => st.(omitted := st.omitted + 1, errors := st.errors + [EmptyRowMessage])
    case Some(data) =>
      match env.clean(data)
      case None =>
        st.(omitted := st.omitted + 1, errors := st.errors + [MissingFieldsMessage(env.render(data))])
      case Some(p) => Push(st, p, env.render(data), env)
  }

  /**
   * A usable product joins the batch; a batch that reaches `BatchSize` is
   * written, and a failed write is counted against the row `json` while the
   * batch is kept.
   */
  function Push(st: RunState, p: Product, json: string, env: Env): (r: RunState)
    ensures Flatten(r.inserted) + r.batch == Flatten(st.inserted) + st.batch + [p]
    ensures |st.errors| <= |r.errors| && r.errors[..|st.errors|] == st.errors
    ensures |r.errors| - |st.errors| == r.omitted - st.omitted <= 1
    ensures r.calls == if |st.batch| + 1 < BatchSize then st.calls else st.calls + 1
    ensures r.processed - st.processed == |Flatten(r.inserted)| - |Flatten(st.inserted)|
    ensures |st.batch| + 1 < BatchSize ==> r == st.(batch := st.batch + [p])
    ensures |st.batch| + 1 >= BatchSize && env.accepts(env.first + st.calls) ==>
      && r.inserted == st.inserted + [st.batch + [p]] && r.batch == []
      && r.omitted == st.omitted && r.errors == st.errors
    ensures |st.batch| + 1 >= BatchSize && !env.accepts(env.first + st.calls) ==>
      && r.inserted == st.inserted && r.batch == st.batch + [p] && r.processed == st.processed
      && r.omitted == st.omitted + 1 && r.errors == st.errors + [RowErrorMessage(json, InsertFailedMessage)]
  {
    var batch := st.batch + [p];
    FlattenAppend(st.inserted, batch);
    if |batch| < BatchSize then st.(batch := batch)
    else if env.accepts(env.first + st.calls) then
      st.(processed := st.processed + |batch|, batch := [], calls := st.calls + 1,
          inserted := st.inserted + [batch])
    else
      st.(omitted := st.omitted + 1,
          errors := st.errors + [RowErrorMessage(json, InsertFailedMessage)],
          batch := batch, calls := st.calls + 1)
  }

  /**
   * A batch is not capped at `BatchSize`: after a rejected write the kept
   * batch grows by every further usable row while writes keep failing.
   */
  lemma BatchGrowsPastLimit(st: RunState, p: Product, json: string, env: Env)
    requires |st.batch| >= BatchSize && !env.accepts(env.first + st.calls)
    ensures |Push(st, p, json, env).batch| == |st.batch| + 1 > BatchSize
  {
  }

  /** The loop's variables after all of `rows`. */
  function Scan(rows: seq<Option<RawRow>>, env: Env): (r: RunState)
    ensures |r.errors| == r.omitted
    ensures |r.inserted| <= r.calls <= |rows|
  {
    if rows == [] then Start else Step(Scan(rows[..|rows| - 1], env), rows[|rows| - 1], env)
  }

  /** The loop's variables after one more row. */
  lemma ScanNext(rows: seq<Option<RawRow>>, i: nat, env: Env)
    requires i < |rows|
    ensures Scan(rows[..i + 1], env) == Step(Scan(rows[..i], env), rows[i], env)
  {
    assert rows[..i + 1][..i] == rows[..i];
  }

  /** What `processFile` resolves with. */
  datatype ProcessResult = ProcessResult(processed: nat, omitted: nat, errors: seq<string>, success: bool)

  /** The resolved value: success is reported exactly when something was written. */
  function Report(processed: nat, st: RunState): (r: ProcessResult)
    ensures r.success <==> r.processed > 0
    ensures r.processed == processed && r.omitted == st.omitted && r.errors == st.errors
  {
    ProcessResult(processed, st.omitted, st.errors, processed > 0)
  }

  /** The end of the stream: a non-empty batch is written, and a failure there aborts the call. */
  function Finish(st: RunState, env: Env): (r: Result<ProcessResult, string>)
    ensures r.Success? <==> |st.batch| == 0 || env.accepts(env.first + st.calls)
    ensures r.Success? ==>
      && r.value.processed == st.processed + |st.batch|
      && r.value.omitted == st.omitted && r.value.errors == st.errors
      && (r.value.success <==> r.value.processed > 0)
    ensures r.Failure? ==> r.error == StreamFailedMessage(InsertFailedMessage)
  {
    if |st.batch| == 0 then Success(Report(st.processed, st))
    else if env.accepts(env.first + st.calls) then Success(Report(st.processed + |st.batch|, st))
    else Failure(StreamFailedMessage(InsertFailedMessage))
  }

  /** `processFile` over decoded rows. */
  function Run(rows: seq<Option<RawRow>>, env: Env): (r: Result<ProcessResult, string>)
    ensures r.Success? ==> |r.value.errors| == r.value.omitted && (r.value.success <==> r.value.processed > 0)
    ensures r.Failure? <==> |Scan(rows, env).batch| > 0 && !env.accepts(env.first + Scan(rows, env).calls)
    ensures r.Failure? ==> r.error == StreamFailedMessage(InsertFailedMessage)
  {
    Finish(Scan(rows, env), env)
  }

  /** The batches the repository stores during a run, in order. */
  function Chunks(rows: seq<Option<RawRow>>, env: Env): seq<seq<Product>> {
    Stored(Scan(rows, env), env)
  }

  /** The batches stored once the loop has ended in `st` and the final batch has been written. */
  function Stored(st: RunState, env: Env): seq<seq<Product>> {
    if |st.batch| > 0 && env.accepts(env.first + st.calls) then st.inserted + [st.batch] else st.inserted
  }

  /** The products the repository stores during a run, in order. */
  function Committed(rows: seq<Option<RawRow>>, env: Env): seq<Product> {
    Flatten(Chunks(rows, env))
  }

  /** The number of writes a run asks the repository for. */
  function Attempts(rows: seq<Option<RawRow>>, env: Env): nat {
    var st := Scan(rows, env);
    if |st.batch| > 0 then st.calls + 1 else st.calls
  }

  /** The writes in the middle of the stream that failed. */
  function FailedFlushes(rows: seq<Option<RawRow>>, env: Env): int {
    Scan(rows, env).calls - |Scan(rows, env).inserted|
  }

  /** The number of the first `n` writes of a run that the repository rejects. */
  function Rejections(env: Env, n: nat): nat {
    if n == 0 then 0 else Rejections(env, n - 1) + (if env.accepts(env.first + n - 1) then 0 else 1)
  }

  /**
   * The failed writes in the middle of the stream are exactly the writes the
   * repository rejected: every accepted write stores its batch and every
   * rejected one stores nothing.
   */
  lemma {:induction false} FailedFlushesRejected(rows: seq<Option<RawRow>>, env: Env)
    ensures FailedFlushes(rows, env) == Rejections(env, Scan(rows, env).calls)
  {
    if rows != [] {
      var init := rows[..|rows| - 1];
      FailedFlushesRejected(init, env);
      StepRejections(Scan(init, env), rows[|rows| - 1], env);
    }
  }

  /** One iteration keeps the failed writes equal to the rejected ones. */
  lemma StepRejections(st: RunState, row: Option<RawRow>, env: Env)
    requires st.calls - |st.inserted| == Rejections(env, st.calls)
    ensures var r := Step(st, row, env); r.calls - |r.inserted| == Rejections(env, r.calls)
  {
    match Cleaned(row, env)
    case None =>
    case Some(p) =>
      assert Step(st, row, env) == Push(st, p, env.render(row.value), env);
  }


  /** Every write from call number `env.first` on succeeds. */
  ghost predicate AllAccepted(env: Env) {
    forall k :: env.first <= k ==> env.accepts(k)
  }

  // ---------------------------------------------------------------------------
  // Invariants of the loop
  // ---------------------------------------------------------------------------

  /** The products a row contributes: none, or its cleaned product. */
  function Contribution(row: Option<RawRow>, env: Env): seq<Product> {
    match Cleaned(row, env) case Some(p) => [p] case None => []
  }

  /**
   * The loop invariant after `n` rows whose usable products are `valid`: one
   * error message per omission; the written batches followed by the pending
   * batch are exactly the usable rows' products; `processed` counts the written
   * products; every written batch was full; and every row is omitted or
   * usable, plus one more omission for each failed write.
   */
  predicate Accounted(st: RunState, valid: seq<Product>, n: nat) {
    && |st.errors| == st.omitted
    && Flatten(st.inserted) + st.batch == valid
    && st.processed == |Flatten(st.inserted)|
    && |st.inserted| <= st.calls
    && st.omitted + |valid| == n + (st.calls - |st.inserted|)
    && (forall j :: 0 <= j < |st.inserted| ==> |st.inserted[j]| >= BatchSize)
  }

  /** One iteration keeps the invariant. */
  lemma StepAccounted(st: RunState, row: Option<RawRow>, env: Env, valid: seq<Product>, n: nat)
    requires Accounted(st, valid, n)
    ensures Accounted(Step(st, row, env), valid + Contribution(row, env), n + 1)
  {
  }

  lemma {:induction false} ScanInvariant(rows: seq<Option<RawRow>>, env: Env)
    ensures Accounted(Scan(rows, env), ValidProducts(rows, env), |rows|)
  {
    if rows != [] {
      var init := rows[..|rows| - 1];
      ScanInvariant(init, env);
      StepAccounted(Scan(init, env), rows[|rows| - 1], env, ValidProducts(init, env), |init|);
    }
  }

  /** While every write succeeds, the pending batch stays below `BatchSize` and every written batch is full. */
  lemma {:induction false} AcceptedScan(rows: seq<Option<RawRow>>, env: Env)
    requires AllAccepted(env)
    ensures var st := Scan(rows, env);
      && |st.batch| < BatchSize
      && |st.inserted| == st.calls
      && (forall j :: 0 <= j < |st.inserted| ==> |st.inserted[j]| == BatchSize)
  {
    if rows != [] {
      var init := rows[..|rows| - 1];
      AcceptedScan(init, env);
      var st0 := Scan(init, env);
      assert env.accepts(env.first + st0.calls);
    }
  }

  lemma {:induction false} FlattenFull(chunks: seq<seq<Product>>)
    requires forall j :: 0 <= j < |chunks| ==> |chunks[j]| == BatchSize
    ensures |Flatten(chunks)| == BatchSize * |chunks|
  {
    if chunks != [] {
      FlattenFull(chunks[..|chunks| - 1]);
    }
  }

  lemma FlattenAppend(chunks: seq<seq<Product>>, last: seq<Product>)
    ensures Flatten(chunks + [last]) == Flatten(chunks) + last
  {
    assert (chunks + [last])[..|chunks|] == chunks;
  }

  /** A table that received `chunks` and then `last` holds them in that order. */
  lemma TableAppend(table: seq<Product>, chunks: seq<seq<Product>>, last: seq<Product>)
    ensures table + Flatten(chunks + [last]) == (table + Flatten(chunks)) + last
  {
    FlattenAppend(chunks, last);
  }

  // ---------------------------------------------------------------------------
  // Properties of a run
  // ---------------------------------------------------------------------------

  /**
   * A run that resolves reports one error per omission, reports success
   * exactly when something was written, has written every usable row's
   * product, and counts every row as processed or omitted, plus one more
   * omission per failed write in the middle of the stream. A run that rejects
   * does so with the stream failure message, and has written everything but
   * the final, non-empty batch.
   */
  lemma RunAccounting(rows: seq<Option<RawRow>>, env: Env)
    ensures match Run(rows, env)
      case Success(res) =>
        && |res.errors| == res.omitted
        && res.success == (res.processed > 0)
        && res.processed == |ValidProducts(rows, env)|
        && Committed(rows, env) == ValidProducts(rows, env)
        && res.processed + res.omitted == |rows| + FailedFlushes(rows, env)
      case Failure(message) =>
        && message == StreamFailedMessage(InsertFailedMessage)
        && |Scan(rows, env).batch| > 0
        && Committed(rows, env) + Scan(rows, env).batch == ValidProducts(rows, env)
  {
    ScanInvariant(rows, env);
    FinishAccounting(Scan(rows, env), env, ValidProducts(rows, env), |rows|);
  }

  /** `RunAccounting` for the end of the stream, from the loop invariant after `n` rows. */
  lemma FinishAccounting(st: RunState, env: Env, valid: seq<Product>, n: nat)
    requires Accounted(st, valid, n)
    ensures match Finish(st, env)
      case Success(res) =>
        && |res.errors| == res.omitted
        && res.success == (res.processed > 0)
        && res.processed == |valid|
        && Flatten(Stored(st, env)) == valid
        && res.processed + res.omitted == n + (st.calls - |st.inserted|)
      case Failure(message) =>
        && message == StreamFailedMessage(InsertFailedMessage)
        && |st.batch| > 0
        && Flatten(Stored(st, env)) + st.batch == valid
  {
  }

  /**
   * When every write succeeds the run resolves, every row is counted exactly
   * once, all usable rows are stored, and they are stored in
   * ⌈n / BatchSize⌉ writes of `BatchSize` products each except the last,
   * which holds between 1 and `BatchSize`.
   */
  lemma NoFailureRun(rows: seq<Option<RawRow>>, env: Env)
    requires AllAccepted(env)
    ensures Run(rows, env).Success?
    ensures Run(rows, env).value.processed + Run(rows, env).value.omitted == |rows|
    ensures Run(rows, env).value.processed == |ValidProducts(rows, env)|
    ensures Committed(rows, env) == ValidProducts(rows, env)
    ensures var chunks := Chunks(rows, env);
      && |chunks| == Attempts(rows, env)
      && |chunks| == (|ValidProducts(rows, env)| + BatchSize - 1) / BatchSize
      && (forall j :: 0 <= j < |chunks| - 1 ==> |chunks[j]| == BatchSize)
      && (chunks != [] ==> 0 < |chunks[|chunks| - 1]| <= BatchSize)
  {
    ScanInvariant(rows, env);
    AcceptedScan(rows, env);
    RunAccounting(rows, env);
    var st := Scan(rows, env);
    assert env.accepts(env.first + st.calls);
    FlattenFull(st.inserted);
    var chunks := Chunks(rows, env);
    var v := |ValidProducts(rows, env)|;
    assert v == BatchSize * |st.inserted| + |st.batch|;
    if |st.batch| > 0 {
      assert chunks == st.inserted + [st.batch];
      assert (v + BatchSize - 1) / BatchSize == |st.inserted| + 1 by {
        assert v + BatchSize - 1 == BatchSize * (|st.inserted| + 1) + (|st.batch| - 1);
      }
    } else {
      assert chunks == st.inserted;
      assert (v + BatchSize - 1) / BatchSize == |st.inserted| by {
        assert v + BatchSize - 1 == BatchSize * |st.inserted| + (BatchSize - 1);
      }
    }
  }

  /** Before the usable rows fill a batch, nothing is written and the batch holds them all. */
  lemma {:induction false} UntilFirstFlush(rows: seq<Option<RawRow>>, env: Env)
    requires |ValidProducts(rows, env)| < BatchSize
    ensures Scan(rows, env).calls == 0
    ensures Scan(rows, env).inserted == []
    ensures Scan(rows, env).batch == ValidProducts(rows, env)
  {
    if rows != [] {
      var init := rows[..|rows| - 1];
      UntilFirstFlush(init, env);
      ScanInvariant(rows, env);
    }
  }

  /**
   * A failed write in the middle of the stream is counted against the row
   * that filled the batch, yet the batch is kept and written at the end: with
   * `BatchSize` usable rows, a failing first write and a succeeding second,
   * the run reports every row processed and one omitted.
   */
  lemma DoubleCount(rows: seq<Option<RawRow>>, env: Env)
    requires |rows| == BatchSize
    requires forall i :: 0 <= i < |rows| ==> Cleaned(rows[i], env).Some?
    requires !env.accepts(env.first) && env.accepts(env.first + 1)
    ensures Run(rows, env).Success?
    ensures Run(rows, env).value.processed == BatchSize
    ensures Run(rows, env).value.omitted == 1
    ensures Run(rows, env).value.processed + Run(rows, env).value.omitted == |rows| + 1
  {
    var init := rows[..|rows| - 1];
    AllUsable(init, env);
    UntilFirstFlush(init, env);
    ScanInvariant(init, env);
    AllUsable(rows, env);
    ScanInvariant(rows, env);
  }

  /** Every row of an all-usable sequence contributes one product. */
  lemma {:induction false} AllUsable(rows: seq<Option<RawRow>>, env: Env)
    requires forall i :: 0 <= i < |rows| ==> Cleaned(rows[i], env).Some?
    ensures |ValidProducts(rows, env)| == |rows|
  {
    if rows != [] {
      AllUsable(rows[..|rows| - 1], env);
      assert Cleaned(rows[|rows| - 1], env).Some?;
    }
  }

  /** A product as the cleaners let it through: a non-empty allow-listed name, a positive price and the run's rates. */
  predicate Usable(p: Product, rates: Rates) {
    && p.name != [] && p.price > 0.0 && p.currencyRates == rates
    && (forall i :: 0 <= i < |p.name| ==> IsNameChar(p.name[i]))
  }

  /** If every cleaned row is usable, so is every product a run collects. */
  lemma {:induction false} ValidProductsUsable(rows: seq<Option<RawRow>>, env: Env, rates: Rates)
    requires forall data :: env.clean(data).Some? ==> Usable(env.clean(data).value, rates)
    ensures forall p :: p in ValidProducts(rows, env) ==> Usable(p, rates)
  {
    if rows != [] {
      ValidProductsUsable(rows[..|rows| - 1], env, rates);
    }
  }

  /** Every product a run of the service collects is usable and carries the rates it was given. */
  lemma ServiceProductsUsable(rows: seq<Option<RawRow>>, cl: Cleaning, markup: string -> string, rates: Rates,
                              render: RawRow -> string, accepts: nat -> bool, first: nat)
    requires ServiceCleaners(cl, markup)
    ensures forall p :: p in ValidProducts(rows, ServiceEnv(cl, rates, render, accepts, first)) ==> Usable(p, rates)
  {
    var env := ServiceEnv(cl, rates, render, accepts, first);
    forall data | env.clean(data).Some?
      ensures Usable(env.clean(data).value, rates)
    {
      CleanRowShape(data, cl, markup, rates);
    }
    ValidProductsUsable(rows, env, rates);
  }
}
