/**
 * The products service: a repository whose batch insert may fail, and the
 * service's `processFile` row loop and `bulkInsertProducts`, proved against
 * the fold in module `Ingestion`.
 */
module Service {
  import opened Wrappers
  import opened Cleaners
  import opened Ingestion

  /**
   * The products table. Whether the insert with call number `k` succeeds is
   * `accepts(k)`; a failed insert stores nothing.
   */
  class ProductRepository {
    var table: seq<Product>
    var calls: nat
    const accepts: nat -> bool

    constructor (accepts: nat -> bool)
      ensures table == [] && calls == 0 && this.accepts == accepts
    {
      table := [];
      calls := 0;
      this.accepts := accepts;
    }

    /** Stores all of `rows` at once, or nothing. */
    method Insert(rows: seq<Product>) returns (ok: bool)
      modifies this
      ensures ok == accepts(old(calls))
      ensures calls == old(calls) + 1
      ensures table == if ok then old(table) + rows else old(table)
    {
      ok := accepts(calls);
      if ok {
        table := table + rows;
      }
      calls := calls + 1;
    }
  }

  class ProductsService {
    const repository: ProductRepository
    /** `cleanProductName`, `cleanProductPrice` and `cleanProductExpirationDate`. */
    const cleanProductName: string -> string
    const cleanProductPrice: string -> real
    const cleanProductExpirationDate: string -> Option<Date>
    /** `JSON.stringify` of a decoded row. */
    const render: RawRow -> string

    /**
     * A service over `repository`. `markup` is the HTML sanitiser followed by
     * NFC normalisation, `expiration` the whole expiration-date cleaner; the
     * other two cleaners are the ones module `Cleaners` defines.
     */
    constructor (repository: ProductRepository, markup: string -> string,
                 expiration: string -> Option<Date>, render: RawRow -> string)
      ensures this.repository == repository && this.render == render
      ensures ServiceCleaners(Cleaners(), markup) && cleanProductExpirationDate == expiration
    {
      this.repository := repository;
      this.cleanProductName := (rawName: string) => CleanProductName(markup, rawName);
      this.cleanProductPrice := (rawPrice: string) => CleanProductPrice(rawPrice);
      this.cleanProductExpirationDate := expiration;
      this.render := render;
    }

    /** The service's three cleaners. */
    function Cleaners(): Cleaning {
      Cleaning(cleanProductName, cleanProductPrice, cleanProductExpirationDate)
    }

    /** Inserts a batch; a failed insert becomes the service's own error message. */
    method BulkInsertProducts(rows: seq<Product>) returns (o: Outcome<string>)
      modifies repository
      ensures o == if repository.accepts(old(repository.calls)) then Pass else Fail(InsertFailedMessage)
      ensures repository.calls == old(repository.calls) + 1
      ensures repository.table == if o.Pass? then old(repository.table) + rows else old(repository.table)
    {
      var ok := repository.Insert(rows);
      if ok {
        o := Pass;
      } else {
        o := Fail(InsertFailedMessage);
      }
    }

    /** The environment of a `processFile` call with `rates` that starts at repository call `first`. */
    ghost function EnvOf(rates: Rates, first: nat): Env {
      ServiceEnv(Cleaners(), rates, render, repository.accepts, first)
    }

    /**
     * One pass of the row loop, the per-row `try`/`catch`: an empty row and a
     * row without usable fields are omitted with their messages; a usable row
     * joins the batch, and a full batch is written. A failed write is caught
     * here, counted against the row, and leaves the batch as it was.
     * `st` is the loop's state before the row, in terms of `Step`.
     */
    method HandleRow(row: Option<RawRow>, rates: Rates, processed: nat, omitted: nat, errors: seq<string>,
                     batch: seq<Product>, ghost env: Env, ghost st: RunState, ghost table0: seq<Product>)
      returns (processed': nat, omitted': nat, errors': seq<string>, batch': seq<Product>, ghost st': RunState)
      requires env == EnvOf(rates, env.first)
      requires st.processed == processed && st.omitted == omitted && st.errors == errors && st.batch == batch
      requires repository.calls == env.first + st.calls
      requires repository.table == table0 + Flatten(st.inserted)
      modifies repository
      ensures st' == Step(st, row, env)
      ensures st'.processed == processed' && st'.omitted == omitted' && st'.errors == errors' && st'.batch == batch'
      ensures repository.calls == env.first + st'.calls
      ensures repository.table == table0 + Flatten(st'.inserted)
    {
      processed', omitted', errors', batch', st' := processed, omitted, errors, batch, Step(st, row, env);
      if row.None? {
        omitted' := omitted + 1;
        errors' := errors + [EmptyRowMessage];
        return;
      }
      var data := row.value;
      var name := cleanProductName(Field(data.name));
      var price := cleanProductPrice(Field(data.price));
      var expirationDate := cleanProductExpirationDate(Field(data.expiration));
      ServiceCleans(Cleaners(), rates, render, repository.accepts, env.first, data);
      if name == [] || price == 0.0 || expirationDate.None? {
        omitted' := omitted + 1;
        errors' := errors + [MissingFieldsMessage(render(data))];
        return;
      }
      processed', omitted', errors', batch' :=
        AddToBatch(Product(name, price, expirationDate.value, rates), render(data),
                   processed, omitted, errors, batch, env, st, table0);
    }

    /**
     * A usable row's product `p` joins the batch; a batch that reaches
     * `BatchSize` is written, and a failed write is counted against the row
     * rendered as `json` while the batch is kept.
     */
    method AddToBatch(p: Product, json: string, processed: nat, omitted: nat, errors: seq<string>,
                      batch: seq<Product>, ghost env: Env, ghost st: RunState, ghost table0: seq<Product>)
      returns (processed': nat, omitted': nat, errors': seq<string>, batch': seq<Product>)
      requires env.accepts == repository.accepts
      requires st.processed == processed && st.omitted == omitted && st.errors == errors && st.batch == batch
      requires repository.calls == env.first + st.calls
      requires repository.table == table0 + Flatten(st.inserted)
      modifies repository
      ensures var st' := Push(st, p, json, env);
        && st'.processed == processed' && st'.omitted == omitted' && st'.errors == errors' && st'.batch == batch'
        && repository.calls == env.first + st'.calls
        && repository.table == table0 + Flatten(st'.inserted)
    {
      processed', omitted', errors', batch' := processed, omitted, errors, batch + [p];
      if |batch'| >= BatchSize {
        var o := BulkInsertProducts(batch');
        if o.Pass? {
          TableAppend(table0, st.inserted, batch');
          processed' := processed + |batch'|;
          batch' := [];
        } else {
          omitted' := omitted + 1;
          errors' := errors + [RowErrorMessage(json, o.error)];
        }
      }
    }

    /**
     * `processFile` over the decoded rows: resolves or rejects as `Run`
     * says, stores exactly the batches `Committed` lists and asks the
     * repository for `Attempts` writes.
     */
    method ProcessFile(rows: seq<Option<RawRow>>, rates: Rates) returns (r: Result<ProcessResult, string>)
      modifies repository
      ensures var env := EnvOf(rates, old(repository.calls));
        && r == Run(rows, env)
        && repository.table == old(repository.table) + Committed(rows, env)
        && repository.calls == old(repository.calls) + Attempts(rows, env)
    {
      ghost var env := EnvOf(rates, repository.calls);
      ghost var table0 := repository.table;
      var processed: nat := 0;
      var omitted: nat := 0;
      var errors: seq<string> := [];
      var batch: seq<Product> := [];
      ghost var st := Start;

      var i := 0;
      while i < |rows|
        invariant 0 <= i <= |rows|
        invariant st == Scan(rows[..i], env)
        invariant st.processed == processed && st.omitted == omitted && st.errors == errors && st.batch == batch
        invariant repository.calls == env.first + st.calls
        invariant repository.table == table0 + Flatten(st.inserted)
      {
        ScanNext(rows, i, env);
        processed, omitted, errors, batch, st :=
          HandleRow(rows[i], rates, processed, omitted, errors, batch, env, st, table0);
        i := i + 1;
      }
      assert rows[..i] == rows;
      r := FinishStream(processed, omitted, errors, batch, env, st, table0);
    }

    /**
     * The end of the stream, after the loop has ended in `st`: a non-empty
     * batch is written, and a failed write rejects the whole call.
     */
    method FinishStream(processed: nat, omitted: nat, errors: seq<string>, batch: seq<Product>,
                        ghost env: Env, ghost st: RunState, ghost table0: seq<Product>)
      returns (r: Result<ProcessResult, string>)
      requires env.accepts == repository.accepts
      requires st.processed == processed && st.omitted == omitted && st.errors == errors && st.batch == batch
      requires repository.calls == env.first + st.calls
      requires repository.table == table0 + Flatten(st.inserted)
      modifies repository
      ensures r == Finish(st, env)
      ensures repository.table == table0 + Flatten(Stored(st, env))
      ensures repository.calls == env.first + st.calls + (if |batch| > 0 then 1 else 0)
    {
      if |batch| > 0 {
        var o := BulkInsertProducts(batch);
        if o.Fail? {
          assert Stored(st, env) == st.inserted;
          return Failure(StreamFailedMessage(o.error));
        }
        assert Stored(st, env) == st.inserted + [batch];
        TableAppend(table0, st.inserted, batch);
        r := Success(ProcessResult(processed + |batch|, omitted, errors, processed + |batch| > 0));
      } else {
        assert Stored(st, env) == st.inserted;
        r := Success(ProcessResult(processed, omitted, errors, processed > 0));
      }
    }
  }
}
