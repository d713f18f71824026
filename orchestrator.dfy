/** The query helpers of the time-travel module: running a query as of a
    point in time, as of a number of days ago, and comparing the current
    result of a query with its result of some days ago. */
module TimeTravelQueries {
  import opened Wrappers
  import opened ClauseInjector
  import opened TimeTravelClause

  /** The caller's bind parameters (`params`): absent, or a dictionary. */
  type Params = Option<map<string, string>>

  /** A result set: column names and rows of cells. */
  datatype Table = Table(columns: seq<string>, rows: seq<seq<string>>)

  /** One query sent to the database, with its parameters. */
  datatype Dispatch = Dispatch(query: string, params: Params)

  /** What running a query gives: a table, or the error it raised. */
  type Reply = Result<Table, string>

  /** The database behind `execute_query`. It records every query sent to it,
      in order; `engine` gives its answer to the n-th dispatch, so the data
      may change between two dispatches. */
  class Executor {
    const engine: (string, Params, nat) -> Reply
    var log: seq<Dispatch>

    constructor (engine: (string, Params, nat) -> Reply)
      ensures this.engine == engine && log == []
    {
      this.engine := engine;
      log := [];
    }

    /** `execute_query`: sends one query with the caller's parameters. */
    method Execute(query: string, params: Params) returns (r: Reply)
      modifies this
      ensures log == old(log) + [Dispatch(query, params)]
      ensures r == engine(query, params, |old(log)|)
    {
      r := engine(query, params, |log|);
      log := log + [Dispatch(query, params)];
    }
  }

  /** The query `query_at_time` sends: every match of the FROM pattern
      qualified with the timestamp's clause. */
  function TimeTravelQuery(query: string, ts: Timestamp): string
    requires ts.Moment? ==> ValidDateTime(ts.dt)
    requires ts.Text? ==> '\\' !in ts.text
  {
    BackslashOnlyFromText(ts);
    ModifyFromClause(query, ClauseFor(ts))
  }

  /** The query `query_at_offset` sends: every match of the FROM pattern
      qualified as of `days` days ago. */
  function OffsetQuery(query: string, days: int): string {
    BackslashOnlyFromText(DaysAgo(days));
    ModifyFromClause(query, DaysAgoClause(days))
  }

  /** `query_at_time`: builds the clause for the timestamp, rewrites the
      query, and sends it once. */
  method QueryAtTime(ex: Executor, query: string, ts: Timestamp, params: Params) returns (r: Reply)
    requires ts.Moment? ==> ValidDateTime(ts.dt)
    requires ts.Text? ==> '\\' !in ts.text
    modifies ex
    ensures ex.log == old(ex.log) + [Dispatch(TimeTravelQuery(query, ts), params)]
    ensures r == ex.engine(TimeTravelQuery(query, ts), params, |old(ex.log)|)
  {
    var timeTravelQuery := TimeTravelQuery(query, ts);
    r := ex.Execute(timeTravelQuery, params);
  }

  /** `query_at_offset`: builds the days-ago clause, rewrites the query, and
      sends it once. */
  method QueryAtOffset(ex: Executor, query: string, days: int, params: Params) returns (r: Reply)
    modifies ex
    ensures ex.log == old(ex.log) + [Dispatch(OffsetQuery(query, days), params)]
    ensures r == ex.engine(OffsetQuery(query, days), params, |old(ex.log)|)
  {
    var timeTravelQuery := OffsetQuery(query, days);
    r := ex.Execute(timeTravelQuery, params);
  }

  /** `query_at_time` with a number of days sends the same text as
      `query_at_offset` with that number. */
  lemma DaysAgoMatchesOffset(query: string, days: int)
    ensures TimeTravelQuery(query, DaysAgo(days)) == OffsetQuery(query, days)
  {
  }

  /** What a comparison does: the queries it sends and what it returns. */
  datatype Comparison = Comparison(sent: seq<Dispatch>, result: Result<(Table, Table), string>)

  /** The comparison against a database that answers the n-th dispatch with
      `engine`, starting at dispatch `n`: the historical query first; if it
      fails, nothing more; otherwise the original query, and the pair
      (current, historical) when both succeed. */
  function Compare(engine: (string, Params, nat) -> Reply, query: string, days: int,
                   params: Params, n: nat): Comparison
  {
    var historicalQuery := OffsetQuery(query, days);
    var historical := engine(historicalQuery, params, n);
    if historical.Failure? then
      Comparison([Dispatch(historicalQuery, params)], Failure(historical.error))
    else
      var current := engine(query, params, n + 1);
      var sent := [Dispatch(historicalQuery, params), Dispatch(query, params)];
      if current.Failure? then Comparison(sent, Failure(current.error))
      else Comparison(sent, Success((current.value, historical.value)))
  }

  /** `compare_timetravel`: the historical query, then the current one. */
  method CompareTimetravel(ex: Executor, query: string, days: int, params: Params)
    returns (r: Result<(Table, Table), string>)
    modifies ex
    ensures ex.log == old(ex.log) + Compare(ex.engine, query, days, params, |old(ex.log)|).sent
    ensures r == Compare(ex.engine, query, days, params, |old(ex.log)|).result
  {
    var historical := QueryAtOffset(ex, query, days, params);
    if historical.Failure? {
      return Failure(historical.error);
    }
    var current := ex.Execute(query, params);
    if current.Failure? {
      return Failure(current.error);
    }
    r := Success((current.value, historical.value));
  }

  /** A comparison sends the rewritten query first and the original query
      second, both with the caller's parameters, and stops after the first
      when that one fails. */
  lemma CompareDispatchOrder(engine: (string, Params, nat) -> Reply, query: string, days: int,
                             params: Params, n: nat)
    ensures var c := Compare(engine, query, days, params, n);
            && 1 <= |c.sent| <= 2
            && c.sent[0] == Dispatch(OffsetQuery(query, days), params)
            && (|c.sent| == 2 <==> engine(OffsetQuery(query, days), params, n).Success?)
            && (|c.sent| == 2 ==> c.sent[1] == Dispatch(query, params))
            && (forall d :: d in c.sent ==> d.params == params)
  {
  }

  /** A comparison returns a pair exactly when both queries succeed, and the
      pair holds the current table first and the historical one second. */
  lemma CompareResultOrder(engine: (string, Params, nat) -> Reply, query: string, days: int,
                           params: Params, n: nat)
    ensures var c := Compare(engine, query, days, params, n);
            var historical := engine(OffsetQuery(query, days), params, n);
            var current := engine(query, params, n + 1);
            && (c.result.Success? <==> historical.Success? && current.Success?)
            && (c.result.Success? ==> c.result.value == (current.value, historical.value))
  {
  }

  /** A query without a match of the FROM pattern is sent twice unchanged: the comparison
      then sets the query against itself, with no time travel at all. */
  lemma CompareWithoutFromClause(engine: (string, Params, nat) -> Reply, query: string, days: int,
                                 params: Params, n: nat)
    requires forall p :: 0 <= p <= |query| ==> MatchAt(query, p).None?
    ensures var c := Compare(engine, query, days, params, n);
            forall d :: d in c.sent ==> d == Dispatch(query, params)
  {
    BackslashOnlyFromText(DaysAgo(days));
    NoMatchUnchanged(query, DaysAgoClause(days));
  }
}
