/** The stage runner that four stages repeat (`run` in scraper/pirates.py,
    scraper/shoppes.py, scraper/stages/pirate_urls.py and
    scraper/stages/crew_details.py): read the key column of the upstream
    table, drop missing values, strip, drop empties, keep first occurrences;
    then for each key in order fetch and parse, recording either the parsed
    rows or one failure record, and always go on to the next key. */
module Stages {
  import opened Base
  import opened Text
  import opened Seqs
  import opened Tables

  /** What the HTTP client hands back for one request: a response with its
      status code and parsed document, or the exception it raised. */
  datatype Fetched<P> = Response(status: nat, page: P) | TransportError(kind: string, message: string)

  /** One key's result inside the `try`: the rows it yields, or the
      exception's class name and message. */
  datatype Outcome<R> = Success(rows: seq<R>) | Failure(kind: string, message: string)

  /** A row of a `*_failures` table: the key, "Error Type" and "Message". */
  datatype FailureRecord = FailureRecord(key: string, errorType: string, message: string)

  /** A stage's accumulated output: success rows, failure rows, and how many
      keys succeeded. */
  datatype StageRun<R> = StageRun(rows: seq<R>, failures: seq<FailureRecord>, succeeded: nat)

  /** A stage-level error: it aborts the run instead of being recorded. */
  datatype StageError =
    | MissingColumn(message: string)
    | HttpStatus(status: nat)
    | Transport(kind: string, message: string)
    | NoCrewsTable(message: string)

  const HttpErrorPrefix := "HTTP Error: "

  /** Fetch, check the status, parse: `session.get` raising, a status other
      than 200 (`ValueError("HTTP Error: <status>")`), or the parser raising
      all become one failure; a 200 response is handed to the parser. */
  function Attempt<P, R>(f: Fetched<P>, parse: P -> Outcome<R>): (o: Outcome<R>)
    ensures f.TransportError? ==> o == Failure(f.kind, f.message)
    ensures f.Response? && f.status != 200 ==> o == Failure("ValueError", HttpErrorPrefix + NatToString(f.status))
    ensures f.Response? && f.status == 200 ==> o == parse(f.page)
  {
    match f
    case TransportError(kind, message) => Failure(kind, message)
    case Response(status, page) =>
      if status != 200 then Failure("ValueError", HttpErrorPrefix + NatToString(status)) else parse(page)
  }

  /** The key one cell contributes: a missing cell (`dropna`) and a cell
      that strips to "" (`[urls != ""]`) contribute none. */
  function KeyOf(v: Option<string>): (k: Option<string>)
    ensures k.Some? ==> k.value != "" && Strip(k.value) == k.value
    ensures k.Some? <==> v.Some? && !AllSpace(v.value)
  {
    match v
    case None => None
    case Some(x) =>
      var t := Strip(x);
      StripEmpty(x);
      StripIdempotent(x);
      if t == "" then None else Some(t)
  }

  /** The keys the cells of `values` contribute. */
  function KeysOfCells(values: seq<Option<string>>): set<string> {
    set i | 0 <= i < |values| && KeyOf(values[i]).Some? :: KeyOf(values[i]).value
  }

  /** `.dropna().astype(str).map(str.strip)` followed by `[urls != ""]`:
      the stripped cells, in column order, missing and blank cells left out. */
  function StrippedValues(values: seq<Option<string>>): (r: seq<string>)
    ensures FilteredBy(r, values, KeyOf)
  {
    FilterMapInOrder(values, KeyOf);
    FilterMap(values, KeyOf)
  }

  /** Every cell's key is among the stripped values. */
  lemma StrippedValuesComplete(values: seq<Option<string>>)
    ensures forall i :: 0 <= i < |values| && KeyOf(values[i]).Some? ==> KeyOf(values[i]).value in StrippedValues(values)
  {
    FilterMapComplete(values, KeyOf);
  }

  /** Every stripped value is some cell's key. */
  lemma StrippedValuesSound(values: seq<Option<string>>)
    ensures forall i :: 0 <= i < |StrippedValues(values)| ==> StrippedValues(values)[i] in KeysOfCells(values)
  {
    FilterMapSound(values, KeyOf);
    var r := StrippedValues(values);
    forall i | 0 <= i < |r|
      ensures r[i] in KeysOfCells(values)
    {
      assert r[i] in FilterMap(values, KeyOf);
      var j :| 0 <= j < |values| && KeyOf(values[j]) == Some(r[i]);
    }
  }

  /** The stage's key list: duplicate-free, every cell's key represented,
      nothing else, first occurrences in input order (`.unique()`). */
  function PrepareKeys(values: seq<Option<string>>): (keys: seq<string>)
    ensures IsSubsequence(keys, StrippedValues(values))
    ensures FirstOccurrences(keys, StrippedValues(values), Id)
  {
    DedupByInOrder(StrippedValues(values), Id);
    DedupBy(StrippedValues(values), Id)
  }

  /** The prepared keys are non-empty, stripped and pairwise distinct, and
      they are exactly the keys the cells contribute. */
  lemma PrepareKeysMembers(values: seq<Option<string>>)
    ensures forall k :: k in PrepareKeys(values) <==> k in KeysOfCells(values)
    ensures forall k :: k in PrepareKeys(values) ==> k != "" && Strip(k) == k
    ensures forall i, j :: 0 <= i < j < |PrepareKeys(values)| ==> PrepareKeys(values)[i] != PrepareKeys(values)[j]
  {
    var all := StrippedValues(values);
    DedupByIdMembers(all);
    StrippedValuesComplete(values);
    StrippedValuesSound(values);
  }

  /** The `for` loop with its `try`/`except`, as a left fold over the keys. */
  function Run<R>(keys: seq<string>, attempt: string -> Outcome<R>): (run: StageRun<R>)
    ensures run.succeeded + |run.failures| == |keys|
    decreases |keys|
  {
    if keys == [] then StageRun([], [], 0)
    else
      var n := |keys| - 1;
      var prev := Run(keys[..n], attempt);
      var k := keys[n];
      match attempt(k)
      case Success(rows) => StageRun(prev.rows + rows, prev.failures, prev.succeeded + 1)
      case Failure(kind, message) => StageRun(prev.rows, prev.failures + [FailureRecord(k, kind, message)], prev.succeeded)
  }

  /** Every failure record names a key whose attempt failed with that error
      type and message, every failed key has its record, and every success
      row comes from a key whose attempt succeeded. */
  lemma {:induction false} RunRecords<R>(keys: seq<string>, attempt: string -> Outcome<R>)
    ensures forall f :: f in Run(keys, attempt).failures ==> f.key in keys && attempt(f.key) == Failure(f.errorType, f.message)
    ensures forall k :: k in keys && attempt(k).Failure? ==> FailureRecord(k, attempt(k).kind, attempt(k).message) in Run(keys, attempt).failures
    ensures forall r :: r in Run(keys, attempt).rows ==> exists k :: k in keys && attempt(k).Success? && r in attempt(k).rows
    decreases |keys|
  {
    if keys != [] {
      var n := |keys| - 1;
      RunRecords(keys[..n], attempt);
      assert keys == keys[..n] + [keys[n]];
    }
  }

  /** One run over `a + b` is the run over `a` followed by the run over `b`:
      a failure never stops the keys after it from being processed. */
  lemma {:induction false} RunAppend<R>(a: seq<string>, b: seq<string>, attempt: string -> Outcome<R>)
    ensures Run(a + b, attempt).rows == Run(a, attempt).rows + Run(b, attempt).rows
    ensures Run(a + b, attempt).failures == Run(a, attempt).failures + Run(b, attempt).failures
    ensures Run(a + b, attempt).succeeded == Run(a, attempt).succeeded + Run(b, attempt).succeeded
    decreases |b|
  {
    if b == [] {
      assert a + b == a;
    } else {
      var n := |b| - 1;
      var ab := a + b;
      assert ab[..|ab| - 1] == a + b[..n];
      assert ab[|ab| - 1] == b[n];
      RunAppend(a, b[..n], attempt);
    }
  }

  /** A property of every row of every successful attempt holds of every
      row of the run. */
  lemma RunRowsHold<R>(keys: seq<string>, attempt: string -> Outcome<R>, p: R -> bool)
    requires forall k :: k in keys && attempt(k).Success? ==> forall r :: r in attempt(k).rows ==> p(r)
    ensures forall r :: r in Run(keys, attempt).rows ==> p(r)
  {
    RunRecords(keys, attempt);
  }

  /** When every success yields exactly one row (the pirates and crew-detail
      stages), success rows plus failure rows equal the number of keys. */
  lemma {:induction false} RunOneRowEach<R>(keys: seq<string>, attempt: string -> Outcome<R>)
    requires forall k :: k in keys && attempt(k).Success? ==> |attempt(k).rows| == 1
    ensures |Run(keys, attempt).rows| == Run(keys, attempt).succeeded
    ensures |Run(keys, attempt).rows| + |Run(keys, attempt).failures| == |keys|
    decreases |keys|
  {
    if keys != [] {
      var n := |keys| - 1;
      assert forall k :: k in keys[..n] ==> k in keys;
      RunOneRowEach(keys[..n], attempt);
    }
  }

  /** A keyed stage's `run`: a missing key column aborts the stage before any
      key is attempted; otherwise every prepared key is attempted once. */
  function RunKeyedStage<R>(input: Table, column: Column, missingMessage: string, attempt: string -> Outcome<R>): (res: Result<StageRun<R>, StageError>)
    ensures column !in input.columns <==> res.Err?
    ensures res.Err? ==> res.error == MissingColumn(missingMessage)
    ensures res.Ok? ==> res.value.succeeded + |res.value.failures| == |PrepareKeys(ColumnValues(input, column))|
  {
    if column !in input.columns then Err(MissingColumn(missingMessage))
    else Ok(Run(PrepareKeys(ColumnValues(input, column)), attempt))
  }

  /** The columns of every `*_failures` table: key column, "Error Type", "Message". */
  function FailureTable(keyColumn: Column, failures: seq<FailureRecord>): (t: Table)
    requires keyColumn != ErrorType && keyColumn != Message
    ensures t.columns == [keyColumn, ErrorType, Message]
    ensures |t.rows| == |failures|
    ensures WellFormed(t)
    ensures forall i :: 0 <= i < |failures| ==>
      && t.rows[i][keyColumn] == failures[i].key
      && t.rows[i][ErrorType] == failures[i].errorType
      && t.rows[i][Message] == failures[i].message
  {
    Table([keyColumn, ErrorType, Message],
          seq(|failures|, i requires 0 <= i < |failures| =>
            map[keyColumn := failures[i].key, ErrorType := failures[i].errorType, Message := failures[i].message]))
  }
}
