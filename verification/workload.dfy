/** The benchmark workload generator: a line-ordered SQL script whose shape is
    fixed by (n, q) or (dim, n, q) and whose numbers come from NumPy's random
    generator. */
module Workload {
  import opened Common
  import opened Text

  /** What the generator asks of NumPy and of Python's `str` on floats, as oracles.
      Every call to `np.random` in a run is numbered from 0 in program order;
      `uniform(t, c)` is component c of call t, `randint(t, n)` is call t's answer
      for `randint(n)`, and `fmt` renders one float. */
  datatype Oracle = Oracle(uniform: (nat, nat) -> real, randint: (nat, int) -> int, fmt: real -> string)

  /** What NumPy and Python promise about those oracles. */
  ghost predicate Honest(o: Oracle)
  {
    && (forall t, c :: 0.0 <= o.uniform(t, c) < 1.0)
    && (forall t, n :: n >= 1 ==> 0 <= o.randint(t, n) < n)
    && (forall x :: ',' !in o.fmt(x))
  }

  /** How a run ends: either the whole script was printed or an exception escaped. */
  datatype Failure =
    | ParameterError  // int() rejected an argument, or the argument count is wrong
    | UnknownMode     // the mode name is not one of the two generators
    | ValueError      // NumPy rejected randint(n <= 0) or uniform(size < 0) mid-stream

  /** One printed line of a script. */
  datatype Line =
    | Pragma
    | CreateTextTable
    | CreateVectorTable(dim: int)
    | CreateIndex
    | InsertText(id: int, literal: string)
    | InsertVector(id: int, literal: string)
    | SelectById(id: int)
    | TopOne(literal: string)
    | InsertsMarker
    | SearchMarker

  /** The printed lines, each followed by a newline on stdout, and how the run ended. */
  datatype Run = Run(lines: seq<Line>, failure: Option<Failure>)

  /** The fixed vector width of the plain lookup workload. */
  const TEXT_VECTOR_SIZE: nat := 64

  /** The text `print` writes for a line. */
  function Render(l: Line): string
  {
    match l
    case Pragma => "PRAGMA journal_mode=WAL;"
    case CreateTextTable => "CREATE TABLE x ( id INTEGER PRIMARY KEY, value TEXT );"
    case CreateVectorTable(dim) =>
      "CREATE TABLE x ( id INTEGER PRIMARY KEY, embedding FLOAT32(" + IntToString(dim) + ") );"
    case CreateIndex => "CREATE INDEX x_idx ON x( libsql_vector_idx(embedding) );"
    case InsertText(id, literal) => "INSERT INTO x VALUES (" + IntToString(id) + ", '" + literal + "');"
    case InsertVector(id, literal) =>
      "INSERT INTO x VALUES (" + IntToString(id) + ", vector('" + literal + "'));"
    case SelectById(id) => "SELECT id, value FROM x WHERE id = " + IntToString(id) + ";"
    case TopOne(literal) => "SELECT id FROM vector_top_k('x_idx', '" + literal + "', 1);"
    case InsertsMarker => "---inserts"
    case SearchMarker => "---search"
  }

  /** The components of the literal built from random call t. */
  function Components(o: Oracle, t: nat, size: nat): (r: seq<string>)
    ensures |r| == size
  {
    seq(size, c requires 0 <= c < size => o.fmt(o.uniform(t, c)))
  }

  /** `[` + `','.join(map(str, np.random.uniform(size=size)))` + `]` for random call t. */
  function VectorLiteral(o: Oracle, t: nat, size: nat): string
  {
    BracketList(Components(o, t, size))
  }

  /** Python's `range(n)` runs max(n, 0) times. */
  function Count(n: int): nat
  {
    if n < 0 then 0 else n
  }

  /** The complete `no_vectors(n, q)` script, line by line. */
  ghost predicate NoVectorsScript(lines: seq<Line>, n: int, q: int, o: Oracle)
  {
    var N, Q := Count(n), Count(q);
    && |lines| == N + Q + 4
    && lines[0] == Pragma
    && lines[1] == CreateTextTable
    && (forall k :: 2 <= k < N + 2 ==> lines[k] == InsertText(k - 2, VectorLiteral(o, k - 2, TEXT_VECTOR_SIZE)))
    && lines[N + 2] == InsertsMarker
    && (forall k :: N + 3 <= k < N + Q + 3 ==> lines[k] == SelectById(o.randint(k - 3, n)))
    && lines[N + Q + 3] == SearchMarker
  }

  /** The complete `simple_workload(dim, n, q)` script, line by line. */
  ghost predicate SimpleWorkloadScript(lines: seq<Line>, dim: int, n: int, q: int, o: Oracle)
  {
    var N, Q := Count(n), Count(q);
    && |lines| == N + Q + 5
    && lines[0] == Pragma
    && lines[1] == CreateVectorTable(dim)
    && lines[2] == CreateIndex
    && (forall k :: 3 <= k < N + 3 ==> lines[k] == InsertVector(k - 3, VectorLiteral(o, k - 3, Count(dim))))
    && lines[N + 3] == InsertsMarker
    && (forall k :: N + 4 <= k < N + Q + 4 ==> lines[k] == TopOne(VectorLiteral(o, k - 4, Count(dim))))
    && lines[N + Q + 4] == SearchMarker
  }

  /** What `no_vectors(n, q)` prints once both arguments are integers: `randint(n)`
      raises for n <= 0 at the first query. */
  ghost predicate NoVectorsOutcome(n: int, q: int, o: Oracle, run: Run)
  {
    if q >= 1 && n <= 0 then
      run == Run([Pragma, CreateTextTable, InsertsMarker], Some(ValueError))
    else
      run.failure == None && NoVectorsScript(run.lines, n, q, o)
  }

  /** What `no_vectors(nArg, qArg)` does: both arguments go through `int()` before the
      first print. */
  ghost predicate NoVectorsRun(nArg: string, qArg: string, o: Oracle, run: Run)
  {
    if ParseInt(nArg).None? || ParseInt(qArg).None? then run == Run([], Some(ParameterError))
    else NoVectorsOutcome(ParseInt(nArg).value, ParseInt(qArg).value, o, run)
  }

  /** What `simple_workload(dim, n, q)` prints once all arguments are integers:
      `uniform(size=dim)` raises for dim < 0 at its first call. */
  ghost predicate SimpleWorkloadOutcome(dim: int, n: int, q: int, o: Oracle, run: Run)
  {
    var header := [Pragma, CreateVectorTable(dim), CreateIndex];
    if dim < 0 && n >= 1 then run == Run(header, Some(ValueError))
    else if dim < 0 && q >= 1 then run == Run(header + [InsertsMarker], Some(ValueError))
    else run.failure == None && SimpleWorkloadScript(run.lines, dim, n, q, o)
  }

  /** What `simple_workload(dimArg, nArg, qArg)` does: all three arguments go through
      `int()` before the first print. */
  ghost predicate SimpleWorkloadRun(dimArg: string, nArg: string, qArg: string, o: Oracle, run: Run)
  {
    if ParseInt(dimArg).None? || ParseInt(nArg).None? || ParseInt(qArg).None? then
      run == Run([], Some(ParameterError))
    else
      SimpleWorkloadOutcome(ParseInt(dimArg).value, ParseInt(nArg).value, ParseInt(qArg).value, o, run)
  }

  method NoVectors(nArg: string, qArg: string, o: Oracle) returns (run: Run)
    ensures NoVectorsRun(nArg, qArg, o, run)
  {
    var pn := ParseInt(nArg);
    if pn.None? {
      return Run([], Some(ParameterError));
    }
    var pq := ParseInt(qArg);
    if pq.None? {
      return Run([], Some(ParameterError));
    }
    run := PrintNoVectors(pn.value, pq.value, o);
  }

  /** The printing part of `no_vectors`, after both arguments are integers. */
  method PrintNoVectors(n: int, q: int, o: Oracle) returns (run: Run)
    ensures NoVectorsOutcome(n, q, o, run)
  {
    var lines := [Pragma, CreateTextTable];
    var i := 0;
    while i < n
      invariant 0 <= i == |lines| - 2 <= Count(n)
      invariant lines[0] == Pragma && lines[1] == CreateTextTable
      invariant forall k :: 2 <= k < i + 2 ==> lines[k] == InsertText(k - 2, VectorLiteral(o, k - 2, TEXT_VECTOR_SIZE))
    {
      lines := lines + [InsertText(i, VectorLiteral(o, i, TEXT_VECTOR_SIZE))];
      i := i + 1;
    }
    lines := lines + [InsertsMarker];
    var j := 0;
    while j < q
      invariant 0 <= j <= Count(q)
      invariant n <= 0 ==> j == 0
      invariant |lines| == Count(n) + 3 + j
      invariant lines[0] == Pragma && lines[1] == CreateTextTable
      invariant forall k :: 2 <= k < Count(n) + 2 ==> lines[k] == InsertText(k - 2, VectorLiteral(o, k - 2, TEXT_VECTOR_SIZE))
      invariant lines[Count(n) + 2] == InsertsMarker
      invariant forall k :: Count(n) + 3 <= k < Count(n) + 3 + j ==> lines[k] == SelectById(o.randint(k - 3, n))
    {
      if n <= 0 {
        assert lines == [Pragma, CreateTextTable, InsertsMarker];
        return Run(lines, Some(ValueError));
      }
      lines := lines + [SelectById(o.randint(Count(n) + j, n))];
      j := j + 1;
    }
    lines := lines + [SearchMarker];
    run := Run(lines, None);
  }

  method SimpleWorkload(dimArg: string, nArg: string, qArg: string, o: Oracle) returns (run: Run)
    ensures SimpleWorkloadRun(dimArg, nArg, qArg, o, run)
  {
    var pd := ParseInt(dimArg);
    if pd.None? {
      return Run([], Some(ParameterError));
    }
    var pn := ParseInt(nArg);
    if pn.None? {
      return Run([], Some(ParameterError));
    }
    var pq := ParseInt(qArg);
    if pq.None? {
      return Run([], Some(ParameterError));
    }
    run := PrintSimpleWorkload(pd.value, pn.value, pq.value, o);
  }

  /** The printing part of `simple_workload`, after all arguments are integers. */
  method PrintSimpleWorkload(dim: int, n: int, q: int, o: Oracle) returns (run: Run)
    ensures SimpleWorkloadOutcome(dim, n, q, o, run)
  {
    var header := [Pragma, CreateVectorTable(dim), CreateIndex];
    var lines := header;
    var i := 0;
    while i < n
      invariant 0 <= i == |lines| - 3 <= Count(n)
      invariant lines[..3] == header
      invariant i > 0 ==> dim >= 0
      invariant forall k :: 3 <= k < i + 3 ==> lines[k] == InsertVector(k - 3, VectorLiteral(o, k - 3, Count(dim)))
    {
      if dim < 0 {
        assert lines == header;
        return Run(lines, Some(ValueError));
      }
      lines := lines + [InsertVector(i, VectorLiteral(o, i, dim))];
      i := i + 1;
    }
    lines := lines + [InsertsMarker];
    var N := Count(n);
    var j := 0;
    while j < q
      invariant 0 <= j <= Count(q)
      invariant |lines| == N + 4 + j
      invariant lines[..3] == header
      invariant N > 0 || j > 0 ==> dim >= 0
      invariant forall k :: 3 <= k < N + 3 ==> lines[k] == InsertVector(k - 3, VectorLiteral(o, k - 3, Count(dim)))
      invariant lines[N + 3] == InsertsMarker
      invariant forall k :: N + 4 <= k < N + 4 + j ==> lines[k] == TopOne(VectorLiteral(o, k - 4, Count(dim)))
    {
      if dim < 0 {
        assert lines == header + [InsertsMarker];
        return Run(lines, Some(ValueError));
      }
      lines := lines + [TopOne(VectorLiteral(o, N + j, dim))];
      j := j + 1;
    }
    lines := lines + [SearchMarker];
    run := Run(lines, None);
    assert lines[0] == Pragma && lines[1] == CreateVectorTable(dim) && lines[2] == CreateIndex by {
      assert lines[..3] == header;
    }
  }

  /** `globals()[sys.argv[1]](*sys.argv[2:])`: argv[0] is the script name, argv[1] the mode. */
  method Dispatch(argv: seq<string>, o: Oracle) returns (run: Run)
    ensures (|argv| < 2 || argv[1] !in {"no_vectors", "simple_workload"}) ==> run == Run([], Some(UnknownMode))
    ensures |argv| >= 2 && argv[1] == "no_vectors" ==>
      if |argv| == 4 then NoVectorsRun(argv[2], argv[3], o, run) else run == Run([], Some(ParameterError))
    ensures |argv| >= 2 && argv[1] == "simple_workload" ==>
      if |argv| == 5 then SimpleWorkloadRun(argv[2], argv[3], argv[4], o, run) else run == Run([], Some(ParameterError))
  {
    if |argv| < 2 {
      return Run([], Some(UnknownMode));
    }
    var args := argv[2..];
    if argv[1] == "no_vectors" {
      if |args| != 2 {
        return Run([], Some(ParameterError));
      }
      run := NoVectors(args[0], args[1], o);
    } else if argv[1] == "simple_workload" {
      if |args| != 3 {
        return Run([], Some(ParameterError));
      }
      run := SimpleWorkload(args[0], args[1], args[2], o);
    } else {
      run := Run([], Some(UnknownMode));
    }
  }

  /** A vector literal is `[`, then exactly `size` comma-separated components (the
      rendered floats, recovered by splitting on commas), then `]`. */
  lemma LiteralShape(o: Oracle, t: nat, size: nat)
    requires Honest(o) && size >= 1
    ensures var lit := VectorLiteral(o, t, size);
            && |lit| >= 2 && lit[0] == '[' && lit[|lit| - 1] == ']'
            && Occurrences(lit, ',') == size - 1
            && Split(lit[1..|lit| - 1], ',') == Components(o, t, size)
  {
    var parts := Components(o, t, size);
    assert NoneContains(parts, ',');
    var body := Join(parts, ',');
    var lit := VectorLiteral(o, t, size);
    assert lit == "[" + body + "]";
    assert lit[1..|lit| - 1] == body;
    SplitJoin(parts, ',');
    JoinSeparatorCount(parts, ',');
    OccurrencesAppend("[" + body, "]", ',');
    OccurrencesAppend("[", body, ',');
    OccurrencesAbsent("[", ',');
    OccurrencesAbsent("]", ',');
  }

  /** No statement prints as a marker: every statement is longer than both
      markers, and the two markers differ. So a reader of the output that splits
      it at the marker lines splits it where the script put them. */
  lemma RenderedMarkers(l: Line)
    ensures Render(l) == Render(InsertsMarker) <==> l == InsertsMarker
    ensures Render(l) == Render(SearchMarker) <==> l == SearchMarker
  {
    assert |Render(InsertsMarker)| == 10 && |Render(SearchMarker)| == 9;
    if !l.InsertsMarker? && !l.SearchMarker? {
      assert |Render(l)| > 10;
    }
  }

  /** A `no_vectors` script has one `---inserts` line, after the last insert,
      and one `---search` line, the last. */
  lemma NoVectorsMarkersUnique(lines: seq<Line>, n: int, q: int, o: Oracle)
    requires NoVectorsScript(lines, n, q, o)
    ensures forall k :: 0 <= k < |lines| ==>
      && (lines[k] == InsertsMarker <==> k == Count(n) + 2)
      && (lines[k] == SearchMarker <==> k == |lines| - 1)
  {
  }

  /** A `simple_workload` script has one `---inserts` line, after the last
      insert, and one `---search` line, the last. */
  lemma SimpleWorkloadMarkersUnique(lines: seq<Line>, dim: int, n: int, q: int, o: Oracle)
    requires SimpleWorkloadScript(lines, dim, n, q, o)
    ensures forall k :: 0 <= k < |lines| ==>
      && (lines[k] == InsertsMarker <==> k == Count(n) + 3)
      && (lines[k] == SearchMarker <==> k == |lines| - 1)
  {
  }

  /** Line k looks up an id in [0, n) that the insert on line id + 2 stored. */
  ghost predicate LooksUpStoredRow(lines: seq<Line>, k: int, n: int, o: Oracle)
    requires 0 <= k < |lines|
  {
    exists id :: 0 <= id < n && id + 2 < |lines| && lines[k] == SelectById(id) &&
      lines[id + 2] == InsertText(id, VectorLiteral(o, id, TEXT_VECTOR_SIZE))
  }

  /** Every lookup of a `no_vectors` script asks for an id in [0, n) that an insert
      line of the same script stored. */
  lemma NoVectorsLookupsHit(lines: seq<Line>, n: int, q: int, o: Oracle)
    requires Honest(o) && NoVectorsScript(lines, n, q, o)
    requires q >= 1 ==> n >= 1
    ensures forall k :: Count(n) + 3 <= k < Count(n) + Count(q) + 3 ==> LooksUpStoredRow(lines, k, n, o)
  {
    forall k | Count(n) + 3 <= k < Count(n) + Count(q) + 3
      ensures LooksUpStoredRow(lines, k, n, o)
    {
      var id := o.randint(k - 3, n);
      assert 0 <= id < n;
      assert lines[k] == SelectById(id);
      assert lines[id + 2] == InsertText(id, VectorLiteral(o, id, TEXT_VECTOR_SIZE));
    }
  }
}
