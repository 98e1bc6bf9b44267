/**
 * Per-namespace query statistics of the server (libsql-server/src/stats.rs):
 * counters bumped by every statement, the ten heaviest and the ten slowest
 * queries kept in ordered sets with a threshold for entry, and per-statement
 * aggregates capped at 30 entries.
 *
 * Ordered sets (`BTreeSet`) are strictly ascending sequences under the
 * order Rust derives for the record (field by field, in declaration order);
 * their first element is the minimum. Strings compare character by
 * character, which is the order of their UTF-8 bytes.
 */
module Stats {
  import opened Common

  // ---------------------------------------------------------------- orders

  /** Lexicographic order of strings. */
  predicate StrLess(a: string, b: string)
    decreases |a|
  {
    if |a| == 0 then |b| > 0
    else if |b| == 0 then false
    else if a[0] != b[0] then a[0] < b[0]
    else StrLess(a[1..], b[1..])
  }

  lemma {:induction false} StrLessAsymmetric(a: string, b: string)
    ensures !(StrLess(a, b) && StrLess(b, a))
    decreases |a|
  {
    if |a| > 0 && |b| > 0 && a[0] == b[0] {
      StrLessAsymmetric(a[1..], b[1..]);
    }
  }

  lemma {:induction false} StrLessTransitive(a: string, b: string, c: string)
    requires StrLess(a, b) && StrLess(b, c)
    ensures StrLess(a, c)
    decreases |a|
  {
    if |a| > 0 && a[0] == b[0] && b[0] == c[0] {
      StrLessTransitive(a[1..], b[1..], c[1..]);
    }
  }

  lemma {:induction false} StrLessTotal(a: string, b: string)
    ensures a == b || StrLess(a, b) || StrLess(b, a)
    decreases |a|
  {
    if |a| > 0 && |b| > 0 && a[0] == b[0] {
      StrLessTotal(a[1..], b[1..]);
      if a[1..] == b[1..] {
        assert a == [a[0]] + a[1..] && b == [b[0]] + b[1..];
      }
    }
  }

  /** `less` is a strict total order. */
  ghost predicate StrictTotal<T(!new)>(less: (T, T) -> bool)
  {
    (forall a, b :: less(a, b) ==> !less(b, a)) &&
    (forall a, b, c :: less(a, b) && less(b, c) ==> less(a, c)) &&
    (forall a, b :: a == b || less(a, b) || less(b, a))
  }

  // ---------------------------------------------------------- ordered sets

  /** `s` is strictly ascending under `less`. */
  ghost predicate Ascending<T>(s: seq<T>, less: (T, T) -> bool)
  {
    forall i, j :: 0 <= i < j < |s| ==> less(s[i], s[j])
  }

  /** `BTreeSet::insert`: `x` added at its place, unless an equal element is there. */
  function Insert<T(==)>(s: seq<T>, x: T, less: (T, T) -> bool): seq<T>
    decreases |s|
  {
    if |s| == 0 then [x]
    else if x == s[0] then s
    else if less(x, s[0]) then [x] + s
    else [s[0]] + Insert(s[1..], x, less)
  }

  /** Inserting into an ascending sequence keeps it ascending and adds exactly `x`. */
  lemma {:induction false} InsertAscending<T(!new)>(s: seq<T>, x: T, less: (T, T) -> bool)
    requires StrictTotal(less) && Ascending(s, less)
    ensures Ascending(Insert(s, x, less), less)
    ensures forall y :: y in Insert(s, x, less) <==> y in s || y == x
    ensures x in s ==> Insert(s, x, less) == s
    ensures x !in s ==> |Insert(s, x, less)| == |s| + 1
    decreases |s|
  {
    if |s| > 0 && x != s[0] && !less(x, s[0]) {
      var rest := s[1..];
      assert Ascending(rest, less);
      InsertAscending(rest, x, less);
      var r := Insert(rest, x, less);
      assert s == [s[0]] + rest;
      forall j | 0 <= j < |r|
        ensures less(s[0], r[j])
      {
        assert r[j] in rest || r[j] == x;
      }
    }
  }

  /** Insertion into a set capped at `cap` elements: when the insertion
      overflows the cap, the first (least) element is dropped. */
  function Capped<T(==)>(s: seq<T>, x: T, less: (T, T) -> bool, cap: nat): seq<T>
  {
    var t := Insert(s, x, less);
    if |t| > cap then t[1..] else t
  }

  /** A capped insertion keeps the set ascending and within the cap; it holds
      the old elements and `x` except, on overflow, the least of them all. */
  lemma CappedKeeps<T(!new)>(s: seq<T>, x: T, less: (T, T) -> bool, cap: nat)
    requires StrictTotal(less) && Ascending(s, less) && |s| <= cap
    ensures var r := Capped(s, x, less, cap);
      Ascending(r, less) && |r| <= cap
    ensures var t := Insert(s, x, less);
      |t| > cap ==>
        (forall y :: y in s || y == x ==> y == t[0] || less(t[0], y)) &&
        (forall y :: y in Capped(s, x, less, cap) <==> (y in s || y == x) && y != t[0])
    ensures |Insert(s, x, less)| <= cap ==>
      forall y :: y in Capped(s, x, less, cap) <==> y in s || y == x
  {
    InsertAscending(s, x, less);
    var t := Insert(s, x, less);
    if |t| > cap {
      forall y | y in Capped(s, x, less, cap)
        ensures y != t[0]
      {
        var j :| 1 <= j < |t| && t[j] == y;
      }
      forall y | y in s || y == x
        ensures y == t[0] || less(t[0], y)
      {
        var j :| 0 <= j < |t| && t[j] == y;
      }
      forall y | (y in s || y == x) && y != t[0]
        ensures y in Capped(s, x, less, cap)
      {
        var j :| 0 <= j < |t| && t[j] == y;
        assert t[1..][j - 1] == y;
      }
    }
  }

  // --------------------------------------------------------------- records

  /** A query ranked by the rows it touched; the derived order compares
      weight, rows written, rows read, then the text. */
  datatype TopQuery = TopQuery(weight: nat, rowsWritten: nat, rowsRead: nat, query: string)

  predicate TopLess(a: TopQuery, b: TopQuery)
  {
    a.weight < b.weight || (a.weight == b.weight &&
      (a.rowsWritten < b.rowsWritten || (a.rowsWritten == b.rowsWritten &&
        (a.rowsRead < b.rowsRead || (a.rowsRead == b.rowsRead && StrLess(a.query, b.query))))))
  }

  /** A top-query record for a statement that read and wrote the given rows. */
  function NewTopQuery(query: string, rowsRead: nat, rowsWritten: nat): (q: TopQuery)
    ensures q.rowsRead == rowsRead && q.rowsWritten == rowsWritten && q.query == query
  {
    TopQuery(rowsRead + rowsWritten, rowsWritten, rowsRead, query)
  }

  /** Top queries rank by the total number of rows touched first. */
  lemma NewTopQueryRanksByRows(q1: string, read1: nat, written1: nat, q2: string, read2: nat, written2: nat)
    requires read1 + written1 < read2 + written2
    ensures TopLess(NewTopQuery(q1, read1, written1), NewTopQuery(q2, read2, written2))
    ensures !TopLess(NewTopQuery(q2, read2, written2), NewTopQuery(q1, read1, written1))
  {
  }

  /** A query ranked by its running time; the derived order compares the
      elapsed milliseconds, the text, rows written, then rows read. */
  datatype SlowestQuery = SlowestQuery(elapsedMs: nat, query: string, rowsWritten: nat, rowsRead: nat)

  predicate SlowLess(a: SlowestQuery, b: SlowestQuery)
  {
    a.elapsedMs < b.elapsedMs || (a.elapsedMs == b.elapsedMs &&
      (StrLess(a.query, b.query) || (a.query == b.query &&
        (a.rowsWritten < b.rowsWritten || (a.rowsWritten == b.rowsWritten && a.rowsRead < b.rowsRead)))))
  }

  /** Aggregated statistics of one statement text; the derived order compares
      elapsed milliseconds, count, rows written, then rows read. */
  datatype QueryStats = QueryStats(elapsedMs: nat, count: nat, rowsWritten: nat, rowsRead: nat)
  {
    /** Two aggregates of the same statement combined. */
    function Merge(other: QueryStats): (r: QueryStats)
      ensures r.count == count + other.count
    {
      QueryStats(elapsedMs + other.elapsedMs, count + other.count,
                 rowsWritten + other.rowsWritten, rowsRead + other.rowsRead)
    }
  }

  /** The statistics of one execution. */
  function NewQueryStats(elapsedMs: nat, rowsRead: nat, rowsWritten: nat): (r: QueryStats)
    ensures r.count == 1
  {
    QueryStats(elapsedMs, 1, rowsWritten, rowsRead)
  }

  /** Merging does not depend on the order of the operands. */
  lemma MergeCommutes(a: QueryStats, b: QueryStats)
    ensures a.Merge(b) == b.Merge(a)
  {
  }

  /** Merging does not depend on the grouping of the operands. */
  lemma MergeAssociates(a: QueryStats, b: QueryStats, c: QueryStats)
    ensures a.Merge(b).Merge(c) == a.Merge(b.Merge(c))
  {
  }

  /** Aggregating `n` executions one by one sums their figures and counts `n`. */
  function Aggregate(runs: seq<QueryStats>): QueryStats
    requires |runs| > 0
  {
    if |runs| == 1 then runs[0] else Aggregate(runs[..|runs| - 1]).Merge(runs[|runs| - 1])
  }

  /** The total running time of a list of executions. */
  function TotalElapsed(runs: seq<QueryStats>): nat
  {
    if |runs| == 0 then 0 else TotalElapsed(runs[..|runs| - 1]) + runs[|runs| - 1].elapsedMs
  }

  lemma {:induction false} AggregateCounts(runs: seq<QueryStats>)
    requires |runs| > 0 && forall i :: 0 <= i < |runs| ==> runs[i].count == 1
    ensures Aggregate(runs).count == |runs|
    ensures Aggregate(runs).elapsedMs == TotalElapsed(runs)
  {
    if |runs| > 1 {
      AggregateCounts(runs[..|runs| - 1]);
    } else {
      assert runs[..0] == [];
    }
  }

  predicate StatsLess(a: QueryStats, b: QueryStats)
  {
    a.elapsedMs < b.elapsedMs || (a.elapsedMs == b.elapsedMs &&
      (a.count < b.count || (a.count == b.count &&
        (a.rowsWritten < b.rowsWritten || (a.rowsWritten == b.rowsWritten && a.rowsRead < b.rowsRead)))))
  }

  /** The order in which `register_query` sorts its entries: by statistics,
      and, among equal statistics, by statement text. */
  predicate EntryLess(a: (string, QueryStats), b: (string, QueryStats))
  {
    StatsLess(a.1, b.1) || (a.1 == b.1 && StrLess(a.0, b.0))
  }

  lemma TopLessIsStrictTotal()
    ensures StrictTotal(TopLess)
  {
    forall a: TopQuery, b: TopQuery
      ensures !(TopLess(a, b) && TopLess(b, a)) && (a == b || TopLess(a, b) || TopLess(b, a))
    {
      StrLessAsymmetric(a.query, b.query);
      StrLessTotal(a.query, b.query);
    }
    forall a: TopQuery, b: TopQuery, c: TopQuery | TopLess(a, b) && TopLess(b, c)
      ensures TopLess(a, c)
    {
      if StrLess(a.query, b.query) && StrLess(b.query, c.query) {
        StrLessTransitive(a.query, b.query, c.query);
      }
    }
  }

  lemma SlowLessIsStrictTotal()
    ensures StrictTotal(SlowLess)
  {
    forall a: SlowestQuery, b: SlowestQuery
      ensures !(SlowLess(a, b) && SlowLess(b, a)) && (a == b || SlowLess(a, b) || SlowLess(b, a))
    {
      StrLessAsymmetric(a.query, b.query);
      StrLessTotal(a.query, b.query);
    }
    forall a: SlowestQuery, b: SlowestQuery, c: SlowestQuery | SlowLess(a, b) && SlowLess(b, c)
      ensures SlowLess(a, c)
    {
      if StrLess(a.query, b.query) && StrLess(b.query, c.query) {
        StrLessTransitive(a.query, b.query, c.query);
      }
    }
  }

  lemma EntryLessIsStrictTotal()
    ensures StrictTotal(EntryLess)
  {
    forall a: (string, QueryStats), b: (string, QueryStats)
      ensures !(EntryLess(a, b) && EntryLess(b, a)) && (a == b || EntryLess(a, b) || EntryLess(b, a))
    {
      StrLessAsymmetric(a.0, b.0);
      StrLessTotal(a.0, b.0);
    }
    forall a: (string, QueryStats), b: (string, QueryStats), c: (string, QueryStats) | EntryLess(a, b) && EntryLess(b, c)
      ensures EntryLess(a, c)
    {
      if StrLess(a.0, b.0) && StrLess(b.0, c.0) {
        StrLessTransitive(a.0, b.0, c.0);
      }
    }
  }

  // ------------------------------------------------- per-statement aggregates

  /** The statement texts listed in `vec`. */
  function KeysOf(vec: seq<(string, QueryStats)>): set<string>
  {
    set i | 0 <= i < |vec| :: vec[i].0
  }

  /** `vec` lists the entries of `m`, one per key. */
  ghost predicate Lists(vec: seq<(string, QueryStats)>, m: map<string, QueryStats>)
  {
    |vec| == |m| &&
    (forall i | 0 <= i < |vec| :: vec[i].0 in m && m[vec[i].0] == vec[i].1) &&
    (forall k | k in m :: exists i :: 0 <= i < |vec| && vec[i].0 == k)
  }

  /** An ascending listing of a map names each key once. */
  lemma ListedKeysDistinct(vec: seq<(string, QueryStats)>, m: map<string, QueryStats>)
    requires StrictTotal(EntryLess) && Ascending(vec, EntryLess) && Lists(vec, m)
    ensures forall i, j :: 0 <= i < j < |vec| ==> vec[i].0 != vec[j].0
  {
    forall i, j | 0 <= i < j < |vec|
      ensures vec[i].0 != vec[j].0
    {
      assert EntryLess(vec[i], vec[j]);
    }
  }

  /** A list naming distinct keys names as many keys as it has entries. */
  lemma {:induction false} KeysOfCount(vec: seq<(string, QueryStats)>)
    requires forall i, j :: 0 <= i < j < |vec| ==> vec[i].0 != vec[j].0
    ensures |KeysOf(vec)| == |vec|
    decreases |vec|
  {
    if |vec| > 0 {
      var init := vec[..|vec| - 1];
      KeysOfCount(init);
      assert KeysOf(vec) == KeysOf(init) + {vec[|vec| - 1].0};
      assert vec[|vec| - 1].0 !in KeysOf(init);
    }
  }

  /** The aggregate `register_query` computes for `sql`. */
  function Aggregated(m: map<string, QueryStats>, sql: string, stat: QueryStats): (r: QueryStats)
    ensures sql !in m ==> r == stat
    ensures sql in m ==> r.count == m[sql].count + stat.count && r.elapsedMs == m[sql].elapsedMs + stat.elapsedMs
  {
    if sql in m then m[sql].Merge(stat) else stat
  }

  /** `kept` is what survives of `full` when it is cut down to 30 entries:
      every dropped entry sorts below every survivor, and `threshold` is the
      smallest running time among the survivors. */
  ghost predicate Evicted(full: map<string, QueryStats>, kept: map<string, QueryStats>, threshold: nat)
  {
    |kept| == 30 && kept.Keys <= full.Keys &&
    (forall k | k in kept :: kept[k] == full[k]) &&
    (forall k, k' | k in full && k !in kept && k' in kept :: EntryLess((k, full[k]), (k', full[k']))) &&
    (exists k :: k in kept && kept[k].elapsedMs == threshold) &&
    (forall k | k in kept :: kept[k].elapsedMs >= threshold)
  }

  /** What `register_query` does to the aggregates and their threshold: an
      aggregate below the threshold is dropped; otherwise it is stored, and a
      new statement that takes the map past 30 entries evicts the least ones. */
  ghost predicate Registered(m: map<string, QueryStats>, threshold: nat, sql: string, stat: QueryStats,
                             m': map<string, QueryStats>, threshold': nat)
  {
    var agg := Aggregated(m, sql, stat);
    if agg.elapsedMs < threshold then m' == m && threshold' == threshold
    else if sql in m || |m| < 30 then m' == m[sql := agg] && threshold' == threshold
    else Evicted(m[sql := agg], m', threshold')
  }

  /** Dropping the first `n` entries of a listing of `m` leaves as many
      statements as there are later entries. */
  lemma KeptCount(m: map<string, QueryStats>, vec: seq<(string, QueryStats)>, n: nat)
    requires StrictTotal(EntryLess) && Ascending(vec, EntryLess) && Lists(vec, m) && n < |vec|
    ensures |m - KeysOf(vec[..n])| == |vec| - n
  {
    var removed := KeysOf(vec[..n]);
    ListedKeysDistinct(vec, m);
    KeysOfCount(vec[..n]);
    assert removed <= m.Keys;
    assert (m - removed).Keys == m.Keys - removed;
  }

  /** Dropping the first `n` entries of a listing of `m` leaves exactly the
      statements of the later entries. */
  lemma KeptAreLater(m: map<string, QueryStats>, vec: seq<(string, QueryStats)>, n: nat)
    requires StrictTotal(EntryLess) && Ascending(vec, EntryLess) && Lists(vec, m) && n < |vec|
    ensures var kept := m - KeysOf(vec[..n]);
      (forall j | n <= j < |vec| :: vec[j].0 in kept) &&
      (forall k | k in kept :: exists j :: n <= j < |vec| && vec[j].0 == k)
  {
    var kept := m - KeysOf(vec[..n]);
    ListedKeysDistinct(vec, m);
    forall j | n <= j < |vec|
      ensures vec[j].0 in kept
    {
      forall i | 0 <= i < n
        ensures vec[..n][i].0 != vec[j].0
      {
        assert vec[..n][i] == vec[i];
      }
    }
    forall k | k in kept
      ensures exists j :: n <= j < |vec| && vec[j].0 == k
    {
      var j :| 0 <= j < |vec| && vec[j].0 == k;
      forall i | 0 <= i < n
        ensures vec[i].0 != k
      {
        assert vec[..n][i] == vec[i];
      }
    }
  }

  /** Every survivor of the cut runs at least as long as the first survivor. */
  lemma FirstSurvivorLeast(m: map<string, QueryStats>, vec: seq<(string, QueryStats)>, n: nat)
    requires StrictTotal(EntryLess) && Ascending(vec, EntryLess) && Lists(vec, m) && n < |vec|
    requires forall k | k in m - KeysOf(vec[..n]) :: exists j :: n <= j < |vec| && vec[j].0 == k
    ensures forall k | k in m - KeysOf(vec[..n]) :: m[k].elapsedMs >= vec[n].1.elapsedMs
  {
    forall k | k in m - KeysOf(vec[..n])
      ensures m[k].elapsedMs >= vec[n].1.elapsedMs
    {
      var j :| n <= j < |vec| && vec[j].0 == k;
      if j > n {
        assert EntryLess(vec[n], vec[j]);
      }
    }
  }

  /** Every dropped entry sorts below every survivor. */
  lemma DroppedBelowKept(m: map<string, QueryStats>, vec: seq<(string, QueryStats)>, n: nat)
    requires StrictTotal(EntryLess) && Ascending(vec, EntryLess) && Lists(vec, m) && n < |vec|
    requires forall k | k in m - KeysOf(vec[..n]) :: exists j :: n <= j < |vec| && vec[j].0 == k
    ensures var kept := m - KeysOf(vec[..n]);
      forall k, k' | k in m && k !in kept && k' in kept :: EntryLess((k, m[k]), (k', m[k']))
  {
    var kept := m - KeysOf(vec[..n]);
    forall k, k' | k in m && k !in kept && k' in kept
      ensures EntryLess((k, m[k]), (k', m[k']))
    {
      var i :| 0 <= i < n && vec[..n][i].0 == k;
      var j :| n <= j < |vec| && vec[j].0 == k';
      assert EntryLess(vec[i], vec[j]);
    }
  }

  /** Cutting an ascending listing of `m` down to its last 30 entries evicts
      as `register_query` promises, with the first survivor's running time as
      the threshold. */
  lemma EvictsLeast(m: map<string, QueryStats>, vec: seq<(string, QueryStats)>, n: nat)
    requires StrictTotal(EntryLess) && Ascending(vec, EntryLess) && Lists(vec, m) && n + 30 == |vec|
    ensures Evicted(m, m - KeysOf(vec[..n]), vec[n].1.elapsedMs)
  {
    var kept := m - KeysOf(vec[..n]);
    KeptCount(m, vec, n);
    KeptAreLater(m, vec, n);
    FirstSurvivorLeast(m, vec, n);
    DroppedBelowKept(m, vec, n);
    assert vec[n].0 in kept && kept[vec[n].0].elapsedMs == vec[n].1.elapsedMs;
  }

  /** A new statement that takes the aggregates past 30 entries is registered
      by any eviction. */
  lemma RegisteredByEviction(m: map<string, QueryStats>, threshold: nat, sql: string, stat: QueryStats,
                             kept: map<string, QueryStats>, threshold': nat)
    requires sql !in m && stat.elapsedMs >= threshold && |m| >= 30
    requires Evicted(m[sql := stat], kept, threshold')
    ensures Registered(m, threshold, sql, stat, kept, threshold')
  {
  }

  /** When a new statement takes the aggregates past 30 entries, cutting their
      ascending listing down to the last 30 is a registration. */
  lemma EvictionRegisters(m: map<string, QueryStats>, threshold: nat, sql: string, stat: QueryStats,
                          vec: seq<(string, QueryStats)>, kept: map<string, QueryStats>, threshold': nat)
    requires sql !in m && stat.elapsedMs >= threshold && |m| >= 30
    requires SortedListing(vec, m[sql := stat]) && |vec| > 30
    requires kept == m[sql := stat] - KeysOf(vec[..|vec| - 30]) && threshold' == vec[|vec| - 30].1.elapsedMs
    ensures Registered(m, threshold, sql, stat, kept, threshold') && |kept| == 30
  {
    EntryLessIsStrictTotal();
    EvictsLeast(m[sql := stat], vec, |vec| - 30);
    RegisteredByEviction(m, threshold, sql, stat, kept, threshold');
  }

  /** `vec` lists the entries of `m` in ascending order. */
  ghost predicate SortedListing(vec: seq<(string, QueryStats)>, m: map<string, QueryStats>)
  {
    Ascending(vec, EntryLess) && Lists(vec, m)
  }

  /** `vec` lists, in order, the entries of `m` whose statements are not in `rest`. */
  ghost predicate ListsAllBut(vec: seq<(string, QueryStats)>, m: map<string, QueryStats>, rest: set<string>)
  {
    rest <= m.Keys && |vec| + |rest| == |m| && Ascending(vec, EntryLess) &&
    (forall i | 0 <= i < |vec| :: vec[i].0 in m && vec[i].0 !in rest && m[vec[i].0] == vec[i].1) &&
    (forall k | k in m && k !in rest :: exists i :: 0 <= i < |vec| && vec[i].0 == k)
  }

  /** Inserting the entry of one more statement extends the listing by it. */
  lemma ListStep(vec: seq<(string, QueryStats)>, m: map<string, QueryStats>, rest: set<string>, k: string)
    requires StrictTotal(EntryLess) && ListsAllBut(vec, m, rest) && k in rest
    ensures ListsAllBut(Insert(vec, (k, m[k]), EntryLess), m, rest - {k})
  {
    var entry := (k, m[k]);
    InsertAscending(vec, entry, EntryLess);
    assert entry !in vec;
    var vec' := Insert(vec, entry, EntryLess);
    assert entry in vec';
    forall i | 0 <= i < |vec'|
      ensures vec'[i].0 in m && vec'[i].0 !in rest - {k} && m[vec'[i].0] == vec'[i].1
    {
      assert vec'[i] in vec || vec'[i] == entry;
    }
    forall k2 | k2 in m && k2 !in rest - {k}
      ensures exists i :: 0 <= i < |vec'| && vec'[i].0 == k2
    {
      if k2 != k {
        var i :| 0 <= i < |vec| && vec[i].0 == k2;
        assert vec[i] in vec';
      }
    }
  }

  /** The per-statement aggregates of a namespace. */
  class QueriesStats {
    var statsThreshold: nat
    var stats: map<string, QueryStats>

    constructor ()
      ensures statsThreshold == 0 && stats == map[]
    {
      statsThreshold := 0;
      stats := map[];
    }

    /** The entries of the map, sorted. */
    method SortedEntries() returns (vec: seq<(string, QueryStats)>)
      ensures SortedListing(vec, stats) && |vec| == |stats|
    {
      EntryLessIsStrictTotal();
      vec := [];
      var rest := stats.Keys;
      while rest != {}
        invariant ListsAllBut(vec, stats, rest)
        decreases |rest|
      {
        var k :| k in rest;
        ListStep(vec, stats, rest, k);
        vec := Insert(vec, (k, stats[k]), EntryLess);
        rest := rest - {k};
      }
    }

    /** Removes the statements of all but the last 30 entries of `vec`, and
        raises the threshold to the running time of the first entry kept. */
    method KeepLast(vec: seq<(string, QueryStats)>)
      requires |vec| > 30
      modifies this`stats, this`statsThreshold
      ensures stats == old(stats) - KeysOf(vec[..|vec| - 30])
      ensures statsThreshold == vec[|vec| - 30].1.elapsedMs
    {
      var len := |vec|;
      for i := 0 to len - 30
        invariant stats == old(stats) - KeysOf(vec[..i])
      {
        assert KeysOf(vec[..i + 1]) == KeysOf(vec[..i]) + {vec[i].0};
        stats := stats - {vec[i].0};
      }
      statsThreshold := vec[len - 30].1.elapsedMs;
    }

    /** The eviction `register_query` runs once a new statement `sql` has
        taken the aggregates past 30 entries: sort them, drop all but the last
        30 and raise the threshold to the least survivor's running time. */
    method EvictLeast(ghost m: map<string, QueryStats>, ghost threshold: nat, ghost sql: string,
                      ghost stat: QueryStats)
      requires stats == m[sql := stat] && sql !in m && stat.elapsedMs >= threshold && |m| >= 30
      modifies this`stats, this`statsThreshold
      ensures Registered(m, threshold, sql, stat, stats, statsThreshold) && |stats| == 30
    {
      var vec := SortedEntries();
      // The listing has one entry per statement, more than 30 of them, so the
      // early return on `len <= 30` that follows the sort is never taken.
      KeepLast(vec);
      EvictionRegisters(m, threshold, sql, stat, vec, stats, statsThreshold);
    }

    /** Folds one execution of `sql` into the aggregates. */
    method RegisterQuery(sql: string, stat: QueryStats)
      modifies this`stats, this`statsThreshold
      ensures Registered(old(stats), old(statsThreshold), sql, stat, stats, statsThreshold)
      ensures |old(stats)| <= 30 ==> |stats| <= 30
    {
      var isNew := sql !in stats;
      var aggregated := if isNew then stat else stats[sql].Merge(stat);
      if aggregated.elapsedMs < statsThreshold {
        return;
      }
      ghost var before := stats;
      stats := stats[sql := aggregated];
      if !isNew || |stats| <= 30 {
        return;
      }
      EvictLeast(before, statsThreshold, sql, stat);
    }
  }

  // ------------------------------------------------------------- counters

  /** The statistics of a namespace. */
  class Stats {
    var rowsWritten: U64
    var rowsRead: U64
    var storageBytesUsed: U64
    var writeRequestsDelegated: U64
    var currentFrameNo: U64
    var topQueryThreshold: nat
    var topQueries: seq<TopQuery>
    var slowestQueryThreshold: nat
    var slowestQueries: seq<SlowestQuery>
    var embeddedReplicaFramesReplicated: U64
    var queryCount: U64
    var queryLatency: U64
    const queries: QueriesStats

    /** Zeroed statistics with empty aggregates. */
    constructor ()
      ensures rowsWritten == 0 && rowsRead == 0 && storageBytesUsed == 0 && writeRequestsDelegated == 0
      ensures currentFrameNo == 0 && embeddedReplicaFramesReplicated == 0 && queryCount == 0 && queryLatency == 0
      ensures topQueryThreshold == 0 && topQueries == [] && slowestQueryThreshold == 0 && slowestQueries == []
      ensures fresh(queries) && queries.stats == map[] && queries.statsThreshold == 0
      ensures Valid()
    {
      rowsWritten, rowsRead, storageBytesUsed, writeRequestsDelegated := 0, 0, 0, 0;
      currentFrameNo, embeddedReplicaFramesReplicated, queryCount, queryLatency := 0, 0, 0, 0;
      topQueryThreshold, topQueries, slowestQueryThreshold, slowestQueries := 0, [], 0, [];
      queries := new QueriesStats();
    }

    /** Both ranked sets are ordered, hold at most 10 queries, and every
        query in them reaches its set's threshold. */
    ghost predicate Valid()
      reads this`topQueries, this`topQueryThreshold, this`slowestQueries, this`slowestQueryThreshold
    {
      TopValid() && SlowestValid()
    }

    ghost predicate TopValid()
      reads this`topQueries, this`topQueryThreshold
    {
      Ascending(topQueries, TopLess) && |topQueries| <= 10 &&
      (forall i :: 0 <= i < |topQueries| ==> topQueries[i].weight >= topQueryThreshold)
    }

    ghost predicate SlowestValid()
      reads this`slowestQueries, this`slowestQueryThreshold
    {
      Ascending(slowestQueries, SlowLess) && |slowestQueries| <= 10 &&
      (forall i :: 0 <= i < |slowestQueries| ==> slowestQueries[i].elapsedMs >= slowestQueryThreshold)
    }

    method IncRowsWritten(n: U64)
      modifies this`rowsWritten
      ensures rowsWritten == WrappingAddU64(old(rowsWritten), n)
    {
      rowsWritten := WrappingAddU64(rowsWritten, n);
    }

    method IncRowsRead(n: U64)
      modifies this`rowsRead
      ensures rowsRead == WrappingAddU64(old(rowsRead), n)
    {
      rowsRead := WrappingAddU64(rowsRead, n);
    }

    /** Counts one query that ran for `ms` milliseconds. */
    method IncQuery(ms: U64)
      modifies this`queryCount, this`queryLatency
      ensures queryCount == WrappingAddU64(old(queryCount), 1)
      ensures queryLatency == WrappingAddU64(old(queryLatency), ms)
    {
      queryCount := WrappingAddU64(queryCount, 1);
      queryLatency := WrappingAddU64(queryLatency, ms);
    }

    method SetStorageBytesUsed(n: U64)
      modifies this`storageBytesUsed
      ensures storageBytesUsed == n
    {
      storageBytesUsed := n;
    }

    method IncWriteRequestsDelegated()
      modifies this`writeRequestsDelegated
      ensures writeRequestsDelegated == WrappingAddU64(old(writeRequestsDelegated), 1)
    {
      writeRequestsDelegated := WrappingAddU64(writeRequestsDelegated, 1);
    }

    method IncEmbeddedReplicaFramesReplicated()
      modifies this`embeddedReplicaFramesReplicated
      ensures embeddedReplicaFramesReplicated == WrappingAddU64(old(embeddedReplicaFramesReplicated), 1)
    {
      embeddedReplicaFramesReplicated := WrappingAddU64(embeddedReplicaFramesReplicated, 1);
    }

    method SetCurrentFrameNo(frameNo: U64)
      modifies this`currentFrameNo
      ensures currentFrameNo == frameNo
    {
      currentFrameNo := frameNo;
    }

    /** Whether a query of this weight may enter the top queries. */
    function QualifiesAsTopQuery(weight: nat): bool
      reads this
    {
      weight >= topQueryThreshold
    }

    /** Whether a query this slow may enter the slowest queries. */
    function QualifiesAsSlowestQuery(elapsedMs: nat): bool
      reads this
    {
      elapsedMs >= slowestQueryThreshold
    }

    /** Adds `q` to the top queries, dropping the lightest when there are more
        than 10; the threshold becomes the weight of the lightest kept. */
    method AddTopQuery(q: TopQuery)
      modifies this`topQueries, this`topQueryThreshold
      ensures topQueries == Capped(old(topQueries), q, TopLess, 10)
      ensures |Insert(old(topQueries), q, TopLess)| > 10 ==> topQueryThreshold == topQueries[0].weight
      ensures |Insert(old(topQueries), q, TopLess)| <= 10 ==> topQueryThreshold == old(topQueryThreshold)
      ensures old(TopValid()) && old(QualifiesAsTopQuery(q.weight)) ==> TopValid()
    {
      TopLessIsStrictTotal();
      if TopValid() {
        CappedKeeps(topQueries, q, TopLess, 10);
      }
      topQueries := Insert(topQueries, q, TopLess);
      if |topQueries| > 10 {
        topQueries := topQueries[1..];
        topQueryThreshold := topQueries[0].weight;
      }
      if old(TopValid()) && old(QualifiesAsTopQuery(q.weight)) {
        forall i | 0 <= i < |topQueries|
          ensures topQueries[i].weight >= topQueryThreshold
        {
          if i > 0 {
            assert TopLess(topQueries[0], topQueries[i]);
          }
          assert topQueries[i] in old(topQueries) || topQueries[i] == q;
        }
      }
    }

    /** Adds `q` to the slowest queries, dropping the fastest when there are
        more than 10; the threshold becomes the running time of the fastest kept. */
    method AddSlowestQuery(q: SlowestQuery)
      modifies this`slowestQueries, this`slowestQueryThreshold
      ensures slowestQueries == Capped(old(slowestQueries), q, SlowLess, 10)
      ensures |Insert(old(slowestQueries), q, SlowLess)| > 10 ==> slowestQueryThreshold == slowestQueries[0].elapsedMs
      ensures |Insert(old(slowestQueries), q, SlowLess)| <= 10 ==> slowestQueryThreshold == old(slowestQueryThreshold)
      ensures old(SlowestValid()) && old(QualifiesAsSlowestQuery(q.elapsedMs)) ==> SlowestValid()
    {
      SlowLessIsStrictTotal();
      if SlowestValid() {
        CappedKeeps(slowestQueries, q, SlowLess, 10);
      }
      slowestQueries := Insert(slowestQueries, q, SlowLess);
      if |slowestQueries| > 10 {
        slowestQueries := slowestQueries[1..];
        slowestQueryThreshold := slowestQueries[0].elapsedMs;
      }
      if old(SlowestValid()) && old(QualifiesAsSlowestQuery(q.elapsedMs)) {
        forall i | 0 <= i < |slowestQueries|
          ensures slowestQueries[i].elapsedMs >= slowestQueryThreshold
        {
          if i > 0 {
            assert SlowLess(slowestQueries[0], slowestQueries[i]);
          }
          assert slowestQueries[i] in old(slowestQueries) || slowestQueries[i] == q;
        }
      }
    }

    method ResetTopQueries()
      modifies this`topQueries, this`topQueryThreshold
      ensures topQueries == [] && topQueryThreshold == 0
    {
      topQueries := [];
      topQueryThreshold := 0;
    }

    method ResetSlowestQueries()
      modifies this`slowestQueries, this`slowestQueryThreshold
      ensures slowestQueries == [] && slowestQueryThreshold == 0
    {
      slowestQueries := [];
      slowestQueryThreshold := 0;
    }

    /** Adds one statement's rows and running time to the counters. */
    method CountStatement(rowsRead: U64, rowsWritten: U64, elapsedMs: U64)
      modifies this`rowsRead, this`rowsWritten, this`queryCount, this`queryLatency
      ensures this.rowsRead == WrappingAddU64(old(this.rowsRead), rowsRead)
      ensures this.rowsWritten == WrappingAddU64(old(this.rowsWritten), rowsWritten)
      ensures queryCount == WrappingAddU64(old(queryCount), 1)
      ensures queryLatency == WrappingAddU64(old(queryLatency), elapsedMs)
    {
      IncRowsRead(rowsRead);
      IncRowsWritten(rowsWritten);
      IncQuery(elapsedMs);
    }

    /** Offers a statement to both ranked sets; each takes it only when it
        qualifies. */
    method RankQuery(sql: string, elapsedMs: nat, rowsRead: nat, rowsWritten: nat)
      requires Valid()
      modifies this`topQueries, this`topQueryThreshold, this`slowestQueries, this`slowestQueryThreshold
      ensures Valid()
      ensures topQueries == (if rowsRead + rowsWritten >= old(topQueryThreshold)
                             then Capped(old(topQueries), NewTopQuery(sql, rowsRead, rowsWritten), TopLess, 10)
                             else old(topQueries))
      ensures slowestQueries == (if elapsedMs >= old(slowestQueryThreshold)
                                 then Capped(old(slowestQueries), SlowestQuery(elapsedMs, sql, rowsWritten, rowsRead), SlowLess, 10)
                                 else old(slowestQueries))
      ensures topQueryThreshold ==
        (if rowsRead + rowsWritten >= old(topQueryThreshold) &&
            |Insert(old(topQueries), NewTopQuery(sql, rowsRead, rowsWritten), TopLess)| > 10
         then topQueries[0].weight else old(topQueryThreshold))
      ensures slowestQueryThreshold ==
        (if elapsedMs >= old(slowestQueryThreshold) &&
            |Insert(old(slowestQueries), SlowestQuery(elapsedMs, sql, rowsWritten, rowsRead), SlowLess)| > 10
         then slowestQueries[0].elapsedMs else old(slowestQueryThreshold))
    {
      if QualifiesAsTopQuery(rowsRead + rowsWritten) {
        AddTopQuery(NewTopQuery(sql, rowsRead, rowsWritten));
      }
      if QualifiesAsSlowestQuery(elapsedMs) {
        AddSlowestQuery(SlowestQuery(elapsedMs, sql, rowsWritten, rowsRead));
      }
    }

    /**
     * Records one executed statement: a statement that neither read nor wrote
     * counts as reading one row; the counters grow, the aggregates take the
     * execution, and the ranked sets take the query when it qualifies.
     */
    method Update(sql: string, elapsedMs: U64, rowsRead: U64, rowsWritten: U64)
      requires Valid()
      modifies this, queries
      ensures Valid()
      ensures var read := CountedRowsRead(rowsRead, rowsWritten);
        this.rowsRead == WrappingAddU64(old(this.rowsRead), read) &&
        this.rowsWritten == WrappingAddU64(old(this.rowsWritten), rowsWritten) &&
        queryCount == WrappingAddU64(old(queryCount), 1) &&
        queryLatency == WrappingAddU64(old(queryLatency), elapsedMs)
      ensures var read := CountedRowsRead(rowsRead, rowsWritten);
        Registered(old(queries.stats), old(queries.statsThreshold), sql, NewQueryStats(elapsedMs, read, rowsWritten),
                   queries.stats, queries.statsThreshold)
      ensures var read := CountedRowsRead(rowsRead, rowsWritten);
        topQueries == (if read + rowsWritten >= old(topQueryThreshold)
                       then Capped(old(topQueries), NewTopQuery(sql, read, rowsWritten), TopLess, 10)
                       else old(topQueries)) &&
        slowestQueries == (if elapsedMs >= old(slowestQueryThreshold)
                           then Capped(old(slowestQueries), SlowestQuery(elapsedMs, sql, rowsWritten, read), SlowLess, 10)
                           else old(slowestQueries))
      ensures var read := CountedRowsRead(rowsRead, rowsWritten);
        topQueryThreshold ==
          (if read + rowsWritten >= old(topQueryThreshold) &&
              |Insert(old(topQueries), NewTopQuery(sql, read, rowsWritten), TopLess)| > 10
           then topQueries[0].weight else old(topQueryThreshold)) &&
        slowestQueryThreshold ==
          (if elapsedMs >= old(slowestQueryThreshold) &&
              |Insert(old(slowestQueries), SlowestQuery(elapsedMs, sql, rowsWritten, read), SlowLess)| > 10
           then slowestQueries[0].elapsedMs else old(slowestQueryThreshold))
      ensures storageBytesUsed == old(storageBytesUsed) && currentFrameNo == old(currentFrameNo)
      ensures writeRequestsDelegated == old(writeRequestsDelegated)
      ensures embeddedReplicaFramesReplicated == old(embeddedReplicaFramesReplicated)
    {
      var read := CountedRowsRead(rowsRead, rowsWritten);
      CountStatement(read, rowsWritten, elapsedMs);
      queries.RegisterQuery(sql, NewQueryStats(elapsedMs, read, rowsWritten));
      RankQuery(sql, elapsedMs, read, rowsWritten);
    }
  }

  /** The rows a statement is counted as reading: at least one when it
      touched no row at all. */
  function CountedRowsRead(rowsRead: U64, rowsWritten: U64): (r: U64)
    ensures r + rowsWritten >= 1
    ensures rowsRead > 0 || rowsWritten > 0 ==> r == rowsRead
  {
    if rowsRead == 0 && rowsWritten == 0 then 1 else rowsRead
  }
}
