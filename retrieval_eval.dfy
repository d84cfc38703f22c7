/**
 * Retrieval metrics of ragvix's `eval/retrieval_eval.py`: Recall@k and
 * Precision@k over the set of the top-k retrieved ids, and the per-cut-off
 * averages `evaluate_retrieval` reports. Ratios are exact `real`s.
 */
module RetrievalEval {
  import opened Seqs

  /** An arXiv id, as stored in each hit's `metadata["arxiv_id"]`. */
  type Id = string

  /** Default cut-off of `compute_recall_at_k` and `compute_precision_at_k`. */
  const DefaultK: nat := 5
  /** Default cut-offs of `evaluate_retrieval`. */
  const DefaultKValues: seq<nat> := [1, 3, 5, 10]

  /** `s[:k]` for `k >= 0`: Python clamps the slice to the sequence. */
  function TopK<T>(s: seq<T>, k: nat): (r: seq<T>)
    ensures |r| == if k <= |s| then k else |s|
    ensures r == s[..|r|]
  {
    if k <= |s| then s[..k] else s
  }

  /** `set(s)`. */
  function Elements<T>(s: seq<T>): (e: set<T>)
  {
    set x | x in s
  }

  /** The relevant ids among the distinct top-k ids: `set(retrieved[:k]) & relevant`. */
  function Hits(retrieved: seq<Id>, relevant: set<Id>, k: nat): (h: set<Id>)
  {
    Elements(TopK(retrieved, k)) * relevant
  }

  /** `compute_recall_at_k`: 0 for an empty relevant set, else hits over relevant. */
  function RecallAtK(retrieved: seq<Id>, relevant: set<Id>, k: nat): (r: real)
    ensures 0.0 <= r <= 1.0
    ensures relevant == {} ==> r == 0.0
  {
    if relevant == {} then 0.0
    else
      CardMono(Hits(retrieved, relevant, k), relevant);
      DivBounds(|Hits(retrieved, relevant, k)|, |relevant|);
      |Hits(retrieved, relevant, k)| as real / |relevant| as real
  }

  /**
   * `compute_precision_at_k`: 0 for an empty top-k, else hits over the number
   * of DISTINCT top-k ids (not over `k`).
   */
  function PrecisionAtK(retrieved: seq<Id>, relevant: set<Id>, k: nat): (r: real)
    ensures 0.0 <= r <= 1.0
    ensures TopK(retrieved, k) == [] ==> r == 0.0
  {
    if TopK(retrieved, k) == [] then 0.0
    else
      var top := Elements(TopK(retrieved, k));
      assert TopK(retrieved, k)[0] in top;
      CardMono(Hits(retrieved, relevant, k), top);
      DivBounds(|Hits(retrieved, relevant, k)|, |top|);
      |Hits(retrieved, relevant, k)| as real / |top| as real
  }

  /** A subset is no larger. */
  lemma {:induction false} CardMono<T>(a: set<T>, b: set<T>)
    requires a <= b
    ensures |a| <= |b|
    decreases |b|
  {
    if a != {} {
      var x :| x in a;
      CardMono(a - {x}, b - {x});
    }
  }

  /** A subset of the same size is the whole set. */
  lemma {:induction false} CardEq<T>(a: set<T>, b: set<T>)
    requires a <= b && |a| == |b|
    ensures a == b
    decreases |b|
  {
    if a != {} {
      var x :| x in a;
      CardEq(a - {x}, b - {x});
      assert a == (a - {x}) + {x};
      assert b == (b - {x}) + {x};
    }
  }

  // Exact ratios of natural numbers, as in Python's `len(...) / len(...)`.

  lemma DivFacts(a: nat, b: nat)
    requires 0 < b
    ensures a as real / b as real * b as real == a as real
  {
  }

  lemma DivOneIff(a: nat, b: nat)
    requires 0 < b
    ensures a as real / b as real == 1.0 <==> a == b
  {
    DivFacts(a, b);
  }

  lemma DivZeroIff(a: nat, b: nat)
    requires 0 < b
    ensures a as real / b as real == 0.0 <==> a == 0
  {
    DivFacts(a, b);
  }

  lemma DivMono(a1: nat, a2: nat, b: nat)
    requires a1 <= a2 && 0 < b
    ensures a1 as real / b as real <= a2 as real / b as real
  {
    DivFacts(a1, b);
    DivFacts(a2, b);
  }

  lemma DivBounds(a: nat, b: nat)
    requires a <= b && 0 < b
    ensures 0.0 <= a as real / b as real <= 1.0
  {
    DivFacts(a, b);
  }

  // ---------------------------------------------------------------------------
  // Properties of the two metrics
  // ---------------------------------------------------------------------------

  /** Recall is exactly 1 when every relevant id is among the top k, and only then. */
  lemma RecallOneIff(retrieved: seq<Id>, relevant: set<Id>, k: nat)
    requires relevant != {}
    ensures RecallAtK(retrieved, relevant, k) == 1.0 <==> relevant <= Elements(TopK(retrieved, k))
  {
    var h := Hits(retrieved, relevant, k);
    CardMono(h, relevant);
    DivOneIff(|h|, |relevant|);
    if |h| == |relevant| {
      CardEq(h, relevant);
    }
    if relevant <= Elements(TopK(retrieved, k)) {
      assert h == relevant;
    }
  }

  /** Recall is 0 exactly when the relevant set is empty or nothing relevant is among the top k. */
  lemma RecallZeroIff(retrieved: seq<Id>, relevant: set<Id>, k: nat)
    ensures RecallAtK(retrieved, relevant, k) == 0.0 <==> relevant == {} || Hits(retrieved, relevant, k) == {}
  {
    if relevant != {} {
      DivZeroIff(|Hits(retrieved, relevant, k)|, |relevant|);
    }
  }

  /** Precision is exactly 1 when every top-k id is relevant, and only then. */
  lemma PrecisionOneIff(retrieved: seq<Id>, relevant: set<Id>, k: nat)
    requires TopK(retrieved, k) != []
    ensures PrecisionAtK(retrieved, relevant, k) == 1.0 <==> Elements(TopK(retrieved, k)) <= relevant
  {
    var top := Elements(TopK(retrieved, k));
    var h := Hits(retrieved, relevant, k);
    assert TopK(retrieved, k)[0] in top;
    CardMono(h, top);
    DivOneIff(|h|, |top|);
    if |h| == |top| {
      CardEq(h, top);
    }
    if top <= relevant {
      assert h == top;
    }
  }

  /** Precision is 0 exactly when the top k is empty or holds nothing relevant. */
  lemma PrecisionZeroIff(retrieved: seq<Id>, relevant: set<Id>, k: nat)
    ensures PrecisionAtK(retrieved, relevant, k) == 0.0
        <==> TopK(retrieved, k) == [] || Hits(retrieved, relevant, k) == {}
  {
    if TopK(retrieved, k) != [] {
      assert TopK(retrieved, k)[0] in Elements(TopK(retrieved, k));
      DivZeroIff(|Hits(retrieved, relevant, k)|, |Elements(TopK(retrieved, k))|);
    }
  }

  /**
   * Both metrics see the top k only as a set: two ranked lists whose top-k
   * prefixes have the same elements, in any order and with any repetition,
   * score the same.
   */
  lemma OnlyTopKSetMatters(a: seq<Id>, b: seq<Id>, relevant: set<Id>, k: nat, k': nat)
    requires Elements(TopK(a, k)) == Elements(TopK(b, k'))
    ensures RecallAtK(a, relevant, k) == RecallAtK(b, relevant, k')
    ensures PrecisionAtK(a, relevant, k) == PrecisionAtK(b, relevant, k')
  {
    if TopK(a, k) != [] {
      assert TopK(a, k)[0] in Elements(TopK(b, k'));
    }
    if TopK(b, k') != [] {
      assert TopK(b, k')[0] in Elements(TopK(a, k));
    }
  }

  /** Ids after position k never affect either metric. */
  lemma IdsBeyondKIgnored(retrieved: seq<Id>, tail: seq<Id>, relevant: set<Id>, k: nat)
    requires k <= |retrieved|
    ensures RecallAtK(retrieved + tail, relevant, k) == RecallAtK(retrieved, relevant, k)
    ensures PrecisionAtK(retrieved + tail, relevant, k) == PrecisionAtK(retrieved, relevant, k)
  {
    assert TopK(retrieved + tail, k) == TopK(retrieved, k);
  }

  /** A repeated id in the top k is counted once: `["x", "x"]` has precision 1 for `{"x"}`, not 1/2. */
  lemma RepeatedIdCountedOnce()
    ensures PrecisionAtK(["x", "x"], {"x"}, 2) == 1.0
    ensures RecallAtK(["x", "x"], {"x", "y"}, 2) == 0.5
  {
    assert TopK(["x", "x"], 2) == ["x", "x"];
    assert Elements(["x", "x"]) == {"x"};
    assert {"x"} * {"x"} == {"x"};
    assert {"x"} * {"x", "y"} == {"x"};
    assert "x" != "y" by { assert "x"[0] != "y"[0]; }
    assert |{"x", "y"}| == 2;
  }

  /** For a fixed ranked list, Recall@k never decreases as k grows. */
  lemma RecallMonotone(retrieved: seq<Id>, relevant: set<Id>, k1: nat, k2: nat)
    requires k1 <= k2
    ensures RecallAtK(retrieved, relevant, k1) <= RecallAtK(retrieved, relevant, k2)
  {
    if relevant != {} {
      assert Elements(TopK(retrieved, k1)) <= Elements(TopK(retrieved, k2)) by {
        forall x | x in TopK(retrieved, k1) ensures x in TopK(retrieved, k2) {
          var i :| 0 <= i < |TopK(retrieved, k1)| && TopK(retrieved, k1)[i] == x;
          assert TopK(retrieved, k2)[i] == x;
        }
      }
      CardMono(Hits(retrieved, relevant, k1), Hits(retrieved, relevant, k2));
      DivMono(|Hits(retrieved, relevant, k1)|, |Hits(retrieved, relevant, k2)|, |relevant|);
    }
  }

  /** Precision@k, unlike recall, can fall as k grows. */
  lemma PrecisionNotMonotone()
    ensures PrecisionAtK(["a", "b"], {"a"}, 1) == 1.0
    ensures PrecisionAtK(["a", "b"], {"a"}, 2) == 0.5
  {
    assert TopK(["a", "b"], 1) == ["a"];
    assert Elements(["a"]) == {"a"};
    assert TopK(["a", "b"], 2) == ["a", "b"];
    assert Elements(["a", "b"]) == {"a", "b"};
    assert {"a", "b"} * {"a"} == {"a"};
    assert |{"a", "b"}| == 2;
  }

  // ---------------------------------------------------------------------------
  // evaluate_retrieval
  // ---------------------------------------------------------------------------

  datatype Metric = Recall | Precision

  /** The key `f"recall@{k}"` or `f"precision@{k}"` of the metrics dictionary. */
  datatype MetricKey = MetricKey(metric: Metric, k: nat)

  /** A retrieval result: its query and the arXiv ids of its hits, in rank order. */
  datatype RetrievalResult = RetrievalResult(query: string, retrieved: seq<Id>)

  /** `ground_truth.get(query_id, set())`. */
  function RelevantFor(groundTruth: map<string, set<Id>>, query: string): (rel: set<Id>)
  {
    if query in groundTruth then groundTruth[query] else {}
  }

  function Score(m: Metric, retrieved: seq<Id>, relevant: set<Id>, k: nat): (r: real)
    ensures 0.0 <= r <= 1.0
  {
    match m
    case Recall => RecallAtK(retrieved, relevant, k)
    case Precision => PrecisionAtK(retrieved, relevant, k)
  }

  /** A query absent from the ground truth scores 0 on both metrics. */
  lemma AbsentQueryScoresZero(groundTruth: map<string, set<Id>>, r: RetrievalResult, m: Metric, k: nat)
    requires r.query !in groundTruth
    ensures Score(m, r.retrieved, RelevantFor(groundTruth, r.query), k) == 0.0
  {
    if m == Precision {
      PrecisionZeroIff(r.retrieved, {}, k);
    }
  }

  /** The per-result scores, in result order, for one metric and cut-off. */
  function Scores(results: seq<RetrievalResult>, groundTruth: map<string, set<Id>>, m: Metric, k: nat)
    : (s: seq<real>)
    ensures |s| == |results|
  {
    if results == [] then []
    else
      var r := results[|results| - 1];
      Scores(results[..|results| - 1], groundTruth, m, k)
      + [Score(m, r.retrieved, RelevantFor(groundTruth, r.query), k)]
  }

  /** Python's `sum`, exact. */
  function Sum(xs: seq<real>): (total: real)
  {
    if xs == [] then 0.0 else Sum(xs[..|xs| - 1]) + xs[|xs| - 1]
  }

  /** `sum(values) / len(values) if values else 0.0`. */
  function Mean(xs: seq<real>): (avg: real)
  {
    if xs == [] then 0.0 else Sum(xs) / |xs| as real
  }

  predicate InUnitInterval(xs: seq<real>)
  {
    forall i :: 0 <= i < |xs| ==> 0.0 <= xs[i] <= 1.0
  }

  /** Every per-result score lies in [0, 1]. */
  lemma {:induction false} ScoresInUnitInterval(results: seq<RetrievalResult>,
                                                 groundTruth: map<string, set<Id>>, m: Metric, k: nat)
    ensures InUnitInterval(Scores(results, groundTruth, m, k))
    decreases |results|
  {
    if results != [] {
      ScoresInUnitInterval(results[..|results| - 1], groundTruth, m, k);
    }
  }

  lemma {:induction false} SumBounds(xs: seq<real>)
    requires InUnitInterval(xs)
    ensures 0.0 <= Sum(xs) <= |xs| as real
    decreases |xs|
  {
    if xs != [] {
      SumBounds(xs[..|xs| - 1]);
    }
  }

  /** The mean of values in [0, 1] is in [0, 1]. */
  lemma MeanInUnitInterval(xs: seq<real>)
    requires InUnitInterval(xs)
    ensures 0.0 <= Mean(xs) <= 1.0
  {
    if xs != [] {
      SumBounds(xs);
      var n := |xs| as real;
      assert Sum(xs) / n <= n / n;
    }
  }

  lemma {:induction false} SumAppend(a: seq<real>, b: seq<real>)
    ensures Sum(a + b) == Sum(a) + Sum(b)
    decreases |b|
  {
    if b == [] {
      assert a + b == a;
    } else {
      assert (a + b)[..|a + b| - 1] == a + b[..|b| - 1];
      SumAppend(a, b[..|b| - 1]);
    }
  }

  lemma {:induction false} SumRepeat(x: real, m: nat)
    ensures Sum(Repeat(x, m)) == m as real * x
    decreases m
  {
    if m > 0 {
      SumRepeat(x, m - 1);
      assert Repeat(x, m)[..m - 1] == Repeat(x, m - 1);
    }
  }

  /** Each value repeated `m` times in place: what the lists hold when `k` occurs `m` times in `k_values`. */
  function Stretch(xs: seq<real>, m: nat): (ys: seq<real>)
  {
    FlatMap(xs, x => Repeat(x, m))
  }

  lemma {:induction false} StretchLength(xs: seq<real>, m: nat)
    ensures |Stretch(xs, m)| == m * |xs|
    decreases |xs|
  {
    if xs != [] {
      var init := xs[..|xs| - 1];
      StretchLength(init, m);
      assert Stretch(xs, m) == Stretch(init, m) + Repeat(xs[|xs| - 1], m);
      MulSucc(m, |init|);
    }
  }

  lemma MulSucc(m: nat, n: nat)
    ensures m * (n + 1) == m * n + m
  {
  }

  lemma {:induction false} StretchSum(xs: seq<real>, m: nat)
    ensures Sum(Stretch(xs, m)) == m as real * Sum(xs)
    decreases |xs|
  {
    if xs != [] {
      var init, x := xs[..|xs| - 1], xs[|xs| - 1];
      var front, back := Stretch(init, m), Repeat(x, m);
      assert Stretch(xs, m) == front + back;
      calc {
        Sum(Stretch(xs, m));
        { SumAppend(front, back); }
        Sum(front) + Sum(back);
        { StretchSum(init, m); SumRepeat(x, m); }
        m as real * Sum(init) + m as real * x;
        { RealDistrib(m as real, Sum(init), x); }
        m as real * (Sum(init) + x);
        { assert Sum(xs) == Sum(init) + x; }
        m as real * Sum(xs);
      }
    } else {
      assert Stretch(xs, m) == [];
    }
  }

  lemma RealDistrib(m: real, a: real, b: real)
    ensures m * (a + b) == m * a + m * b
  {
  }

  lemma DivScale(s: real, n: real, m: real)
    requires 0.0 < m && 0.0 < n
    ensures (m * s) / (m * n) == s / n
  {
  }

  /** Repeating every value the same positive number of times leaves the mean unchanged. */
  lemma MeanStretch(xs: seq<real>, m: nat)
    requires m >= 1
    ensures Mean(Stretch(xs, m)) == Mean(xs)
  {
    StretchLength(xs, m);
    StretchSum(xs, m);
    if xs != [] {
      assert (m * |xs|) as real == m as real * |xs| as real;
      DivScale(Sum(xs), |xs| as real, m as real);
    } else {
      assert Stretch(xs, m) == [];
    }
  }

  /** How many times `k` occurs in `ks`. */
  function Occurrences(ks: seq<nat>, k: nat): (n: nat)
  {
    if ks == [] then 0
    else Occurrences(ks[..|ks| - 1], k) + (if ks[|ks| - 1] == k then 1 else 0)
  }

  lemma {:induction false} OccurrencesPositive(ks: seq<nat>, k: nat)
    requires k in ks
    ensures Occurrences(ks, k) >= 1
    decreases |ks|
  {
    if ks[|ks| - 1] != k {
      var i :| 0 <= i < |ks| && ks[i] == k;
      assert ks[..|ks| - 1][i] == k;
      OccurrencesPositive(ks[..|ks| - 1], k);
    }
  }

  /**
   * The lists of the metrics dictionary after `results`: each result's score
   * once for every occurrence of the key's cut-off in `kValues`.
   */
  ghost predicate Accumulated(metrics: map<MetricKey, seq<real>>, results: seq<RetrievalResult>,
                              groundTruth: map<string, set<Id>>, kValues: seq<nat>)
  {
    forall key :: key in metrics ==>
      metrics[key] == Stretch(Scores(results, groundTruth, key.metric, key.k), Occurrences(kValues, key.k))
  }

  /**
   * The lists after the inner loop has appended one result's scores, `score`
   * for each key, for the cut-offs `ks`.
   */
  ghost predicate PartialRow(metrics: map<MetricKey, seq<real>>, before: map<MetricKey, seq<real>>,
                             score: MetricKey -> real, ks: seq<nat>)
  {
    && metrics.Keys == before.Keys
    && forall key :: key in metrics ==> metrics[key] == before[key] + Repeat(score(key), Occurrences(ks, key.k))
  }

  lemma PartialRowStep(metrics: map<MetricKey, seq<real>>, before: map<MetricKey, seq<real>>,
                       score: MetricKey -> real, ks: seq<nat>, k: nat, after: map<MetricKey, seq<real>>)
    requires PartialRow(metrics, before, score, ks)
    requires MetricKey(Recall, k) in metrics && MetricKey(Precision, k) in metrics
    requires after
      == metrics[MetricKey(Recall, k) := metrics[MetricKey(Recall, k)] + [score(MetricKey(Recall, k))]]
                [MetricKey(Precision, k) := metrics[MetricKey(Precision, k)] + [score(MetricKey(Precision, k))]]
    ensures PartialRow(after, before, score, ks + [k])
  {
    assert after.Keys == metrics.Keys;
    forall key | key in after
      ensures after[key] == before[key] + Repeat(score(key), Occurrences(ks + [k], key.k))
    {
      PartialRowKey(metrics, before, score, ks, k, after, key);
    }
  }

  lemma PartialRowKey(metrics: map<MetricKey, seq<real>>, before: map<MetricKey, seq<real>>,
                      score: MetricKey -> real, ks: seq<nat>, k: nat, after: map<MetricKey, seq<real>>,
                      key: MetricKey)
    requires PartialRow(metrics, before, score, ks)
    requires MetricKey(Recall, k) in metrics && MetricKey(Precision, k) in metrics
    requires after
      == metrics[MetricKey(Recall, k) := metrics[MetricKey(Recall, k)] + [score(MetricKey(Recall, k))]]
                [MetricKey(Precision, k) := metrics[MetricKey(Precision, k)] + [score(MetricKey(Precision, k))]]
    requires key in metrics
    ensures after[key] == before[key] + Repeat(score(key), Occurrences(ks + [k], key.k))
  {
    var n := Occurrences(ks, key.k);
    assert (ks + [k])[..|ks|] == ks;
    if key.k == k {
      assert Repeat(score(key), n + 1) == Repeat(score(key), n) + [score(key)];
      if key.metric == Recall {
        assert key == MetricKey(Recall, k);
      } else {
        assert key == MetricKey(Precision, k);
      }
    } else {
      assert after[key] == metrics[key];
    }
  }

  lemma AccumulatedStep(before: map<MetricKey, seq<real>>, metrics: map<MetricKey, seq<real>>,
                        results: seq<RetrievalResult>, groundTruth: map<string, set<Id>>,
                        kValues: seq<nat>, r: RetrievalResult)
    requires Accumulated(before, results, groundTruth, kValues)
    requires PartialRow(metrics, before,
      (key: MetricKey) => Score(key.metric, r.retrieved, RelevantFor(groundTruth, r.query), key.k), kValues)
    ensures Accumulated(metrics, results + [r], groundTruth, kValues)
  {
    forall key | key in metrics
      ensures metrics[key]
           == Stretch(Scores(results + [r], groundTruth, key.metric, key.k), Occurrences(kValues, key.k))
    {
      var m := Occurrences(kValues, key.k);
      var prev := Scores(results, groundTruth, key.metric, key.k);
      var x := Score(key.metric, r.retrieved, RelevantFor(groundTruth, r.query), key.k);
      assert (results + [r])[..|results|] == results;
      assert Scores(results + [r], groundTruth, key.metric, key.k) == prev + [x];
      FlatMapSnoc(prev, x, y => Repeat(y, m));
    }
  }

  /** `k` is a cut-off of `kValues` exactly when both its keys are present. */
  ghost predicate KeysFor(keys: set<MetricKey>, kValues: seq<nat>)
  {
    forall key :: key in keys <==> key.k in kValues
  }

  lemma NothingAccumulated(metrics: map<MetricKey, seq<real>>, results: seq<RetrievalResult>,
                           groundTruth: map<string, set<Id>>, kValues: seq<nat>)
    requires results == []
    requires forall key :: key in metrics ==> metrics[key] == []
    ensures Accumulated(metrics, results, groundTruth, kValues)
  {
    forall key | key in metrics
      ensures metrics[key] == Stretch(Scores(results, groundTruth, key.metric, key.k), Occurrences(kValues, key.k))
    {
      assert Scores(results, groundTruth, key.metric, key.k) == [];
    }
  }

  /** Repeating each score once per occurrence of its cut-off does not move the mean. */
  lemma AccumulatedMeans(metrics: map<MetricKey, seq<real>>, results: seq<RetrievalResult>,
                         groundTruth: map<string, set<Id>>, kValues: seq<nat>)
    requires KeysFor(metrics.Keys, kValues)
    requires Accumulated(metrics, results, groundTruth, kValues)
    ensures forall key :: key in metrics ==>
      Mean(metrics[key]) == Mean(Scores(results, groundTruth, key.metric, key.k))
  {
    forall key | key in metrics
      ensures Mean(metrics[key]) == Mean(Scores(results, groundTruth, key.metric, key.k))
    {
      OccurrencesPositive(kValues, key.k);
      MeanStretch(Scores(results, groundTruth, key.metric, key.k), Occurrences(kValues, key.k));
    }
  }

  /** `{f"recall@{k}": [] for k in k_values}` updated with the precision keys. */
  method EmptyLists(kValues: seq<nat>) returns (metrics: map<MetricKey, seq<real>>)
    ensures KeysFor(metrics.Keys, kValues)
    ensures forall key :: key in metrics ==> metrics[key] == []
  {
    metrics := map k | k in kValues :: MetricKey(Recall, k) := [];
    metrics := metrics + map k | k in kValues :: MetricKey(Precision, k) := [];
    EmptyListsKeys(kValues, metrics);
  }

  lemma EmptyListsKeys(kValues: seq<nat>, metrics: map<MetricKey, seq<real>>)
    requires metrics == (map k | k in kValues :: MetricKey(Recall, k) := [])
                        + (map k | k in kValues :: MetricKey(Precision, k) := [])
    ensures KeysFor(metrics.Keys, kValues)
  {
    forall key ensures key in metrics <==> key.k in kValues {
      if key.k in kValues {
        match key.metric
        case Recall => assert key == MetricKey(Recall, key.k);
        case Precision => assert key == MetricKey(Precision, key.k);
      }
    }
  }

  /** The "Compute averages" step: every list replaced by its mean, keys unchanged. */
  method Averages(metrics: map<MetricKey, seq<real>>) returns (avg: map<MetricKey, real>)
    ensures avg.Keys == metrics.Keys
    ensures forall key :: key in avg ==> avg[key] == Mean(metrics[key])
  {
    avg := map[];
    var remaining := metrics.Keys;
    while remaining != {}
      invariant remaining <= metrics.Keys
      invariant avg.Keys == metrics.Keys - remaining
      invariant forall key :: key in avg ==> avg[key] == Mean(metrics[key])
      decreases remaining
    {
      var key :| key in remaining;
      var values := metrics[key];
      avg := avg[key := if |values| > 0 then Sum(values) / |values| as real else 0.0];
      remaining := remaining - {key};
    }
  }

  /**
   * The inner loop of `evaluate_retrieval` for one result: for each `k` of
   * `kValues` in turn, append its recall and precision to the two lists of `k`.
   */
  method AppendScores(metrics: map<MetricKey, seq<real>>, retrievedIds: seq<Id>, relevantIds: set<Id>,
                      kValues: seq<nat>)
    returns (updated: map<MetricKey, seq<real>>)
    requires KeysFor(metrics.Keys, kValues)
    ensures PartialRow(updated, metrics, (key: MetricKey) => Score(key.metric, retrievedIds, relevantIds, key.k),
                       kValues)
  {
    ghost var score := (key: MetricKey) => Score(key.metric, retrievedIds, relevantIds, key.k);
    updated := metrics;
    for j := 0 to |kValues|
      invariant PartialRow(updated, metrics, score, kValues[..j])
    {
      var k := kValues[j];
      TakeSnoc(kValues, j);
      var recall := RecallAtK(retrievedIds, relevantIds, k);
      var precision := PrecisionAtK(retrievedIds, relevantIds, k);
      ghost var current := updated;
      updated := updated[MetricKey(Recall, k) := updated[MetricKey(Recall, k)] + [recall]];
      updated := updated[MetricKey(Precision, k) := updated[MetricKey(Precision, k)] + [precision]];
      PartialRowStep(current, metrics, score, kValues[..j], k, updated);
    }
    TakeAll(kValues);
  }

  /**
   * `evaluate_retrieval`: for every cut-off `k` in `kValues`, `recall@k` and
   * `precision@k` are the mean, over all results, of that result's score
   * (0 when there are no results); no other keys are present.
   */
  method Evaluate(results: seq<RetrievalResult>, groundTruth: map<string, set<Id>>, kValues: seq<nat>)
    returns (avg: map<MetricKey, real>)
    ensures KeysFor(avg.Keys, kValues)
    ensures forall key :: key in avg ==> avg[key] == Mean(Scores(results, groundTruth, key.metric, key.k))
    ensures forall key :: key in avg ==> 0.0 <= avg[key] <= 1.0
    ensures results == [] ==> forall key :: key in avg ==> avg[key] == 0.0
  {
    var metrics := EmptyLists(kValues);
    NothingAccumulated(metrics, results[..0], groundTruth, kValues);

    for i := 0 to |results|
      invariant KeysFor(metrics.Keys, kValues)
      invariant Accumulated(metrics, results[..i], groundTruth, kValues)
    {
      var queryId := results[i].query;
      var retrievedIds := results[i].retrieved;
      var relevantIds := if queryId in groundTruth then groundTruth[queryId] else {};
      assert relevantIds == RelevantFor(groundTruth, queryId);
      ghost var before := metrics;
      metrics := AppendScores(metrics, retrievedIds, relevantIds, kValues);
      TakeSnoc(results, i);
      AccumulatedStep(before, metrics, results[..i], groundTruth, kValues, results[i]);
    }
    TakeAll(results);

    avg := Averages(metrics);
    AccumulatedMeans(metrics, results, groundTruth, kValues);
    forall key | key in avg
      ensures 0.0 <= avg[key] <= 1.0
    {
      AveragesInUnitInterval(results, groundTruth, key.metric, key.k);
    }
  }

  /** Every average `evaluate_retrieval` reports lies in [0, 1], and is 0 when there are no results. */
  lemma AveragesInUnitInterval(results: seq<RetrievalResult>, groundTruth: map<string, set<Id>>,
                               m: Metric, k: nat)
    ensures 0.0 <= Mean(Scores(results, groundTruth, m, k)) <= 1.0
    ensures results == [] ==> Mean(Scores(results, groundTruth, m, k)) == 0.0
  {
    ScoresInUnitInterval(results, groundTruth, m, k);
    MeanInUnitInterval(Scores(results, groundTruth, m, k));
  }

  // ---------------------------------------------------------------------------
  // The seed evaluation fixture
  // ---------------------------------------------------------------------------

  /** `SEED_EVALUATION_DATA`: three queries, each with two relevant papers. */
  const SeedEvaluationData: map<string, set<Id>> := map[
    "contrastive learning" := {"2106.04102", "2002.05709"},
    "attention mechanisms" := {"1706.03762", "1909.11942"},
    "diffusion models" := {"2006.11239", "2105.05233"}
  ]

  /**
   * On the fixture, a result for "contrastive learning" whose top three hits
   * are two chunks of one relevant paper and one unrelated paper has
   * recall@3 = 1/2 and precision@3 = 1/2 (two distinct ids, one relevant).
   */
  lemma SeedExample()
    ensures var r := RetrievalResult("contrastive learning", ["2106.04102", "2106.04102", "2301.00001"]);
      var rel := RelevantFor(SeedEvaluationData, r.query);
      && RecallAtK(r.retrieved, rel, 3) == 0.5
      && PrecisionAtK(r.retrieved, rel, 3) == 0.5
  {
    var ids: seq<Id> := ["2106.04102", "2106.04102", "2301.00001"];
    var rel := SeedEvaluationData["contrastive learning"];
    assert TopK(ids, 3) == ids;
    assert Elements(ids) == {"2106.04102", "2301.00001"};
    assert Elements(ids) * rel == {"2106.04102"};
    assert |rel| == 2;
    assert |Elements(ids)| == 2;
  }
}
