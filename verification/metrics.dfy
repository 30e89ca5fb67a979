/** The metric cells and the registry of observability/metrics.py. Every
    method runs as one atomic step: the locks of the source are left out.
    Values are exact reals and counts naturals. */
module Metrics {
  import opened Text
  import opened Ordering
  import opened Exposition

  // ---------------------------------------------------------------------
  // Counter and gauge
  // ---------------------------------------------------------------------

  class Counter {
    const name: string
    const help: string
    const labels: Labels
    var value: real

    constructor (name: string, help: string, labels: Labels)
      ensures this.name == name && this.help == help && this.labels == labels
      ensures value == 0.0
    {
      this.name := name;
      this.help := help;
      this.labels := labels;
      value := 0.0;
    }

    /** `inc(value)`: adds the amount, whatever its sign. */
    method Inc(v: real)
      modifies this
      ensures value == old(value) + v
    {
      value := value + v;
    }
  }

  class Gauge {
    const name: string
    const help: string
    const labels: Labels
    var value: real

    constructor (name: string, help: string, labels: Labels)
      ensures this.name == name && this.help == help && this.labels == labels
      ensures value == 0.0
    {
      this.name := name;
      this.help := help;
      this.labels := labels;
      value := 0.0;
    }

    method Set(v: real)
      modifies this
      ensures value == v
    {
      value := v;
    }

    method Inc(v: real)
      modifies this
      ensures value == old(value) + v
    {
      value := value + v;
    }

    method Dec(v: real)
      modifies this
      ensures value == old(value) - v
    {
      value := value - v;
    }
  }

  // ---------------------------------------------------------------------
  // Histogram
  // ---------------------------------------------------------------------

  /** The bucket boundaries a histogram gets when none are given. */
  const DefaultBuckets: seq<Bound> := [
    Finite(0.005), Finite(0.01), Finite(0.025), Finite(0.05), Finite(0.075), Finite(0.1),
    Finite(0.25), Finite(0.5), Finite(0.75), Finite(1.0), Finite(2.5), Finite(5.0),
    Finite(7.5), Finite(10.0), PosInf]

  /** The number of observations at or below boundary `b`. */
  function CountAtMost(obs: seq<real>, b: Bound): (n: nat)
    ensures n <= |obs|
  {
    if obs == [] then 0
    else CountAtMost(obs[..|obs| - 1], b) + (if AtMost(obs[|obs| - 1], b) then 1 else 0)
  }

  function Sum(obs: seq<real>): real
  {
    if obs == [] then 0.0 else Sum(obs[..|obs| - 1]) + obs[|obs| - 1]
  }

  /** A higher boundary counts at least as many observations. */
  lemma {:induction false} CountAtMostMonotone(obs: seq<real>, a: Bound, b: Bound)
    requires BoundLess(a, b)
    ensures CountAtMost(obs, a) <= CountAtMost(obs, b)
  {
    if obs != [] {
      CountAtMostMonotone(obs[..|obs| - 1], a, b);
      if AtMost(obs[|obs| - 1], a) {
        AtMostMonotone(obs[|obs| - 1], a, b);
      }
    }
  }

  /** An element that occurs once in a sequence without repetitions has
      multiplicity one. */
  lemma {:induction false} DistinctOnce<T>(s: seq<T>, x: T)
    requires forall i, j :: 0 <= i < j < |s| ==> s[i] != s[j]
    requires x in s
    ensures multiset(s)[x] == 1
  {
    assert s == [s[0]] + s[1..];
    if s[0] == x {
      assert x !in s[1..] by {
        forall k | 0 <= k < |s[1..]| ensures s[1..][k] != x {
          assert s[1..][k] == s[k + 1];
        }
      }
    } else {
      DistinctOnce(s[1..], x);
    }
  }

  class Histogram {
    const name: string
    const help: string
    const buckets: seq<Bound>
    const labels: Labels
    var sum: real
    var count: nat
    var bucketCounts: map<Bound, nat>
    /** Every value observed so far, in order. */
    ghost var observations: seq<real>

    /** The counts agree with the observations: one count per distinct
        boundary, holding the number of observations at or below it times
        the number of times the boundary is listed (`observe` loops over the
        listed boundaries, so a repeated boundary is incremented once per
        listing). */
    ghost predicate Valid()
      reads this
    {
      && bucketCounts.Keys == (set b | b in buckets)
      && count == |observations|
      && sum == Sum(observations)
      && forall b :: b in bucketCounts ==> bucketCounts[b] == multiset(buckets)[b] * CountAtMost(observations, b)
    }

    /** The dataclass constructor followed by `__post_init__`. */
    constructor (name: string, help: string, buckets: seq<Bound>, labels: Labels)
      ensures this.name == name && this.help == help && this.buckets == buckets && this.labels == labels
      ensures Valid() && observations == []
      ensures sum == 0.0 && count == 0
      ensures bucketCounts == map b | b in buckets :: 0
    {
      this.name := name;
      this.help := help;
      this.buckets := buckets;
      this.labels := labels;
      sum := 0.0;
      count := 0;
      bucketCounts := map b | b in buckets :: 0;
      observations := [];
    }

    /** `observe(value)`: sum and count grow, and every listed boundary at or
        above the value gains one. */
    method Observe(v: real)
      requires Valid()
      modifies this
      ensures Valid()
      ensures observations == old(observations) + [v]
      ensures sum == old(sum) + v && count == old(count) + 1
      ensures bucketCounts.Keys == old(bucketCounts).Keys
      ensures forall b :: b in bucketCounts ==>
        bucketCounts[b] == old(bucketCounts)[b] + (if AtMost(v, b) then multiset(buckets)[b] else 0)
    {
      sum := sum + v;
      count := count + 1;
      var i := 0;
      while i < |buckets|
        invariant 0 <= i <= |buckets|
        invariant sum == old(sum) + v && count == old(count) + 1 && observations == old(observations)
        invariant Bumped(old(bucketCounts), bucketCounts, buckets[..i], v)
      {
        ghost var before := bucketCounts;
        assert buckets[i] in bucketCounts;
        if AtMost(v, buckets[i]) {
          bucketCounts := bucketCounts[buckets[i] := bucketCounts[buckets[i]] + 1];
        }
        BumpStep(old(bucketCounts), before, bucketCounts, buckets, i, v);
        i := i + 1;
      }
      assert buckets[..i] == buckets;
      CountsAfterObserve(buckets, observations, v, old(bucketCounts), bucketCounts);
      observations := observations + [v];
    }
  }

  lemma MulSucc(m: nat, c: nat)
    ensures m * (c + 1) == m * c + m
  {
  }

  /** `now` is `start` with every boundary listed in `listed` at or above
      `v` incremented once per listing. */
  ghost predicate Bumped(start: map<Bound, nat>, now: map<Bound, nat>, listed: seq<Bound>, v: real)
  {
    && now.Keys == start.Keys
    && forall b :: b in now ==> now[b] == start[b] + (if AtMost(v, b) then multiset(listed)[b] else 0)
  }

  lemma BumpStep(start: map<Bound, nat>, before: map<Bound, nat>, after: map<Bound, nat>,
                 buckets: seq<Bound>, i: nat, v: real)
    requires i < |buckets| && buckets[i] in before
    requires Bumped(start, before, buckets[..i], v)
    requires after == if AtMost(v, buckets[i]) then before[buckets[i] := before[buckets[i]] + 1] else before
    ensures Bumped(start, after, buckets[..i + 1], v)
  {
    forall b | b in after
      ensures after[b] == start[b] + (if AtMost(v, b) then multiset(buckets[..i + 1])[b] else 0)
    {
      MultisetSnoc(buckets, i, b);
    }
  }

  lemma MultisetSnoc<T>(s: seq<T>, i: nat, x: T)
    requires i < |s|
    ensures multiset(s[..i + 1])[x] == multiset(s[..i])[x] + (if s[i] == x then 1 else 0)
  {
    assert s[..i + 1] == s[..i] + [s[i]];
  }

  /** One more observation `v` adds the multiplicity of each boundary at or
      above `v` to its count. */
  lemma CountsAfterObserve(buckets: seq<Bound>, obs: seq<real>, v: real, before: map<Bound, nat>, after: map<Bound, nat>)
    requires forall b :: b in before ==> before[b] == multiset(buckets)[b] * CountAtMost(obs, b)
    requires after.Keys == before.Keys
    requires forall b :: b in after ==> after[b] == before[b] + (if AtMost(v, b) then multiset(buckets)[b] else 0)
    ensures forall b :: b in after ==> after[b] == multiset(buckets)[b] * CountAtMost(obs + [v], b)
  {
    assert (obs + [v])[..|obs|] == obs;
    forall b | b in after
      ensures after[b] == multiset(buckets)[b] * CountAtMost(obs + [v], b)
    {
      var m := multiset(buckets)[b];
      var c := CountAtMost(obs, b);
      if AtMost(v, b) {
        assert CountAtMost(obs + [v], b) == c + 1;
        MulSucc(m, c);
      } else {
        assert CountAtMost(obs + [v], b) == c;
      }
    }
  }

  /** With strictly ascending boundaries the bucket counts are cumulative:
      they never decrease along the boundaries and never exceed the total
      count. */
  lemma CumulativeBuckets(h: Histogram, i: int, j: int)
    requires h.Valid() && StrictlyAscending(h.buckets, BoundLess)
    requires 0 <= i <= j < |h.buckets|
    ensures h.buckets[i] in h.bucketCounts && h.buckets[j] in h.bucketCounts
    ensures h.bucketCounts[h.buckets[i]] <= h.bucketCounts[h.buckets[j]] <= h.count
  {
    BoundLessIsOrder();
    forall p, q | 0 <= p < q < |h.buckets| ensures h.buckets[p] != h.buckets[q] {
      assert BoundLess(h.buckets[p], h.buckets[q]);
    }
    DistinctOnce(h.buckets, h.buckets[i]);
    DistinctOnce(h.buckets, h.buckets[j]);
    if i < j {
      CountAtMostMonotone(h.observations, h.buckets[i], h.buckets[j]);
    }
  }

  /** Boundaries 1, 5 and 10 after observing 0.5, 3, 7 and 20: the buckets
      hold 1, 2 and 3 observations, the count is 4 and the sum 30.5. */
  lemma ExampleHistogram()
    ensures var obs := [0.5, 3.0, 7.0, 20.0];
            && CountAtMost(obs, Finite(1.0)) == 1
            && CountAtMost(obs, Finite(5.0)) == 2
            && CountAtMost(obs, Finite(10.0)) == 3
            && CountAtMost(obs, PosInf) == 4
            && Sum(obs) == 30.5
  {
    var o1, o2, o3, o4 := [0.5], [0.5, 3.0], [0.5, 3.0, 7.0], [0.5, 3.0, 7.0, 20.0];
    assert o1[..0] == [] && o2[..1] == o1 && o3[..2] == o2 && o4[..3] == o3;
    assert CountAtMost(o1, Finite(1.0)) == 1 && CountAtMost(o2, Finite(1.0)) == 1;
    assert CountAtMost(o3, Finite(1.0)) == 1 && CountAtMost(o4, Finite(1.0)) == 1;
    assert CountAtMost(o1, Finite(5.0)) == 1 && CountAtMost(o2, Finite(5.0)) == 2;
    assert CountAtMost(o3, Finite(5.0)) == 2 && CountAtMost(o4, Finite(5.0)) == 2;
    assert CountAtMost(o1, Finite(10.0)) == 1 && CountAtMost(o2, Finite(10.0)) == 2;
    assert CountAtMost(o3, Finite(10.0)) == 3 && CountAtMost(o4, Finite(10.0)) == 3;
    assert CountAtMost(o1, PosInf) == 1 && CountAtMost(o2, PosInf) == 2;
    assert CountAtMost(o3, PosInf) == 3 && CountAtMost(o4, PosInf) == 4;
    assert Sum(o1) == 0.5 && Sum(o2) == 3.5 && Sum(o3) == 10.5 && Sum(o4) == 30.5;
  }

  // ---------------------------------------------------------------------
  // Registry
  // ---------------------------------------------------------------------

  /** `_make_key`: the bare name without labels, otherwise the name and the
      `k="v"` items sorted by (key, value), in braces. */
  function MakeKey(name: string, labels: Labels): (k: string)
    ensures |k| >= |name| && k[..|name|] == name
    ensures k == name <==> labels == []
    ensures labels != [] ==> k[|name|] == '{' && k[|k| - 1] == '}'
  {
    if labels == [] then name
    else
      PairLessIsOrder();
      name + "{" + Join(LabelItems(Sort(labels, PairLess)), ",") + "}"
  }

  /** The key lists the labels in their sorted order, whatever order they
      were given in. */
  lemma MakeKeySorted(name: string, labels: Labels, sorted: Labels)
    requires multiset(sorted) == multiset(labels) && Ascending(sorted, PairLess)
    ensures MakeKey(name, labels)
         == if labels == [] then name else name + "{" + Join(LabelItems(sorted), ",") + "}"
  {
    PairLessIsOrder();
    if labels != [] {
      AscendingUnique(Sort(labels, PairLess), sorted, PairLess);
    }
  }

  /** Two label dictionaries with the same items give the same key. */
  lemma MakeKeyOrderIndependent(name: string, l1: Labels, l2: Labels)
    requires multiset(l1) == multiset(l2)
    ensures MakeKey(name, l1) == MakeKey(name, l2)
  {
    PairLessIsOrder();
    var s := Sort(l1, PairLess);
    MakeKeySorted(name, l1, s);
    MakeKeySorted(name, l2, s);
    assert l1 == [] <==> l2 == [] by {
      assert |multiset(l1)| == |l1| && |multiset(l2)| == |l2|;
    }
  }

  /** A registered metric: the source keeps counters, gauges and histograms
      in one dictionary. */
  datatype Metric =
    | CounterMetric(counter: Counter)
    | GaugeMetric(gauge: Gauge)
    | HistogramMetric(histogram: Histogram)

  function ObjectOf(m: Metric): object
  {
    match m
    case CounterMetric(c) => c
    case GaugeMetric(g) => g
    case HistogramMetric(h) => h
  }

  /** What `format_prometheus` reads from a metric. */
  function ViewOf(m: Metric): MetricView
    reads ObjectOf(m)
  {
    match m
    case CounterMetric(c) => MetricView(c.name, c.help, c.labels, CounterKind(c.value))
    case GaugeMetric(g) => MetricView(g.name, g.help, g.labels, GaugeKind(g.value))
    case HistogramMetric(h) => MetricView(h.name, h.help, h.labels, HistogramKind(h.bucketCounts, h.sum, h.count))
  }

  /** The `_bucket` lines of one histogram, boundaries in ascending order. */
  method BucketText(name: string, labelsText: string, counts: map<Bound, nat>, fmt: real -> string)
    returns (out: seq<string>)
    ensures out == RenderAll(BucketLines(name, labelsText, SortedBounds(counts), counts, fmt))
  {
    BoundLessIsOrder();
    var bounds := SortSet(counts.Keys, BoundLess);
    assert bounds == SortedBounds(counts);
    out := [];
    var j := 0;
    while j < |bounds|
      invariant 0 <= j <= |bounds|
      invariant out == RenderAll(BucketLines(name, labelsText, bounds[..j], counts, fmt))
    {
      var line := BucketLine(name, labelsText, bounds[j], counts[bounds[j]], fmt);
      out := out + [line];
      BucketLinesSnoc(name, labelsText, bounds, j, counts, fmt);
      j := j + 1;
    }
    assert bounds[..j] == bounds;
  }

  /** The `_bucket` line of one boundary. */
  method BucketLine(name: string, labelsText: string, b: Bound, count: nat, fmt: real -> string)
    returns (line: string)
    ensures line == name + "_bucket" + BucketLabels(labelsText, b, fmt) + " " + NatText(count)
  {
    var bucketLabels := if labelsText != "" then StripTrailing(labelsText, '}') else "{";
    if bucketLabels != "{" {
      bucketLabels := bucketLabels + ",";
    }
    bucketLabels := bucketLabels + "le=\"" + (if b.PosInf? then "+Inf" else fmt(b.r)) + "\"}";
    line := name + "_bucket" + bucketLabels + " " + NatText(count);
  }

  lemma BucketLinesSnoc(name: string, labelsText: string, bounds: seq<Bound>, j: nat,
                        counts: map<Bound, nat>, fmt: real -> string)
    requires j < |bounds| && forall i :: 0 <= i < |bounds| ==> bounds[i] in counts
    ensures RenderAll(BucketLines(name, labelsText, bounds[..j + 1], counts, fmt))
         == RenderAll(BucketLines(name, labelsText, bounds[..j], counts, fmt))
            + [name + "_bucket" + BucketLabels(labelsText, bounds[j], fmt) + " " + NatText(counts[bounds[j]])]
  {
    assert bounds[..j + 1][..j] == bounds[..j];
  }

  /** The name, help, labels and current value(s) of one metric. */
  method ReadView(m: Metric) returns (e: MetricView)
    ensures e == ViewOf(m)
  {
    match m {
      case CounterMetric(c) => e := MetricView(c.name, c.help, c.labels, CounterKind(c.value));
      case GaugeMetric(g) => e := MetricView(g.name, g.help, g.labels, GaugeKind(g.value));
      case HistogramMetric(h) =>
        e := MetricView(h.name, h.help, h.labels, HistogramKind(h.bucketCounts, h.sum, h.count));
    }
  }

  /** The views of the metrics under `keys`, in that order. */
  method ReadEach(metrics: map<string, Metric>, keys: seq<string>) returns (es: seq<MetricView>)
    requires forall t :: 0 <= t < |keys| ==> keys[t] in metrics
    ensures |es| == |keys| && forall t :: 0 <= t < |keys| ==> es[t] == ViewOf(metrics[keys[t]])
  {
    es := [];
    var j := 0;
    while j < |keys|
      invariant 0 <= j <= |keys|
      invariant |es| == j && forall t :: 0 <= t < j ==> es[t] == ViewOf(metrics[keys[t]])
    {
      var e := ReadView(metrics[keys[j]]);
      es := es + [e];
      j := j + 1;
    }
  }

  class MetricsRegistry {
    var metrics: map<string, Metric>
    /** The metric objects the registry holds. */
    ghost var objects: set<object>

    ghost predicate Valid()
      reads this
    {
      forall k :: k in metrics ==> ObjectOf(metrics[k]) in objects
    }

    constructor ()
      ensures metrics == map[] && Valid()
    {
      metrics := map[];
      objects := {};
    }

    /** The registry as `format_prometheus` sees it. */
    function View(): (v: map<string, MetricView>)
      requires Valid()
      reads this, objects
      ensures v.Keys == metrics.Keys
      ensures forall k :: k in metrics ==> v[k] == ViewOf(metrics[k])
    {
      map k | k in metrics :: ViewOf(metrics[k])
    }

    /** `counter(name, help, labels)`: the metric already under the key,
        whatever its kind, or a fresh zero counter stored under it. */
    method GetOrCreateCounter(name: string, help: string, labels: Labels) returns (m: Metric)
      requires Valid()
      modifies this
      ensures Valid()
      ensures MakeKey(name, labels) in old(metrics) ==>
        metrics == old(metrics) && m == old(metrics)[MakeKey(name, labels)]
      ensures MakeKey(name, labels) !in old(metrics) ==>
        && m.CounterMetric? && fresh(m.counter)
        && m.counter.name == name && m.counter.help == help && m.counter.labels == labels
        && m.counter.value == 0.0
        && metrics == old(metrics)[MakeKey(name, labels) := m]
    {
      var key := MakeKey(name, labels);
      if key !in metrics {
        var c := new Counter(name, help, labels);
        metrics := metrics[key := CounterMetric(c)];
        objects := objects + {c};
      }
      m := metrics[key];
    }

    /** `gauge(name, help, labels)`. */
    method GetOrCreateGauge(name: string, help: string, labels: Labels) returns (m: Metric)
      requires Valid()
      modifies this
      ensures Valid()
      ensures MakeKey(name, labels) in old(metrics) ==>
        metrics == old(metrics) && m == old(metrics)[MakeKey(name, labels)]
      ensures MakeKey(name, labels) !in old(metrics) ==>
        && m.GaugeMetric? && fresh(m.gauge)
        && m.gauge.name == name && m.gauge.help == help && m.gauge.labels == labels
        && m.gauge.value == 0.0
        && metrics == old(metrics)[MakeKey(name, labels) := m]
    {
      var key := MakeKey(name, labels);
      if key !in metrics {
        var g := new Gauge(name, help, labels);
        metrics := metrics[key := GaugeMetric(g)];
        objects := objects + {g};
      }
      m := metrics[key];
    }

    /** `histogram(name, help, labels, buckets)`; no boundaries (None or an
        empty tuple) means the default ones. */
    method GetOrCreateHistogram(name: string, help: string, labels: Labels, buckets: seq<Bound>)
      returns (m: Metric)
      requires Valid()
      modifies this
      ensures Valid()
      ensures MakeKey(name, labels) in old(metrics) ==>
        metrics == old(metrics) && m == old(metrics)[MakeKey(name, labels)]
      ensures MakeKey(name, labels) !in old(metrics) ==>
        && m.HistogramMetric? && fresh(m.histogram)
        && m.histogram.name == name && m.histogram.help == help && m.histogram.labels == labels
        && m.histogram.buckets == (if buckets == [] then DefaultBuckets else buckets)
        && m.histogram.Valid() && m.histogram.observations == []
        && metrics == old(metrics)[MakeKey(name, labels) := m]
    {
      var key := MakeKey(name, labels);
      if key !in metrics {
        var h := new Histogram(name, help, if buckets == [] then DefaultBuckets else buckets, labels);
        metrics := metrics[key := HistogramMetric(h)];
        objects := objects + {h};
      }
      m := metrics[key];
    }

    /** `sorted(self._metrics.keys())`. */
    method SortedMetricKeys() returns (keys: seq<string>)
      requires Valid()
      ensures keys == SortedKeys(View())
    {
      StrLessIsOrder();
      keys := SortSet(metrics.Keys, StrLess);
    }

    /** What `format_prometheus` reads from each metric, in key order. */
    method ReadViews() returns (es: seq<MetricView>)
      requires Valid()
      ensures es == Entries(View())
    {
      var keys := SortedMetricKeys();
      es := ReadEach(metrics, keys);
      ghost var all := Entries(View());
      assert |es| == |all|;
      forall i | 0 <= i < |es| ensures es[i] == all[i] {
        assert keys[i] in metrics;
      }
    }

    /** `format_prometheus()`: the metrics in ascending key order; a HELP and
        a TYPE line the first time a name is met; then the samples. */
    method FormatPrometheus(fmt: real -> string) returns (text: string)
      requires Valid()
      ensures text == Output(View(), fmt)
    {
      var es := ReadViews();
      var lines := RenderEntries(es, fmt);
      text := Join(lines, "\n") + "\n";
    }
  }

  /** The rendered lines of the metrics `es`, visited in order, each name's
      header written once. */
  method RenderEntries(es: seq<MetricView>, fmt: real -> string) returns (lines: seq<string>)
    ensures lines == RenderAll(Lines(es, fmt))
  {
    lines := [];
    var seenHelp: set<string> := {};
    var i := 0;
    while i < |es|
      invariant 0 <= i <= |es|
      invariant lines == RenderAll(Lines(es[..i], fmt))
      invariant seenHelp == Names(es[..i])
    {
      var more := EntryText(es[i], seenHelp, fmt);
      RenderLinesSnoc(es, i, fmt);
      lines := lines + more;
      seenHelp := seenHelp + {es[i].name};
      i := i + 1;
    }
    assert es[..i] == es;
  }

  lemma RenderLinesSnoc(es: seq<MetricView>, i: nat, fmt: real -> string)
    requires i < |es|
    ensures RenderAll(Lines(es[..i + 1], fmt))
         == RenderAll(Lines(es[..i], fmt)) + RenderAll(EntryLines(es[i], Names(es[..i]), fmt))
    ensures Names(es[..i + 1]) == Names(es[..i]) + {es[i].name}
  {
    assert es[..i + 1][..i] == es[..i];
    RenderAllAppend(Lines(es[..i], fmt), EntryLines(es[i], Names(es[..i]), fmt));
  }

  /** The rendered lines of one metric, given the names whose header is
      already out. */
  method EntryText(e: MetricView, seenHelp: set<string>, fmt: real -> string) returns (more: seq<string>)
    ensures more == RenderAll(EntryLines(e, seenHelp, fmt))
  {
    ghost var head := if e.name in seenHelp then [] else Header(e);
    var headText := [];
    if e.name !in seenHelp {
      headText := ["# HELP " + e.name + " " + e.help, "# TYPE " + e.name + " " + KindName(e.kind)];
    }
    assert headText == RenderAll(head);
    var samples := SampleText(e, fmt);
    RenderAllAppend(head, SampleLines(e, fmt));
    more := headText + samples;
  }

  /** The sample lines of one metric. */
  method SampleText(e: MetricView, fmt: real -> string) returns (more: seq<string>)
    ensures more == RenderAll(SampleLines(e, fmt))
  {
    var labelsText := LabelsText(e.labels);
    match e.kind {
      case CounterKind(v) =>
        more := [Render(Sample(e.name, "", labelsText, fmt(v)))];
      case GaugeKind(v) =>
        more := [Render(Sample(e.name, "", labelsText, fmt(v)))];
      case HistogramKind(counts, sum, count) =>
        var bucketLines := BucketText(e.name, labelsText, counts, fmt);
        more := bucketLines + [Render(Sample(e.name, "_sum", labelsText, fmt(sum))),
                               Render(Sample(e.name, "_count", labelsText, NatText(count)))];
        HistogramSampleLines(e, fmt);
    }
  }


}
