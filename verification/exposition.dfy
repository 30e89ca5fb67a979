/** The text that `MetricsRegistry.format_prometheus` produces
    (observability/metrics.py), defined on a value snapshot of the registry:
    the Prometheus text exposition format, version 0.0.4, as this program
    writes it. The conversion of a float to text (Python's `str(float)`) is
    the parameter `fmt`. */
module Exposition {
  import opened Text
  import opened Ordering

  /** A label dictionary, in insertion order. */
  type Labels = seq<(string, string)>

  /** A histogram bucket boundary; `float('inf')` is PosInf. */
  datatype Bound = Finite(r: real) | PosInf

  /** `value <= bucket`. */
  predicate AtMost(v: real, b: Bound)
  {
    b.PosInf? || v <= b.r
  }

  /** `<` on bucket boundaries. */
  predicate BoundLess(a: Bound, b: Bound)
  {
    match (a, b)
    case (Finite(x), Finite(y)) => x < y
    case (Finite(_), PosInf) => true
    case (PosInf, _) => false
  }

  lemma BoundLessIsOrder()
    ensures IsStrictTotalOrder(BoundLess)
  {
  }

  /** A boundary below another admits no more observations. */
  lemma AtMostMonotone(v: real, a: Bound, b: Bound)
    requires BoundLess(a, b) && AtMost(v, a)
    ensures AtMost(v, b)
  {
  }

  /** `<` on `(key, value)` tuples of strings. */
  predicate PairLess(a: (string, string), b: (string, string))
  {
    StrLess(a.0, b.0) || (a.0 == b.0 && StrLess(a.1, b.1))
  }

  lemma PairLessIsOrder()
    ensures IsStrictTotalOrder(PairLess)
  {
    forall a: (string, string) ensures !PairLess(a, a) {
      StrLessIrreflexive(a.0);
      StrLessIrreflexive(a.1);
    }
    forall a: (string, string), b: (string, string), c: (string, string) | PairLess(a, b) && PairLess(b, c)
      ensures PairLess(a, c)
    {
      if StrLess(a.0, b.0) && StrLess(b.0, c.0) {
        StrLessTransitive(a.0, b.0, c.0);
      } else if a.0 == b.0 && b.0 == c.0 {
        StrLessTransitive(a.1, b.1, c.1);
      }
    }
    forall a: (string, string), b: (string, string) ensures a == b || PairLess(a, b) || PairLess(b, a) {
      StrLessTotal(a.0, b.0);
      StrLessTotal(a.1, b.1);
    }
  }

  /** The `k="v"` items of a label dictionary, in its order. */
  function LabelItems(labels: Labels): (items: seq<string>)
    ensures |items| == |labels|
    ensures forall i :: 0 <= i < |labels| ==> items[i] == labels[i].0 + "=\"" + labels[i].1 + "\""
  {
    if labels == [] then []
    else [labels[0].0 + "=\"" + labels[0].1 + "\""] + LabelItems(labels[1..])
  }

  /** `labels_str`: empty for no labels, otherwise `{k="v",...}` in the
      dictionary's own order. */
  function LabelsText(labels: Labels): (t: string)
    ensures t == [] <==> labels == []
    ensures t != [] ==> t[0] == '{' && t[|t| - 1] == '}'
  {
    if labels == [] then "" else "{" + Join(LabelItems(labels), ",") + "}"
  }

  /** `s.rstrip(c)` for one character. */
  function StripTrailing(s: string, c: char): (r: string)
    ensures |r| <= |s| && r == s[..|r|]
    ensures forall i :: |r| <= i < |s| ==> s[i] == c
    ensures r == [] || r[|r| - 1] != c
  {
    if s != [] && s[|s| - 1] == c then StripTrailing(s[..|s| - 1], c) else s
  }

  /** The `le` label value: "+Inf" for infinity, otherwise the float text. */
  function BoundText(b: Bound, fmt: real -> string): string
  {
    if b.PosInf? then "+Inf" else fmt(b.r)
  }

  /** `bucket_labels`: the metric's labels with the closing brace taken off,
      a comma when any label remains, then `le="..."}`. */
  function BucketLabels(labelsText: string, b: Bound, fmt: real -> string): (t: string)
    ensures labelsText == [] ==> t == "{le=\"" + BoundText(b, fmt) + "\"}"
  {
    var open := if labelsText != "" then StripTrailing(labelsText, '}') else "{";
    (if open != "{" then open + "," else open) + "le=\"" + BoundText(b, fmt) + "\"}"
  }

  /** With labels, the `le` label is appended after them inside one pair of
      braces. */
  lemma BucketLabelsWithLabels(labels: Labels, b: Bound, fmt: real -> string)
    requires labels != []
    ensures BucketLabels(LabelsText(labels), b, fmt)
         == "{" + Join(LabelItems(labels), ",") + "," + "le=\"" + BoundText(b, fmt) + "\"}"
  {
    var inner := "{" + Join(LabelItems(labels), ",");
    LabelsTextOpen(labels);
    assert inner != "{" by { assert |inner| > 1; }
  }

  /** Taking the closing brace off the label text leaves the opening brace
      and the items, the last of which ends in a quote. */
  lemma LabelsTextOpen(labels: Labels)
    requires labels != []
    ensures StripTrailing(LabelsText(labels), '}') == "{" + Join(LabelItems(labels), ",")
    ensures |"{" + Join(LabelItems(labels), ",")| > 1
  {
    var inner := "{" + Join(LabelItems(labels), ",");
    var t := inner + "}";
    assert LabelsText(labels) == t;
    assert t[..|t| - 1] == inner;
    var items := LabelItems(labels);
    JoinEndsWith(items, ",", '"');
    assert inner[|inner| - 1] == '"';
  }

  /** A join of non-empty parts whose last part ends in `c` ends in `c`. */
  lemma {:induction false} JoinEndsWith(parts: seq<string>, sep: string, c: char)
    requires |parts| >= 1
    requires forall i :: 0 <= i < |parts| ==> parts[i] != [] && parts[i][|parts[i]| - 1] == c
    ensures Join(parts, sep) != [] && Join(parts, sep)[|Join(parts, sep)| - 1] == c
  {
    if |parts| > 1 {
      JoinEndsWith(parts[1..], sep, c);
    }
  }

  /** What a metric holds when the text is produced. */
  datatype Kind =
    | CounterKind(value: real)
    | GaugeKind(value: real)
    | HistogramKind(bucketCounts: map<Bound, nat>, sum: real, count: nat)

  datatype MetricView = MetricView(name: string, help: string, labels: Labels, kind: Kind)

  function KindName(k: Kind): string
  {
    match k
    case CounterKind(_) => "counter"
    case GaugeKind(_) => "gauge"
    case HistogramKind(_, _, _) => "histogram"
  }

  /** One line of output, before rendering. */
  datatype Line =
    | Help(name: string, help: string)
    | TypeLine(name: string, kind: string)
    | Sample(name: string, suffix: string, labels: string, value: string)

  function Render(l: Line): string
  {
    match l
    case Help(n, h) => "# HELP " + n + " " + h
    case TypeLine(n, k) => "# TYPE " + n + " " + k
    case Sample(n, suffix, labels, value) => n + suffix + labels + " " + value
  }

  function RenderAll(ls: seq<Line>): (r: seq<string>)
    ensures |r| == |ls|
    ensures forall i :: 0 <= i < |ls| ==> r[i] == Render(ls[i])
  {
    if ls == [] then [] else RenderAll(ls[..|ls| - 1]) + [Render(ls[|ls| - 1])]
  }

  lemma {:induction false} RenderAllAppend(a: seq<Line>, b: seq<Line>)
    ensures RenderAll(a + b) == RenderAll(a) + RenderAll(b)
  {
    if b == [] {
      assert a + b == a;
    } else {
      var init := b[..|b| - 1];
      assert (a + b)[..|a + b| - 1] == a + init;
      RenderAllAppend(a, init);
    }
  }

  /** The `_bucket` lines of a histogram for the boundaries `bounds`. */
  function BucketLines(name: string, labelsText: string, bounds: seq<Bound>, counts: map<Bound, nat>,
                       fmt: real -> string): (ls: seq<Line>)
    requires forall i :: 0 <= i < |bounds| ==> bounds[i] in counts
    ensures |ls| == |bounds|
    ensures forall i :: 0 <= i < |bounds| ==>
      ls[i] == Sample(name, "_bucket", BucketLabels(labelsText, bounds[i], fmt), NatText(counts[bounds[i]]))
  {
    if bounds == [] then []
    else BucketLines(name, labelsText, bounds[..|bounds| - 1], counts, fmt)
         + [Sample(name, "_bucket", BucketLabels(labelsText, bounds[|bounds| - 1], fmt),
                   NatText(counts[bounds[|bounds| - 1]]))]
  }

  /** The boundaries of a histogram in ascending order. */
  ghost function SortedBounds(counts: map<Bound, nat>): (bs: seq<Bound>)
    ensures forall i :: 0 <= i < |bs| ==> bs[i] in counts
  {
    BoundLessIsOrder();
    SortedElementsSpec(counts.Keys, BoundLess);
    SortedElements(counts.Keys, BoundLess)
  }

  /** Every boundary of a histogram gets a `_bucket` line, once, in strictly
      ascending order. */
  lemma SortedBoundsSpec(counts: map<Bound, nat>)
    ensures forall b :: b in counts <==> b in SortedBounds(counts)
    ensures StrictlyAscending(SortedBounds(counts), BoundLess)
  {
    BoundLessIsOrder();
    SortedElementsSpec(counts.Keys, BoundLess);
  }

  /** The sample lines of one metric: one line for a counter or a gauge;
      for a histogram, a `_bucket` line per boundary in ascending order,
      then `_sum` and `_count`. */
  ghost function SampleLines(e: MetricView, fmt: real -> string): seq<Line>
  {
    var lt := LabelsText(e.labels);
    match e.kind
    case CounterKind(v) => [Sample(e.name, "", lt, fmt(v))]
    case GaugeKind(v) => [Sample(e.name, "", lt, fmt(v))]
    case HistogramKind(counts, sum, count) =>
      BucketLines(e.name, lt, SortedBounds(counts), counts, fmt)
      + [Sample(e.name, "_sum", lt, fmt(sum)), Sample(e.name, "_count", lt, NatText(count))]
  }

  /** A histogram renders its bucket lines, then its sum, then its count. */
  lemma HistogramSampleLines(e: MetricView, fmt: real -> string)
    requires e.kind.HistogramKind?
    ensures var lt := LabelsText(e.labels);
      RenderAll(SampleLines(e, fmt))
      == RenderAll(BucketLines(e.name, lt, SortedBounds(e.kind.bucketCounts), e.kind.bucketCounts, fmt))
         + [Render(Sample(e.name, "_sum", lt, fmt(e.kind.sum))),
            Render(Sample(e.name, "_count", lt, NatText(e.kind.count)))]
  {
    var lt := LabelsText(e.labels);
    var bl := BucketLines(e.name, lt, SortedBounds(e.kind.bucketCounts), e.kind.bucketCounts, fmt);
    var tail := [Sample(e.name, "_sum", lt, fmt(e.kind.sum)), Sample(e.name, "_count", lt, NatText(e.kind.count))];
    assert SampleLines(e, fmt) == bl + tail;
    assert RenderAll(tail) == [Render(tail[0]), Render(tail[1])];
    RenderAllAppend(bl, tail);
  }

  /** The header of a metric whose name has not been seen yet. */
  function Header(e: MetricView): seq<Line>
  {
    [Help(e.name, e.help), TypeLine(e.name, KindName(e.kind))]
  }

  ghost function EntryLines(e: MetricView, seen: set<string>, fmt: real -> string): seq<Line>
  {
    (if e.name in seen then [] else Header(e)) + SampleLines(e, fmt)
  }

  /** The names of the metrics `es`. */
  function Names(es: seq<MetricView>): set<string>
  {
    if es == [] then {} else Names(es[..|es| - 1]) + {es[|es| - 1].name}
  }

  /** The lines for the metrics `es`, visited in order. */
  ghost function Lines(es: seq<MetricView>, fmt: real -> string): seq<Line>
  {
    if es == [] then []
    else Lines(es[..|es| - 1], fmt) + EntryLines(es[|es| - 1], Names(es[..|es| - 1]), fmt)
  }

  /** The keys of a registry snapshot, as `sorted` orders them: each key
      once, in strictly ascending order. */
  ghost function SortedKeys(view: map<string, MetricView>): (keys: seq<string>)
    ensures StrictlyAscending(keys, StrLess)
    ensures |keys| == |view.Keys|
    ensures forall k :: k in view <==> k in keys
  {
    StrLessIsOrder();
    SortedElementsSpec(view.Keys, StrLess);
    SortedElements(view.Keys, StrLess)
  }

  /** The metrics of a registry snapshot in ascending key order. */
  ghost function Entries(view: map<string, MetricView>): (es: seq<MetricView>)
    ensures |es| == |SortedKeys(view)|
    ensures forall i :: 0 <= i < |es| ==> es[i] == view[SortedKeys(view)[i]]
  {
    var keys := SortedKeys(view);
    seq(|keys|, i requires 0 <= i < |keys| => view[keys[i]])
  }

  /** The whole text: the rendered lines joined by newlines, plus one final
      newline. */
  ghost function Output(view: map<string, MetricView>, fmt: real -> string): (text: string)
    ensures text != [] && text[|text| - 1] == '\n'
    ensures view == map[] ==> text == "\n"
  {
    Join(RenderAll(Lines(Entries(view), fmt)), "\n") + "\n"
  }

  // ---------------------------------------------------------------------
  // Properties of the text
  // ---------------------------------------------------------------------

  function CountHelp(ls: seq<Line>, n: string): nat
  {
    if ls == [] then 0 else (if ls[0].Help? && ls[0].name == n then 1 else 0) + CountHelp(ls[1..], n)
  }

  lemma {:induction false} CountHelpAppend(a: seq<Line>, b: seq<Line>, n: string)
    ensures CountHelp(a + b, n) == CountHelp(a, n) + CountHelp(b, n)
  {
    if a == [] {
      assert a + b == b;
    } else {
      assert (a + b)[0] == a[0];
      assert (a + b)[1..] == a[1..] + b;
      CountHelpAppend(a[1..], b, n);
    }
  }

  /** No line of `ls` is a `# HELP` line. */
  predicate HelpFree(ls: seq<Line>)
  {
    forall i :: 0 <= i < |ls| ==> !ls[i].Help?
  }

  lemma {:induction false} HelpFreeCount(ls: seq<Line>, n: string)
    requires HelpFree(ls)
    ensures CountHelp(ls, n) == 0
  {
    if ls != [] {
      HelpFreeCount(ls[1..], n);
    }
  }

  /** Sample lines are never `# HELP` lines. */
  lemma SampleLinesHelpFree(e: MetricView, fmt: real -> string)
    ensures HelpFree(SampleLines(e, fmt))
  {
  }

  lemma SampleLinesNoHelp(e: MetricView, fmt: real -> string, n: string)
    ensures CountHelp(SampleLines(e, fmt), n) == 0
  {
    SampleLinesHelpFree(e, fmt);
    HelpFreeCount(SampleLines(e, fmt), n);
  }

  /** Each metric name gets exactly one `# HELP` line, and a name that no
      metric has gets none. */
  lemma {:induction false} OneHelpPerName(es: seq<MetricView>, fmt: real -> string, n: string)
    ensures CountHelp(Lines(es, fmt), n) == if n in Names(es) then 1 else 0
  {
    if es != [] {
      var init, e := es[..|es| - 1], es[|es| - 1];
      OneHelpPerName(init, fmt, n);
      var header: seq<Line> := if e.name in Names(init) then [] else Header(e);
      var samples := SampleLines(e, fmt);
      assert Lines(es, fmt) == Lines(init, fmt) + (header + samples);
      CountHelpAppend(Lines(init, fmt), header + samples, n);
      CountHelpAppend(header, samples, n);
      SampleLinesNoHelp(e, fmt, n);
      HeaderCount(e, n);
    }
  }

  lemma HeaderCount(e: MetricView, n: string)
    ensures CountHelp(Header(e), n) == if e.name == n then 1 else 0
  {
    var h := Header(e);
    assert h[1..][1..] == [];
    assert CountHelp(h[1..], n) == 0;
  }

  /** The `# HELP` line of a name carries the help text of the first metric
      with that name, so later metrics' help texts never appear. */
  lemma {:induction false} HelpOfFirstOccurrence(es: seq<MetricView>, fmt: real -> string, i: nat)
    requires i < |es| && es[i].name !in Names(es[..i])
    ensures Help(es[i].name, es[i].help) in Lines(es, fmt)
  {
    var init := es[..|es| - 1];
    if i < |es| - 1 {
      assert init[..i] == es[..i];
      HelpOfFirstOccurrence(init, fmt, i);
    } else {
      assert init == es[..i];
      assert Header(es[i])[0] == Help(es[i].name, es[i].help);
      assert EntryLines(es[i], Names(init), fmt)[0] == Help(es[i].name, es[i].help);
    }
  }

  /** Every `# HELP` line is followed at once by the `# TYPE` line of the
      same name. */
  lemma {:induction false} TypeFollowsHelp(es: seq<MetricView>, fmt: real -> string)
    ensures HelpThenType(Lines(es, fmt))
  {
    if es != [] {
      var init, e := es[..|es| - 1], es[|es| - 1];
      TypeFollowsHelp(init, fmt);
      EntryHelpThenType(e, Names(init), fmt);
      if init != [] {
        LinesEnd(init, fmt);
      }
      HelpThenTypeAppend(Lines(init, fmt), EntryLines(e, Names(init), fmt));
    }
  }

  lemma HelpThenTypeAppend(a: seq<Line>, b: seq<Line>)
    requires HelpThenType(a) && HelpThenType(b)
    requires a == [] || !a[|a| - 1].Help?
    ensures HelpThenType(a + b)
  {
    forall k | 0 <= k < |a + b| && (a + b)[k].Help?
      ensures k + 1 < |a + b| && (a + b)[k + 1].TypeLine? && (a + b)[k + 1].name == (a + b)[k].name
    {
      if k >= |a| {
        assert (a + b)[k] == b[k - |a|];
        assert (a + b)[k + 1] == b[k - |a| + 1];
      } else {
        assert (a + b)[k] == a[k];
        assert (a + b)[k + 1] == a[k + 1];
      }
    }
  }

  lemma EntryHelpThenType(e: MetricView, seen: set<string>, fmt: real -> string)
    ensures HelpThenType(EntryLines(e, seen, fmt))
  {
    var b := EntryLines(e, seen, fmt);
    forall k | 0 <= k < |b| && b[k].Help?
      ensures k + 1 < |b| && b[k + 1].TypeLine? && b[k + 1].name == b[k].name
    {
      HelpOnlyInHeader(e, seen, fmt, k);
      assert b == Header(e) + SampleLines(e, fmt);
      assert b[1] == Header(e)[1];
    }
  }

  predicate HelpThenType(ls: seq<Line>)
  {
    forall k :: 0 <= k < |ls| && ls[k].Help? ==>
      k + 1 < |ls| && ls[k + 1].TypeLine? && ls[k + 1].name == ls[k].name
  }

  lemma HelpOnlyInHeader(e: MetricView, seen: set<string>, fmt: real -> string, k: nat)
    requires k < |EntryLines(e, seen, fmt)| && EntryLines(e, seen, fmt)[k].Help?
    ensures e.name !in seen && k == 0
  {
    SampleLinesHelpFree(e, fmt);
  }

  /** No text `fmt` writes for a number ends in a newline. */
  ghost predicate NoFinalNewline(fmt: real -> string)
  {
    forall r :: fmt(r) == [] || fmt(r)[|fmt(r)| - 1] != '\n'
  }

  /** `t` ends in a newline and not in two. */
  predicate OneFinalNewline(t: string)
  {
    |t| >= 1 && t[|t| - 1] == '\n' && (|t| == 1 || t[|t| - 2] != '\n')
  }

  /** The text ends in a newline, and in exactly one when no float text ends
      in a newline. */
  lemma EndsWithOneNewline(view: map<string, MetricView>, fmt: real -> string)
    requires NoFinalNewline(fmt)
    ensures OneFinalNewline(Output(view, fmt))
  {
    var es := Entries(view);
    if es != [] {
      LastLineIsSample(es, fmt);
    }
    LinesTextEnd(Lines(es, fmt));
    assert Output(view, fmt) == Join(RenderAll(Lines(es, fmt)), "\n") + "\n";
  }

  /** Lines that are empty or end with a sample whose value does not end in
      a newline give a text with exactly one final newline. */
  lemma LinesTextEnd(ls: seq<Line>)
    requires ls == [] || (ls[|ls| - 1].Sample? &&
      (ls[|ls| - 1].value == [] || ls[|ls| - 1].value[|ls[|ls| - 1].value| - 1] != '\n'))
    ensures OneFinalNewline(Join(RenderAll(ls), "\n") + "\n")
  {
    var j := Join(RenderAll(ls), "\n");
    if ls != [] {
      JoinedEnd(ls);
    } else {
      assert RenderAll(ls) == [];
    }
    NewlineAfter(j);
  }

  lemma NewlineAfter(j: string)
    requires j == [] || j[|j| - 1] != '\n'
    ensures OneFinalNewline(j + "\n")
  {
  }

  /** Joined lines that end with a sample whose value does not end in a
      newline do not end in a newline either. */
  lemma JoinedEnd(ls: seq<Line>)
    requires ls != [] && ls[|ls| - 1].Sample?
    requires ls[|ls| - 1].value == [] || ls[|ls| - 1].value[|ls[|ls| - 1].value| - 1] != '\n'
    ensures var j := Join(RenderAll(ls), "\n"); j != [] && j[|j| - 1] != '\n'
  {
    var rs := RenderAll(ls);
    var last := ls[|ls| - 1];
    SampleRenderEnd(last);
    assert rs[|rs| - 1] == Render(last);
    JoinLast(rs, "\n");
  }

  lemma SampleRenderEnd(l: Line)
    requires l.Sample?
    ensures var r := Render(l);
            r != [] && r[|r| - 1] == if l.value == [] then ' ' else l.value[|l.value| - 1]
  {
    var pre := l.name + l.suffix + l.labels + " ";
    assert Render(l) == pre + l.value;
    assert pre[|pre| - 1] == ' ';
  }

  /** The value of a sample line never ends in a newline under such `fmt`. */
  lemma LastLineIsSample(es: seq<MetricView>, fmt: real -> string)
    requires NoFinalNewline(fmt)
    requires es != []
    ensures var ls := Lines(es, fmt);
            ls != [] && ls[|ls| - 1].Sample? &&
            (ls[|ls| - 1].value == [] || ls[|ls| - 1].value[|ls[|ls| - 1].value| - 1] != '\n')
  {
    var e := es[|es| - 1];
    LinesEnd(es, fmt);
    if e.kind.HistogramKind? {
      var c := NatText(e.kind.count);
      assert IsDigit(c[|c| - 1]);
    }
  }

  /** The line every metric's sample lines end with. */
  function LastSample(e: MetricView, fmt: real -> string): Line
  {
    var lt := LabelsText(e.labels);
    match e.kind
    case CounterKind(v) => Sample(e.name, "", lt, fmt(v))
    case GaugeKind(v) => Sample(e.name, "", lt, fmt(v))
    case HistogramKind(_, _, count) => Sample(e.name, "_count", lt, NatText(count))
  }

  lemma EntryLinesEnd(e: MetricView, seen: set<string>, fmt: real -> string)
    ensures var ls := EntryLines(e, seen, fmt); ls != [] && ls[|ls| - 1] == LastSample(e, fmt)
  {
    var s := SampleLines(e, fmt);
    assert s != [] && s[|s| - 1] == LastSample(e, fmt);
    var h: seq<Line> := if e.name in seen then [] else Header(e);
    assert EntryLines(e, seen, fmt) == h + s;
    assert (h + s)[|h + s| - 1] == s[|s| - 1];
  }

  /** The lines of a non-empty snapshot end with the last sample of its
      last metric. */
  lemma LinesEnd(es: seq<MetricView>, fmt: real -> string)
    requires es != []
    ensures var ls := Lines(es, fmt); ls != [] && ls[|ls| - 1] == LastSample(es[|es| - 1], fmt)
  {
    var init, e := es[..|es| - 1], es[|es| - 1];
    EntryLinesEnd(e, Names(init), fmt);
    var a, b := Lines(init, fmt), EntryLines(e, Names(init), fmt);
    assert Lines(es, fmt) == a + b;
    assert (a + b)[|a + b| - 1] == b[|b| - 1];
  }

  lemma {:induction false} JoinLast(parts: seq<string>, sep: string)
    requires |parts| >= 1 && parts[|parts| - 1] != []
    ensures var j := Join(parts, sep);
            j != [] && j[|j| - 1] == parts[|parts| - 1][|parts[|parts| - 1]| - 1]
  {
    if |parts| > 1 {
      JoinLast(parts[1..], sep);
    }
  }

  /** A registry holding one unlabelled counter renders as its HELP line,
      its TYPE line and `name <text of value>`, each ended by a newline
      (with `x_total`, `desc` and 5 this is the documented example). */
  lemma UnlabelledCounterText(name: string, help: string, v: real, fmt: real -> string)
    ensures Output(map[name := MetricView(name, help, [], CounterKind(v))], fmt)
         == "# HELP " + name + " " + help + "\n" + "# TYPE " + name + " counter\n" + name + " " + fmt(v) + "\n"
  {
    var e := MetricView(name, help, [], CounterKind(v));
    OutputOfOne(name, e, fmt);
    UnlabelledCounterLines(name, help, v, fmt);
    var l0, l1, l2 := Help(name, help), TypeLine(name, "counter"), Sample(name, "", "", fmt(v));
    RenderThree(l0, l1, l2);
    CounterLinesText(name, help, fmt(v));
  }

  lemma CounterLinesText(name: string, help: string, x: string)
    ensures Join([Render(Help(name, help)), Render(TypeLine(name, "counter")), Render(Sample(name, "", "", x))], "\n") + "\n"
         == "# HELP " + name + " " + help + "\n" + "# TYPE " + name + " counter\n" + name + " " + x + "\n"
  {
    var r0, r1, r2 := Render(Help(name, help)), Render(TypeLine(name, "counter")), Render(Sample(name, "", "", x));
    JoinThree(r0, r1, r2, "\n");
    assert r1 == "# TYPE " + name + " counter";
    assert r2 == name + " " + x;
  }

  /** The text of a registry with one metric is the text of its lines. */
  lemma OutputOfOne(k: string, e: MetricView, fmt: real -> string)
    ensures Output(map[k := e], fmt) == Join(RenderAll(Lines([e], fmt)), "\n") + "\n"
  {
    var view := map[k := e];
    assert view.Keys == {k};
    assert SortedKeys(view) == [k];
    assert Entries(view) == [e];
  }

  lemma RenderThree(l0: Line, l1: Line, l2: Line)
    ensures RenderAll([l0, l1, l2]) == [Render(l0), Render(l1), Render(l2)]
  {
  }

  lemma UnlabelledCounterLines(name: string, help: string, v: real, fmt: real -> string)
    ensures var e := MetricView(name, help, [], CounterKind(v));
            Lines([e], fmt) == [Help(name, help), TypeLine(name, "counter"), Sample(name, "", "", fmt(v))]
  {
    var e := MetricView(name, help, [], CounterKind(v));
    assert [e][..0] == [];
    assert SampleLines(e, fmt) == [Sample(name, "", "", fmt(v))];
  }

  lemma JoinThree(a: string, b: string, c: string, sep: string)
    ensures Join([a, b, c], sep) == a + sep + b + sep + c
  {
    assert [b, c][1..] == [c];
    assert Join([b, c], sep) == b + sep + c;
    assert [a, b, c][1..] == [b, c];
    assert Join([a, b, c], sep) == a + sep + (b + sep + c);
  }
}
