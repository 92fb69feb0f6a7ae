/** Frequency counts of a list of codes, and what the list costs with given lengths. */
module Counting {
  import opened Sums
  import opened Heap
  import opened CutLengths
  import opened Reassign

  ghost function Histogram(codes: seq<nat>, elems: nat): (f: seq<nat>)
    ensures |f| == elems
  {
    if codes == [] then seq(elems, _ => 0)
    else AddOne(Histogram(codes[..|codes| - 1], elems), codes[|codes| - 1])
  }

  ghost function AddOne(f: seq<nat>, c: nat): (r: seq<nat>)
    ensures |r| == |f|
  {
    if c < |f| then f[c := f[c] + 1] else f
  }

  lemma HistogramPush(codes: seq<nat>, c: nat, elems: nat)
    ensures Histogram(codes + [c], elems) == AddOne(Histogram(codes, elems), c)
  {
    assert (codes + [c])[..|codes|] == codes;
  }

  lemma {:induction false} HistogramSum(codes: seq<nat>, elems: nat)
    requires Below(codes, elems)
    ensures Sum(Histogram(codes, elems), 0, elems) == |codes|
  {
    var f := Histogram(codes, elems);
    if codes == [] {
      SumZero(f, 0, elems);
    } else {
      var rest, c := codes[..|codes| - 1], codes[|codes| - 1];
      HistogramSum(rest, elems);
      SumUpdate(Histogram(rest, elems), c, Histogram(rest, elems)[c] + 1, 0, elems);
    }
  }

  lemma {:induction false} HistogramBound(codes: seq<nat>, elems: nat, c: nat)
    requires c < elems
    ensures Histogram(codes, elems)[c] <= |codes|
  {
    if codes != [] { HistogramBound(codes[..|codes| - 1], elems, c); }
  }

  lemma {:induction false} HistogramHas(codes: seq<nat>, elems: nat, i: nat)
    requires i < |codes| && codes[i] < elems
    ensures Histogram(codes, elems)[codes[i]] > 0
  {
    if i < |codes| - 1 { HistogramHas(codes[..|codes| - 1], elems, i); }
  }

  /** The bits that the listed codes take up. */
  ghost function CodesCost(codes: seq<nat>, t: seq<CtData>, extra: seq<nat>, elems: nat): nat
    requires elems <= |t| && elems <= |extra| && Below(codes, elems)
  {
    if codes == [] then 0
    else var c := codes[|codes| - 1];
      CodesCost(codes[..|codes| - 1], t, extra, elems) + t[c].dl + extra[c]
  }

  lemma CodesCostPush(codes: seq<nat>, c: nat, t: seq<CtData>, extra: seq<nat>, elems: nat)
    requires elems <= |t| && elems <= |extra| && Below(codes, elems) && c < elems
    ensures CodesCost(codes + [c], t, extra, elems) == CodesCost(codes, t, extra, elems) + t[c].dl + extra[c]
  {
    assert (codes + [c])[..|codes|] == codes;
  }

  /** What the frequencies cost is what the codes that were counted take up. */
  lemma {:induction false} PaidHistogram(codes: seq<nat>, t: seq<CtData>, extra: seq<nat>, elems: nat)
    requires elems <= |t| && elems == |extra| && Below(codes, elems)
    ensures Paid(Histogram(codes, elems), t, extra, elems) == CodesCost(codes, t, extra, elems)
  {
    hide Paid;
    if codes == [] {
      PaidNothing(t, extra, elems);
    } else {
      var rest, c := codes[..|codes| - 1], codes[|codes| - 1];
      PaidHistogram(rest, t, extra, elems);
      PaidOneMore(Histogram(rest, elems), c, t, extra, elems);
    }
  }

  lemma PaidNothing(t: seq<CtData>, extra: seq<nat>, elems: nat)
    requires elems <= |t| && elems == |extra|
    ensures Paid(seq(elems, _ => 0), t, extra, elems) == 0
  {
    var f: seq<nat> := seq(elems, _ => 0);
    SumZero(Pay(f, LensOf(t, elems), extra, elems), 0, elems);
  }

  lemma PaidOneMore(f: seq<nat>, c: nat, t: seq<CtData>, extra: seq<nat>, elems: nat)
    requires elems <= |t| && elems == |extra| == |f| && c < elems
    ensures Paid(AddOne(f, c), t, extra, elems) == Paid(f, t, extra, elems) + t[c].dl + extra[c]
  {
    var l := LensOf(t, elems);
    var g, g' := Pay(f, l, extra, elems), Pay(AddOne(f, c), l, extra, elems);
    var per := l[c] + extra[c];
    assert (f[c] + 1) * per == f[c] * per + per;
    assert g' == g[c := g[c] + per];
    SumUpdate(g, c, g[c] + per, 0, elems);
  }
}
