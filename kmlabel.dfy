/**
 * The integer part of perf/go/kmlabel/kmlabel.go: categorical trace params
 * encoded as one offset per sorted param key (0 meaning "no value"), the
 * decoding back to params, and the per-offset count vectors of measures and
 * centroids, updated in place.
 */
module KmLabel {
  import opened Wrappers
  import opened Text
  import Sort

  /** A trace: its id and the offset of its value for each sorted key. */
  datatype Trace = Trace(ID: string, Params: seq<int>)

  function Sum(s: seq<int>): int {
    if s == [] then 0 else s[0] + Sum(s[1..])
  }

  /** counts[p] one higher. */
  function Bump(counts: seq<int>, p: int): (b: seq<int>)
    requires 0 <= p < |counts|
    ensures |b| == |counts| && b[p] == counts[p] + 1
    ensures forall q | 0 <= q < |counts| && q != p :: b[q] == counts[q]
  {
    counts[p := counts[p] + 1]
  }

  /** A fresh measure of the given size, holding one trace at offset p when there is one. */
  function InitialCounts(size: nat, p: Option<int>): seq<int>
    requires p.Some? ==> 0 <= p.value < size
  {
    if p.None? then Zeros(size) else Bump(Zeros(size), p.value)
  }

  function Zeros(n: nat): (z: seq<int>)
    ensures |z| == n && forall i | 0 <= i < n :: z[i] == 0
  {
    seq(n, _ => 0)
  }

  lemma {:induction false} SumZeros(n: nat)
    ensures Sum(Zeros(n)) == 0
  {
    if n > 0 {
      assert Zeros(n)[1..] == Zeros(n - 1);
      SumZeros(n - 1);
    }
  }

  /** Incrementing one count raises the total by one. */
  lemma {:induction false} SumIncrement(s: seq<int>, k: int)
    requires 0 <= k < |s|
    ensures Sum(s[k := s[k] + 1]) == Sum(s) + 1
  {
    if k == 0 {
      assert s[k := s[k] + 1][1..] == s[1..];
    } else {
      assert s[k := s[k] + 1][1..] == s[1..][k - 1 := s[k] + 1];
      SumIncrement(s[1..], k - 1);
    }
  }

  // ---------------------------------------------------------------------------
  // Measure and Centroid

  /** Measure: how often each offset of one key has been seen. */
  class Measure {
    const Counts: array<int>

    /** NewMeasure(size): size counts, all zero. */
    constructor (size: nat)
      ensures fresh(Counts) && Counts[..] == Zeros(size)
    {
      Counts := new int[size](_ => 0);
    }

    /** Inc(i): one more trace with offset i. */
    method Inc(i: int)
      requires 0 <= i < Counts.Length
      modifies Counts
      ensures Counts[..] == Bump(old(Counts[..]), i)
    {
      Counts[i] := Counts[i] + 1;
    }

    /** Clear: every count back to zero, the length kept. */
    method Clear()
      modifies Counts
      ensures Counts[..] == Zeros(Counts.Length)
    {
      for i := 0 to Counts.Length
        invariant forall j | 0 <= j < i :: Counts[j] == 0
      {
        Counts[i] := 0;
      }
    }
  }

  /** The offset of the initial trace for dimension i, if there is an initial trace. */
  function At(initial: Option<seq<int>>, i: nat): Option<int>
    requires initial.Some? ==> i < |initial.value|
  {
    if initial.None? then None else Some(initial.value[i])
  }

  /** A centroid: one measure per key. */
  class Centroid {
    const Dimensions: seq<Measure>

    /** The count arrays of the dimensions. */
    function Repr(): set<array<int>> {
      set i | 0 <= i < |Dimensions| :: Dimensions[i].Counts
    }

    /** No two dimensions share a count array. */
    predicate Valid() {
      forall i, j | 0 <= i < j < |Dimensions| :: Dimensions[i].Counts != Dimensions[j].Counts
    }

    /**
     * NewCentroid(dimSizes, initial): dimension i counts dimSizes[i] offsets,
     * all zero except, with an initial trace, a single 1 at its offset.
     */
    constructor NewCentroid(dimSizes: seq<nat>, initial: Option<seq<int>>)
      requires initial.Some? ==>
                 && |initial.value| >= |dimSizes|
                 && forall i | 0 <= i < |dimSizes| :: 0 <= initial.value[i] < dimSizes[i]
      ensures Valid() && |Dimensions| == |dimSizes| && fresh(Repr())
      ensures forall i | 0 <= i < |dimSizes| :: Dimensions[i].Counts[..] == InitialCounts(dimSizes[i], At(initial, i))
    {
      var dims: seq<Measure> := [];
      for i := 0 to |dimSizes|
        invariant |dims| == i
        invariant forall j | 0 <= j < i :: fresh(dims[j].Counts)
        invariant forall j, k | 0 <= j < k < i :: dims[j].Counts != dims[k].Counts
        invariant forall j | 0 <= j < i :: dims[j].Counts[..] == InitialCounts(dimSizes[j], At(initial, j))
      {
        var m := new Measure(dimSizes[i]);
        if initial.Some? {
          m.Inc(initial.value[i]);
        }
        dims := dims + [m];
      }
      Dimensions := dims;
    }

    /** Add(t): dimension i counts one more trace at offset t.Params[i]. */
    method Add(t: Trace)
      requires Valid() && |t.Params| >= |Dimensions|
      requires forall i | 0 <= i < |Dimensions| :: 0 <= t.Params[i] < Dimensions[i].Counts.Length
      modifies Repr()
      ensures forall i | 0 <= i < |Dimensions| :: Dimensions[i].Counts[..] == Bump(old(Dimensions[i].Counts[..]), t.Params[i])
    {
      for i := 0 to |Dimensions|
        invariant forall j | 0 <= j < i :: Dimensions[j].Counts[..] == Bump(old(Dimensions[j].Counts[..]), t.Params[j])
        invariant forall j | i <= j < |Dimensions| :: Dimensions[j].Counts[..] == old(Dimensions[j].Counts[..])
      {
        Dimensions[i].Inc(t.Params[i]);
      }
    }

    /** Clear: every dimension's counts back to zero. */
    method Clear()
      requires Valid()
      modifies Repr()
      ensures forall i | 0 <= i < |Dimensions| :: Dimensions[i].Counts[..] == Zeros(Dimensions[i].Counts.Length)
    {
      for i := 0 to |Dimensions|
        invariant forall j | 0 <= j < i :: Dimensions[j].Counts[..] == Zeros(Dimensions[j].Counts.Length)
      {
        Dimensions[i].Clear();
      }
    }
  }

  /** How many of the traces have offset v for key i. */
  function CountAt(traces: seq<Trace>, i: nat, v: int): nat
    requires forall k | 0 <= k < |traces| :: i < |traces[k].Params|
  {
    if traces == [] then 0
    else CountAt(traces[..|traces| - 1], i, v) + (if traces[|traces| - 1].Params[i] == v then 1 else 0)
  }

  /** The histogram of key i over the traces, one count per offset. */
  function Histogram(traces: seq<Trace>, i: nat, size: nat): (h: seq<int>)
    requires forall k | 0 <= k < |traces| :: i < |traces[k].Params|
    ensures |h| == size
  {
    seq(size, v => CountAt(traces, i, v))
  }

  /** Offsets a trace can take: one per dimension, within its count vector. */
  predicate Fits(t: Trace, dimSizes: seq<nat>) {
    |t.Params| >= |dimSizes| && forall i | 0 <= i < |dimSizes| :: 0 <= t.Params[i] < dimSizes[i]
  }

  /** Every trace fits the dimensions. */
  ghost predicate AllFit(traces: seq<Trace>, dimSizes: seq<nat>) {
    forall k | 0 <= k < |traces| :: Fits(traces[k], dimSizes)
  }

  /** Each histogram counts every trace once: its total is the number of traces. */
  lemma {:induction false} HistogramTotal(traces: seq<Trace>, i: nat, size: nat)
    requires forall k | 0 <= k < |traces| :: i < |traces[k].Params| && 0 <= traces[k].Params[i] < size
    ensures Sum(Histogram(traces, i, size)) == |traces|
  {
    if traces == [] {
      assert Histogram(traces, i, size) == Zeros(size);
      SumZeros(size);
    } else {
      var init := traces[..|traces| - 1];
      var p := traces[|traces| - 1].Params[i];
      HistogramTotal(init, i, size);
      var h := Histogram(init, i, size);
      assert Histogram(traces, i, size) == h[p := h[p] + 1];
      SumIncrement(h, p);
    }
  }

  /**
   * The CalculateCentroid closure: a zeroed centroid to which every trace
   * is added. Dimension i ends holding the histogram of offset i, whose
   * total is the number of traces.
   */
  method CalculateCentroid(dimSizes: seq<nat>, traces: seq<Trace>) returns (c: Centroid)
    requires AllFit(traces, dimSizes)
    ensures fresh(c.Repr()) && c.Valid() && |c.Dimensions| == |dimSizes|
    ensures forall i | 0 <= i < |dimSizes| :: c.Dimensions[i].Counts[..] == Histogram(traces, i, dimSizes[i])
    ensures forall i | 0 <= i < |dimSizes| :: Sum(c.Dimensions[i].Counts[..]) == |traces|
  {
    c := new Centroid.NewCentroid(dimSizes, None);
    for n := 0 to |traces|
      invariant fresh(c.Repr()) && c.Valid() && |c.Dimensions| == |dimSizes|
      invariant forall i | 0 <= i < |dimSizes| :: c.Dimensions[i].Counts.Length == dimSizes[i]
      invariant forall i | 0 <= i < |dimSizes| :: c.Dimensions[i].Counts[..] == Histogram(traces[..n], i, dimSizes[i])
    {
      c.Add(traces[n]);
      assert traces[..n + 1][..n] == traces[..n];
    }
    assert traces[..|traces|] == traces;
    forall i | 0 <= i < |dimSizes|
      ensures Sum(c.Dimensions[i].Counts[..]) == |traces|
    {
      HistogramTotal(traces, i, dimSizes[i]);
    }
  }

  // ---------------------------------------------------------------------------
  // Encoding params as offsets

  predicate Distinct(s: seq<string>) {
    forall i, j | 0 <= i < j < |s| :: s[i] != s[j]
  }

  lemma {:induction false} DistinctCount(s: seq<string>, x: string)
    requires Distinct(s)
    ensures multiset(s)[x] <= 1
  {
    if s != [] {
      var init := s[..|s| - 1];
      assert s == init + [s[|s| - 1]];
      assert Distinct(init);
      DistinctCount(init, x);
      if x == s[|s| - 1] {
        assert x !in init;
      }
    }
  }

  /** A permutation of a list without duplicates has none either. */
  lemma DistinctPermutation(s: seq<string>, r: seq<string>)
    requires Distinct(s) && multiset(r) == multiset(s)
    ensures Distinct(r)
  {
    forall i, j | 0 <= i < j < |r|
      ensures r[i] != r[j]
    {
      if r[i] == r[j] {
        var x := r[i];
        assert r == r[..j] + r[j..];
        assert r[..j][i] == x && r[j..][0] == x;
        assert multiset(r) == multiset(r[..j]) + multiset(r[j..]);
        DistinctCount(s, x);
      }
    }
  }

  /** Go's string order is a strict weak ordering. */
  lemma StrLessIsStrictWeakOrder()
    ensures Sort.StrictWeakOrder(StrLess)
  {
    forall x, y | StrLess(x, y)
      ensures !StrLess(y, x)
    {
      StrLessTrichotomy(x, y);
    }
    forall x, y, z | !StrLess(y, x) && !StrLess(z, y)
      ensures !StrLess(z, x)
    {
      StrLessTrichotomy(x, y);
      StrLessTrichotomy(y, z);
      StrLessTrichotomy(x, z);
      if StrLess(z, x) {
        if x != y && y != z {
          StrLessTransitive(x, y, z);
        }
      }
    }
  }

  /** sort.Strings. */
  method SortStrings(s: seq<string>) returns (r: seq<string>)
    ensures Sort.SortedBy(r, StrLess) && multiset(r) == multiset(s)
  {
    var a := new string[|s|](i requires 0 <= i < |s| => s[i]);
    assert a[..] == s;
    StrLessIsStrictWeakOrder();
    Sort.SortBy(a, StrLess);
    r := a[..];
  }

  /** The keys of the paramset, sorted, each once. */
  method SortedKeys(paramset: map<string, seq<string>>) returns (keys: seq<string>)
    ensures Sort.SortedBy(keys, StrLess) && Distinct(keys)
    ensures |keys| == |paramset| && forall k :: k in keys <==> k in paramset
  {
    var unsorted: seq<string> := [];
    var todo := paramset.Keys;
    while todo != {}
      invariant todo <= paramset.Keys
      invariant forall k :: k in unsorted <==> k in paramset.Keys - todo
      invariant Distinct(unsorted)
      invariant |unsorted| + |todo| == |paramset.Keys|
      decreases todo
    {
      var k :| k in todo;
      unsorted := unsorted + [k];
      todo := todo - {k};
    }
    keys := SortStrings(unsorted);
    DistinctPermutation(unsorted, keys);
    assert forall k :: k in keys <==> k in multiset(keys);
    assert forall k :: k in unsorted <==> k in multiset(unsorted);
  }

  /** 1 + the last position of v in values, or 0 when v is not there. */
  function LastOffset(values: seq<string>, v: string): (n: nat)
    ensures n <= |values|
    ensures n == 0 <==> v !in values
    ensures n > 0 ==> values[n - 1] == v && v !in values[n..]
  {
    if values == [] then 0
    else if values[|values| - 1] == v then |values|
    else
      assert values[LastOffset(values[..|values| - 1], v)..] ==
             values[..|values| - 1][LastOffset(values[..|values| - 1], v)..] + [values[|values| - 1]];
      LastOffset(values[..|values| - 1], v)
  }

  /** The paramIndices loop: each value maps to its position + 1, a later duplicate winning. */
  method ValueOffsets(values: seq<string>) returns (m: map<string, nat>)
    ensures forall v :: v in m <==> v in values
    ensures forall v | v in m :: m[v] == LastOffset(values, v)
  {
    m := map[];
    for i := 0 to |values|
      invariant forall v :: v in m <==> v in values[..i]
      invariant forall v | v in m :: m[v] == LastOffset(values[..i], v)
    {
      assert values[..i + 1][..i] == values[..i];
      m := m[values[i] := i + 1];
    }
    assert values[..|values|] == values;
  }

  /** A map lookup with Go's zero value for a missing key. */
  function Find(m: map<string, nat>, v: string): nat {
    if v in m then m[v] else 0
  }

  /** The offset encoding of one trace's params: per sorted key, the value's offset, 0 when absent. */
  function Encode(keys: seq<string>, sorted: map<string, seq<string>>, p: map<string, string>): (e: seq<int>)
    ensures |e| == |keys|
  {
    seq(|keys|, i requires 0 <= i < |keys| =>
      if keys[i] in p && keys[i] in sorted then LastOffset(sorted[keys[i]], p[keys[i]]) else 0)
  }

  /** Every offset fits its dimension: 0 <= e[i] < len(sortedParamset[keys[i]]) + 1. */
  lemma EncodeBounds(keys: seq<string>, sorted: map<string, seq<string>>, p: map<string, string>)
    requires forall i | 0 <= i < |keys| :: keys[i] in sorted
    ensures var e := Encode(keys, sorted, p);
      forall i | 0 <= i < |keys| :: 0 <= e[i] < |sorted[keys[i]]| + 1
  {
  }

  /** The lookup tables CentroidsAndTraces builds for the sorted keys. */
  ghost predicate Tables(keys: seq<string>, sorted: map<string, seq<string>>,
                         index: map<string, nat>, offsets: map<string, map<string, nat>>)
  {
    && (forall i | 0 <= i < |keys| :: keys[i] in index && index[keys[i]] == i)
    && (forall k | k in index :: index[k] < |keys| && keys[index[k]] == k)
    && offsets.Keys == index.Keys && sorted.Keys == index.Keys
    && forall k, v | k in offsets :: Find(offsets[k], v) == LastOffset(sorted[k], v)
  }

  /**
   * The state of the encoding loop after the keys in done: the offsets of the
   * encoded keys are in place and the rest are still 0, except that an
   * unknown key may have reset the first offset to 0.
   */
  ghost predicate Partial(a: seq<int>, keys: seq<string>, e: seq<int>, done: set<string>, unknown: bool) {
    && |a| == |keys| == |e|
    && forall i | 0 <= i < |keys| :: a[i] == (if keys[i] in done then e[i] else 0) || (i == 0 && a[i] == 0 && unknown)
  }

  lemma PartialKnown(a: seq<int>, keys: seq<string>, e: seq<int>, done: set<string>, unknown: bool, j: int, k: string)
    requires Partial(a, keys, e, done, unknown)
    requires 0 <= j < |keys| && keys[j] == k
    requires forall i | 0 <= i < |keys| && i != j :: keys[i] != k
    ensures Partial(a[j := e[j]], keys, e, done + {k}, unknown)
  {
  }

  lemma PartialUnknown(a: seq<int>, keys: seq<string>, e: seq<int>, done: set<string>, unknown: bool, k: string)
    requires Partial(a, keys, e, done, unknown)
    requires |keys| > 0 && k !in keys
    ensures Partial(a[0 := 0], keys, e, done + {k}, true)
  {
  }

  /** Once every key is done, the offsets are the encoding, up to an unknown key's reset of the first. */
  lemma PartialComplete(a: seq<int>, keys: seq<string>, e: seq<int>, done: set<string>, unknown: bool)
    requires Partial(a, keys, e, done, unknown)
    requires forall i | 0 <= i < |keys| :: keys[i] in done || e[i] == 0
    ensures forall i | 0 < i < |keys| :: a[i] == e[i]
    ensures |keys| > 0 ==> a[0] == e[0] || (a[0] == 0 && unknown)
    ensures !unknown ==> a == e
  {
  }

  /** One iteration of the encoding loop: the offset of params[k] goes to k's position. */
  method EncodeStep(a: array<int>, keys: seq<string>, sorted: map<string, seq<string>>,
                    index: map<string, nat>, offsets: map<string, map<string, nat>>,
                    params: map<string, string>, k: string,
                    ghost e: seq<int>, ghost done: set<string>, ghost unknown: bool) returns (ghost unknown': bool)
    requires Tables(keys, sorted, index, offsets) && e == Encode(keys, sorted, params)
    requires k in params && Partial(a[..], keys, e, done, unknown)
    requires k !in index ==> |keys| > 0
    modifies a
    ensures Partial(a[..], keys, e, done + {k}, unknown')
    ensures unknown' == (unknown || k !in index)
  {
    ghost var before := a[..];
    if k in index {
      var j := index[k];
      var off := Find(offsets[k], params[k]);
      assert keys[j] == k && e[j] == off;
      PartialKnown(before, keys, e, done, unknown, j, k);
      a[j] := off;
      assert a[..] == before[j := e[j]];
      unknown' := unknown;
    } else {
      // paramIndex[k] and paramMap[k][v] both read Go's zero value.
      PartialUnknown(before, keys, e, done, unknown, k);
      a[0] := 0;
      assert a[..] == before[0 := 0];
      unknown' := true;
    }
  }

  /**
   * Encodes one trace: `for k, v := range params { Params[paramIndex[k]] =
   * paramMap[k][v] }`, in map order. A key outside the paramset reads index
   * 0 and offset 0, so it overwrites the first offset with 0; every other
   * offset is the encoding of its key.
   */
  method EncodeTrace(keys: seq<string>, sorted: map<string, seq<string>>,
                     index: map<string, nat>, offsets: map<string, map<string, nat>>,
                     id: string, params: map<string, string>) returns (t: Trace)
    requires Tables(keys, sorted, index, offsets)
    requires params != map[] ==> |keys| > 0
    ensures t.ID == id && |t.Params| == |keys|
    ensures forall i | 0 < i < |keys| :: t.Params[i] == Encode(keys, sorted, params)[i]
    ensures |keys| > 0 ==>
      t.Params[0] == Encode(keys, sorted, params)[0] || (t.Params[0] == 0 && exists k | k in params :: k !in index)
    ensures params.Keys <= index.Keys ==> t.Params == Encode(keys, sorted, params)
    ensures forall i | 0 <= i < |keys| :: 0 <= t.Params[i] <= |sorted[keys[i]]|
  {
    ghost var e := Encode(keys, sorted, params);
    var ps;
    ghost var unknown;
    ps, unknown := EncodeOffsets(keys, sorted, index, offsets, params, e);
    assert forall i | 0 <= i < |keys| :: keys[i] in params.Keys || e[i] == 0;
    PartialComplete(ps, keys, e, params.Keys, unknown);
    EncodeBounds(keys, sorted, params);
    t := Trace(id, ps);
  }

  /** The loop of EncodeTrace, over params in map order, on a slice of zeros. */
  method EncodeOffsets(keys: seq<string>, sorted: map<string, seq<string>>,
                       index: map<string, nat>, offsets: map<string, map<string, nat>>,
                       params: map<string, string>, ghost e: seq<int>) returns (ps: seq<int>, ghost unknown: bool)
    requires Tables(keys, sorted, index, offsets) && e == Encode(keys, sorted, params)
    requires params != map[] ==> |keys| > 0
    ensures Partial(ps, keys, e, params.Keys, unknown)
    ensures unknown ==> exists k | k in params :: k !in index
  {
    var a := new int[|keys|](_ => 0);
    var todo := params.Keys;
    ghost var done: set<string> := {};
    unknown := false;
    while todo != {}
      invariant done + todo == params.Keys && done !! todo
      invariant Partial(a[..], keys, e, done, unknown)
      invariant unknown ==> exists k | k in params :: k !in index
      decreases todo
    {
      var k :| k in todo;
      unknown := EncodeStep(a, keys, sorted, index, offsets, params, k, e, done, unknown);
      todo := todo - {k};
      done := done + {k};
    }
    ps := a[..];
  }

  /** decode(params): the value of every key with a non-zero offset, later keys overriding. */
  function Decode(keys: seq<string>, sorted: map<string, seq<string>>, ps: seq<int>): map<string, string>
    requires |ps| <= |keys|
    requires forall i | 0 <= i < |ps| :: ps[i] == 0 || (keys[i] in sorted && 1 <= ps[i] <= |sorted[keys[i]]|)
  {
    if ps == [] then map[]
    else
      var n := |ps| - 1;
      var d := Decode(keys, sorted, ps[..n]);
      if ps[n] == 0 then d else d[keys[n] := sorted[keys[n]][ps[n] - 1]]
  }

  /** The reverse closure: the loop over a trace's offsets. */
  method Reverse(keys: seq<string>, sorted: map<string, seq<string>>, t: Trace) returns (ret: map<string, string>)
    requires |t.Params| <= |keys|
    requires forall i | 0 <= i < |t.Params| ::
      t.Params[i] == 0 || (keys[i] in sorted && 1 <= t.Params[i] <= |sorted[keys[i]]|)
    ensures ret == Decode(keys, sorted, t.Params)
  {
    ret := map[];
    for i := 0 to |t.Params|
      invariant ret == Decode(keys, sorted, t.Params[..i])
    {
      assert t.Params[..i + 1][..i] == t.Params[..i];
      var p := t.Params[i];
      if p == 0 {
        continue;
      }
      var key := keys[i];
      var value := sorted[key][p - 1];
      ret := ret[key := value];
    }
    assert t.Params[..|t.Params|] == t.Params;
  }

  /** The params a trace can carry over these sorted values: known keys, listed values. */
  predicate Describable(keys: seq<string>, sorted: map<string, seq<string>>, p: map<string, string>) {
    forall k | k in p :: k in keys && k in sorted && p[k] in sorted[k]
  }

  /** reverse(encode(p)) == p for params drawn from the paramset. */
  lemma {:induction false} DecodeEncode(keys: seq<string>, sorted: map<string, seq<string>>, p: map<string, string>)
    requires Distinct(keys) && forall i | 0 <= i < |keys| :: keys[i] in sorted
    requires Describable(keys, sorted, p)
    ensures Decode(keys, sorted, Encode(keys, sorted, p)) == p
  {
    var e := Encode(keys, sorted, p);
    DecodePrefix(keys, sorted, p, |keys|);
    assert e[..|keys|] == e;
    assert (map k | k in p && k in keys[..|keys|] :: p[k]) == p by {
      assert keys[..|keys|] == keys;
    }
  }

  lemma {:induction false} DecodePrefix(keys: seq<string>, sorted: map<string, seq<string>>, p: map<string, string>, n: nat)
    requires n <= |keys| && forall i | 0 <= i < |keys| :: keys[i] in sorted
    requires Describable(keys, sorted, p)
    ensures Decode(keys, sorted, Encode(keys, sorted, p)[..n]) == map k | k in p && k in keys[..n] :: p[k]
  {
    var e := Encode(keys, sorted, p);
    if n > 0 {
      DecodePrefix(keys, sorted, p, n - 1);
      assert e[..n][..n - 1] == e[..n - 1];
      assert keys[..n] == keys[..n - 1] + [keys[n - 1]];
    }
  }

  // ---------------------------------------------------------------------------
  // CentroidsAndTraces

  /** sortedParamset: each key's values, sorted, the same values as in the paramset. */
  ghost predicate SortedValues(sorted: map<string, seq<string>>, paramset: map<string, seq<string>>) {
    forall k | k in sorted :: k in paramset
      && Sort.SortedBy(sorted[k], StrLess) && multiset(sorted[k]) == multiset(paramset[k])
  }

  lemma SortedValuesExtend(sorted: map<string, seq<string>>, paramset: map<string, seq<string>>,
                           key: string, values: seq<string>)
    requires SortedValues(sorted, paramset) && key in paramset
    requires Sort.SortedBy(values, StrLess) && multiset(values) == multiset(paramset[key])
    ensures SortedValues(sorted[key := values], paramset)
  {
  }

  /** Adding the next sorted key to the tables keeps them tables. */
  lemma TablesExtend(keys: seq<string>, i: nat, sorted: map<string, seq<string>>,
                     index: map<string, nat>, offsets: map<string, map<string, nat>>,
                     values: seq<string>, valueOffsets: map<string, nat>)
    requires Distinct(keys) && i < |keys|
    requires Tables(keys[..i], sorted, index, offsets)
    requires forall v :: Find(valueOffsets, v) == LastOffset(values, v)
    ensures Tables(keys[..i + 1], sorted[keys[i] := values], index[keys[i] := i], offsets[keys[i] := valueOffsets])
  {
    assert keys[..i + 1] == keys[..i] + [keys[i]];
    assert keys[i] !in keys[..i];
  }

  /** The tables built for the first i sorted keys. */
  ghost predicate KeyTablesUpTo(paramset: map<string, seq<string>>, keys: seq<string>, i: nat,
                                dimSizes: seq<nat>, sorted: map<string, seq<string>>,
                                index: map<string, nat>, offsets: map<string, map<string, nat>>)
    requires i <= |keys| && forall k :: k in keys <==> k in paramset
  {
    && |dimSizes| == i
    && Tables(keys[..i], sorted, index, offsets)
    && (forall j | 0 <= j < i :: dimSizes[j] == |paramset[keys[j]]| + 1)
    && SortedValues(sorted, paramset)
  }

  /** One iteration of the KeyTables loop: key i's dimension size, sorted values and offsets. */
  method AddKey(paramset: map<string, seq<string>>, keys: seq<string>, i: nat,
                dimSizes: seq<nat>, sorted: map<string, seq<string>>,
                index: map<string, nat>, offsets: map<string, map<string, nat>>)
    returns (dimSizes': seq<nat>, sorted': map<string, seq<string>>,
             index': map<string, nat>, offsets': map<string, map<string, nat>>)
    requires Distinct(keys) && i < |keys| && forall k :: k in keys <==> k in paramset
    requires KeyTablesUpTo(paramset, keys, i, dimSizes, sorted, index, offsets)
    ensures KeyTablesUpTo(paramset, keys, i + 1, dimSizes', sorted', index', offsets')
  {
    var key := keys[i];
    var params := paramset[key];
    var sortedParams := SortStrings(params);
    var paramIndices := ValueOffsets(sortedParams);
    TablesExtend(keys, i, sorted, index, offsets, sortedParams, paramIndices);
    SortedValuesExtend(sorted, paramset, key, sortedParams);
    dimSizes' := dimSizes + [|params| + 1];
    index' := index[key := i];
    sorted' := sorted[key := sortedParams];
    offsets' := offsets[key := paramIndices];
  }

  /**
   * The loop over the sorted keys: each key's index, the size of its
   * dimension (its values plus the 0 slot), its values sorted and the
   * offset of each value.
   */
  method KeyTables(paramset: map<string, seq<string>>, keys: seq<string>)
    returns (dimSizes: seq<nat>, sorted: map<string, seq<string>>,
             index: map<string, nat>, offsets: map<string, map<string, nat>>)
    requires Distinct(keys) && forall k :: k in keys <==> k in paramset
    ensures Tables(keys, sorted, index, offsets) && sorted.Keys == paramset.Keys
    ensures |dimSizes| == |keys| && forall i | 0 <= i < |keys| :: dimSizes[i] == |paramset[keys[i]]| + 1
    ensures SortedValues(sorted, paramset)
  {
    index, offsets, sorted, dimSizes := map[], map[], map[], [];
    for i := 0 to |keys|
      invariant KeyTablesUpTo(paramset, keys, i, dimSizes, sorted, index, offsets)
    {
      dimSizes, sorted, index, offsets := AddKey(paramset, keys, i, dimSizes, sorted, index, offsets);
    }
    KeyTablesComplete(paramset, keys, dimSizes, sorted, index, offsets);
  }

  lemma KeyTablesComplete(paramset: map<string, seq<string>>, keys: seq<string>,
                          dimSizes: seq<nat>, sorted: map<string, seq<string>>,
                          index: map<string, nat>, offsets: map<string, map<string, nat>>)
    requires forall k :: k in keys <==> k in paramset
    requires KeyTablesUpTo(paramset, keys, |keys|, dimSizes, sorted, index, offsets)
    ensures Tables(keys, sorted, index, offsets) && sorted.Keys == paramset.Keys
    ensures |dimSizes| == |keys| && forall i | 0 <= i < |keys| :: dimSizes[i] == |paramset[keys[i]]| + 1
    ensures SortedValues(sorted, paramset)
  {
    assert keys[..|keys|] == keys;
    assert forall k :: k in sorted <==> k in keys;
  }

  /**
   * t is the trace of one entry of traceparams: one offset per key, each
   * within its dimension, and exactly the encoding of the entry's params
   * when all its keys belong to the paramset. When some key does not, every
   * offset but the first is still its key's encoding, and the first is its
   * encoding or 0.
   */
  ghost predicate EncodedEntry(t: Trace, keys: seq<string>, sorted: map<string, seq<string>>,
                               traceparams: map<string, map<string, string>>)
  {
    && t.ID in traceparams && |t.Params| == |keys|
    && var p := traceparams[t.ID];
       && (p.Keys <= sorted.Keys ==> t.Params == Encode(keys, sorted, p))
       && (forall i | 0 < i < |keys| :: t.Params[i] == Encode(keys, sorted, p)[i])
       && (|keys| > 0 ==> t.Params[0] == Encode(keys, sorted, p)[0] || (t.Params[0] == 0 && exists k | k in p :: k !in sorted))
       && forall j | 0 <= j < |keys| :: keys[j] in sorted && 0 <= t.Params[j] <= |sorted[keys[j]]|
  }

  /** Appending the encoding of a fresh id keeps the invariants of the EncodeTraces loop. */
  lemma ExtendTraces(traces: seq<Trace>, tr: Trace, todo: set<string>, keys: seq<string>,
                     sorted: map<string, seq<string>>, traceparams: map<string, map<string, string>>)
    requires tr.ID in todo && EncodedEntry(tr, keys, sorted, traceparams)
    requires forall i | 0 <= i < |traces| :: traces[i].ID !in todo
    requires forall i, j | 0 <= i < j < |traces| :: traces[i].ID != traces[j].ID
    requires forall i | 0 <= i < |traces| :: EncodedEntry(traces[i], keys, sorted, traceparams)
    ensures var s := traces + [tr];
      && (forall i | 0 <= i < |s| :: s[i].ID !in todo - {tr.ID})
      && (forall i, j | 0 <= i < j < |s| :: s[i].ID != s[j].ID)
      && (forall i | 0 <= i < |s| :: EncodedEntry(s[i], keys, sorted, traceparams))
  {
  }

  /** The loop over traceparams, in map order: one encoded trace per id. */
  method EncodeTraces(keys: seq<string>, sorted: map<string, seq<string>>,
                      index: map<string, nat>, offsets: map<string, map<string, nat>>,
                      traceparams: map<string, map<string, string>>) returns (traces: seq<Trace>)
    requires Tables(keys, sorted, index, offsets)
    requires forall id | id in traceparams :: traceparams[id] != map[] ==> |keys| > 0
    ensures |traces| == |traceparams|
    ensures forall i, j | 0 <= i < j < |traces| :: traces[i].ID != traces[j].ID
    ensures forall i | 0 <= i < |traces| :: EncodedEntry(traces[i], keys, sorted, traceparams)
  {
    traces := [];
    var todo := traceparams.Keys;
    while todo != {}
      invariant todo <= traceparams.Keys
      invariant |traces| + |todo| == |traceparams|
      invariant forall i | 0 <= i < |traces| :: traces[i].ID !in todo
      invariant forall i, j | 0 <= i < j < |traces| :: traces[i].ID != traces[j].ID
      invariant forall i | 0 <= i < |traces| :: EncodedEntry(traces[i], keys, sorted, traceparams)
      decreases todo
    {
      var id :| id in todo;
      var tr := EncodeTrace(keys, sorted, index, offsets, id, traceparams[id]);
      assert EncodedEntry(tr, keys, sorted, traceparams);
      ExtendTraces(traces, tr, todo, keys, sorted, traceparams);
      traces := traces + [tr];
      todo := todo - {id};
    }
  }

  /**
   * CentroidsAndTraces without the random initial centroids (see
   * InitialCentroids): the sorted keys, the size of each key's dimension,
   * the paramset with sorted values and one encoded trace per entry of
   * traceparams, every trace fitting the dimensions. The CalculateCentroid
   * and Reverse closures are CalculateCentroid and Reverse over these.
   */
  method CentroidsAndTraces(paramset: map<string, seq<string>>, traceparams: map<string, map<string, string>>)
    returns (keys: seq<string>, dimSizes: seq<nat>, sorted: map<string, seq<string>>, traces: seq<Trace>)
    requires forall id | id in traceparams :: traceparams[id] != map[] ==> paramset != map[]
    ensures Sort.SortedBy(keys, StrLess) && Distinct(keys) && forall k :: k in keys <==> k in paramset
    ensures |dimSizes| == |keys| && forall i | 0 <= i < |keys| :: dimSizes[i] == |paramset[keys[i]]| + 1
    ensures sorted.Keys == paramset.Keys && SortedValues(sorted, paramset)
    ensures |traces| == |traceparams|
    ensures forall i, j | 0 <= i < j < |traces| :: traces[i].ID != traces[j].ID
    ensures forall i | 0 <= i < |traces| :: EncodedEntry(traces[i], keys, sorted, traceparams)
    ensures AllFit(traces, dimSizes)
  {
    keys := SortedKeys(paramset);
    var index, offsets;
    dimSizes, sorted, index, offsets := KeyTables(paramset, keys);
    traces := EncodeTraces(keys, sorted, index, offsets, traceparams);
    forall n | 0 <= n < |traces|
      ensures Fits(traces[n], dimSizes)
    {
      assert EncodedEntry(traces[n], keys, sorted, traceparams);
      forall j | 0 <= j < |keys|
        ensures traces[n].Params[j] < dimSizes[j]
      {
        assert |sorted[keys[j]]| == |multiset(sorted[keys[j]])| == |paramset[keys[j]]|;
      }
    }
  }

  /**
   * The initial centroids: centroid i starts from the trace picked for it.
   * picks stands for the rand.Intn draws; a pick must name a trace, since
   * rand.Intn panics on an empty range.
   */
  method InitialCentroids(dimSizes: seq<nat>, traces: seq<Trace>, picks: seq<nat>) returns (centroids: seq<Centroid>)
    requires AllFit(traces, dimSizes)
    requires forall i | 0 <= i < |picks| :: picks[i] < |traces|
    ensures |centroids| == |picks|
    ensures forall i | 0 <= i < |picks| :: fresh(centroids[i].Repr()) && centroids[i].Valid()
    ensures forall i | 0 <= i < |picks| :: |centroids[i].Dimensions| == |dimSizes|
    ensures forall i, j | 0 <= i < |picks| && 0 <= j < |dimSizes| ::
      centroids[i].Dimensions[j].Counts[..] == InitialCounts(dimSizes[j], Some(traces[picks[i]].Params[j]))
  {
    centroids := [];
    for i := 0 to |picks|
      invariant |centroids| == i
      invariant forall n | 0 <= n < i :: fresh(centroids[n].Repr()) && centroids[n].Valid()
      invariant forall n | 0 <= n < i :: |centroids[n].Dimensions| == |dimSizes|
      invariant forall n, j | 0 <= n < i && 0 <= j < |dimSizes| ::
        centroids[n].Dimensions[j].Counts[..] == InitialCounts(dimSizes[j], Some(traces[picks[n]].Params[j]))
    {
      var tr := traces[picks[i]];
      var c := new Centroid.NewCentroid(dimSizes, Some(tr.Params));
      centroids := centroids + [c];
    }
  }

  /**
   * For the outputs of CentroidsAndTraces, reverse undoes the encoding: a
   * trace whose params all come from the paramset decodes to those params.
   */
  lemma TracesRoundTrip(paramset: map<string, seq<string>>, traceparams: map<string, map<string, string>>,
                        keys: seq<string>, sorted: map<string, seq<string>>, traces: seq<Trace>, n: nat)
    requires Distinct(keys) && forall k :: k in keys <==> k in paramset
    requires sorted.Keys == paramset.Keys && SortedValues(sorted, paramset)
    requires n < |traces| && EncodedEntry(traces[n], keys, sorted, traceparams)
    requires var p := traceparams[traces[n].ID]; forall k | k in p :: k in paramset && p[k] in paramset[k]
    ensures Decode(keys, sorted, traces[n].Params) == traceparams[traces[n].ID]
  {
    var p := traceparams[traces[n].ID];
    forall k | k in p
      ensures k in keys && k in sorted && p[k] in sorted[k]
    {
      assert p[k] in multiset(paramset[k]);
    }
    DecodeEncode(keys, sorted, p);
  }
}
