/** An insertion-ordered frequency table: the Python idiom
    `d[k] = d.get(k, 0) + 1` over a dict, whose iteration order is the order
    in which keys were first inserted. Both the word counter and the mode of
    the statistics tool are built on it. */
module Frequency {

  datatype Entry<T> = Entry(key: T, count: nat)

  type Table<T> = seq<Entry<T>>

  function Keys<T>(t: Table<T>): (ks: seq<T>)
    ensures |ks| == |t|
    ensures forall i :: 0 <= i < |t| ==> ks[i] == t[i].key
  {
    if t == [] then [] else [t[0].key] + Keys(t[1..])
  }

  predicate Distinct<T(==)>(s: seq<T>) {
    forall i, j :: 0 <= i < j < |s| ==> s[i] != s[j]
  }

  /** `d.get(k, 0)`. */
  function Get<T(==)>(t: Table<T>, k: T): nat {
    if t == [] then 0 else if t[0].key == k then t[0].count else Get(t[1..], k)
  }

  /** The sum of all counts. */
  function Total<T>(t: Table<T>): nat {
    if t == [] then 0 else t[0].count + Total(t[1..])
  }

  /** The position of the first occurrence of `x` in `xs`, or `|xs|` if
      there is none. */
  function IndexOf<T(==)>(xs: seq<T>, x: T): (r: nat)
    ensures r <= |xs|
    ensures r < |xs| <==> x in xs
    ensures r < |xs| ==> xs[r] == x
    ensures forall k :: 0 <= k < r ==> xs[k] != x
  {
    if xs == [] then 0 else if xs[0] == x then 0 else 1 + IndexOf(xs[1..], x)
  }

  /** `d[k] = d.get(k, 0) + 1`: an existing key keeps its place and gains
      one; a new key is appended with count 1. */
  function Add<T(==,!new)>(t: Table<T>, k: T): (r: Table<T>)
    ensures Keys(r) == if k in Keys(t) then Keys(t) else Keys(t) + [k]
    ensures forall y {:trigger Get(r, y)} :: Get(r, y) == Get(t, y) + (if y == k then 1 else 0)
    ensures Total(r) == Total(t) + 1
  {
    if t == [] then [Entry(k, 1)]
    else if t[0].key == k then [Entry(k, t[0].count + 1)] + t[1..]
    else
      var rest := Add(t[1..], k);
      assert Keys(t) == [t[0].key] + Keys(t[1..]);
      assert ([t[0]] + rest)[1..] == rest;
      [t[0]] + rest
  }

  /** The table of a sequence, built by adding its elements in order. */
  function Tally<T(==,!new)>(xs: seq<T>): (t: Table<T>)
    ensures Distinct(Keys(t))
    ensures forall y {:trigger Get(t, y)} :: Get(t, y) == multiset(xs)[y]
    ensures forall y {:trigger y in Keys(t)} :: y in Keys(t) <==> y in xs
    ensures Total(t) == |xs|
  {
    if xs == [] then []
    else
      var t := Tally(xs[..|xs| - 1]);
      TallyStep(xs, t);
      Add(t, xs[|xs| - 1])
  }

  /** Adding a key keeps the keys distinct. */
  lemma AddDistinct<T(!new)>(t: Table<T>, x: T)
    requires Distinct(Keys(t))
    ensures Distinct(Keys(Add(t, x)))
  {
    var ks := Keys(t);
    if x !in ks {
      var ks' := ks + [x];
      forall i, j | 0 <= i < j < |ks'|
        ensures ks'[i] != ks'[j]
      {
        assert ks'[i] == ks[i];
        if j < |ks| {
          assert ks'[j] == ks[j];
        }
      }
    }
  }

  /** The table of `xs` without its last element, with that element added,
      is the table of `xs`. */
  lemma TallyStep<T(!new)>(xs: seq<T>, t: Table<T>)
    requires xs != []
    requires Distinct(Keys(t))
    requires forall y {:trigger Get(t, y)} :: Get(t, y) == multiset(xs[..|xs| - 1])[y]
    requires forall y {:trigger y in Keys(t)} :: y in Keys(t) <==> y in xs[..|xs| - 1]
    requires Total(t) == |xs| - 1
    ensures Distinct(Keys(Add(t, xs[|xs| - 1])))
    ensures forall y {:trigger Get(Add(t, xs[|xs| - 1]), y)} :: Get(Add(t, xs[|xs| - 1]), y) == multiset(xs)[y]
    ensures forall y {:trigger y in Keys(Add(t, xs[|xs| - 1]))} :: y in Keys(Add(t, xs[|xs| - 1])) <==> y in xs
    ensures Total(Add(t, xs[|xs| - 1])) == |xs|
  {
    var init := xs[..|xs| - 1];
    var x := xs[|xs| - 1];
    assert xs == init + [x];
    assert multiset(xs) == multiset(init) + multiset{x};
    AddDistinct(t, x);
    forall y
      ensures y in Keys(Add(t, x)) <==> y in xs
    {
      assert y in xs <==> y in init || y == x;
    }
  }

  /** With distinct keys, the count stored at a position is what `get`
      returns for its key. */
  lemma {:induction false} GetAt<T>(t: Table<T>, i: nat)
    requires Distinct(Keys(t)) && i < |t|
    ensures Get(t, t[i].key) == t[i].count
  {
    if i > 0 {
      assert Keys(t)[0] != Keys(t)[i];
      assert Distinct(Keys(t[1..])) by {
        assert forall a :: 0 <= a < |t| - 1 ==> Keys(t[1..])[a] == Keys(t)[a + 1];
      }
      GetAt(t[1..], i - 1);
    }
  }

  /** Keys appear in the order of their first occurrence in `xs`. */
  predicate FirstSeenOrder<T(==)>(ks: seq<T>, xs: seq<T>) {
    forall i, j {:trigger IndexOf(xs, ks[i]), IndexOf(xs, ks[j])} ::
      0 <= i < j < |ks| ==> IndexOf(xs, ks[i]) < IndexOf(xs, ks[j])
  }

  lemma IndexOfExtend<T>(xs: seq<T>, x: T, y: T)
    requires y in xs
    ensures IndexOf(xs + [x], y) == IndexOf(xs, y)
  {
    var p := IndexOf(xs, y);
    var q := IndexOf(xs + [x], y);
    assert (xs + [x])[p] == y;
    if q < p {
      assert xs[q] == (xs + [x])[q];
    }
  }

  /** Every count in the table is the number of occurrences of its key, and
      so at least one. */
  lemma TallyCounts<T(!new)>(xs: seq<T>)
    ensures forall i :: 0 <= i < |Tally(xs)| ==>
              Tally(xs)[i].count == multiset(xs)[Tally(xs)[i].key] >= 1
  {
    var t := Tally(xs);
    forall i | 0 <= i < |t|
      ensures t[i].count == multiset(xs)[t[i].key] >= 1
    {
      GetAt(t, i);
      assert Keys(t)[i] == t[i].key;
      assert t[i].key in Keys(t);
      assert t[i].key in xs;
    }
  }

  /** The table lists keys in the order in which they were first seen. */
  lemma {:induction false} TallyOrder<T(!new)>(xs: seq<T>)
    ensures FirstSeenOrder(Keys(Tally(xs)), xs)
  {
    if xs != [] {
      var init := xs[..|xs| - 1];
      var x := xs[|xs| - 1];
      assert xs == init + [x];
      TallyOrder(init);
      var ks := Keys(Tally(init));
      forall i | 0 <= i < |ks|
        ensures ks[i] in init
      {
        assert ks[i] in ks;
      }
      if x in init {
        assert Keys(Tally(xs)) == ks;
        ExtendOrder(ks, init, x);
      } else {
        assert Keys(Tally(xs)) == ks + [x];
        AppendOrder(ks, init, x);
      }
    }
  }

  /** Extending `xs` leaves the first occurrence of every value already in
      it where it was, so keys drawn from `xs` keep their order. */
  lemma ExtendOrder<T>(ks: seq<T>, xs: seq<T>, x: T)
    requires FirstSeenOrder(ks, xs)
    requires forall i :: 0 <= i < |ks| ==> ks[i] in xs
    ensures FirstSeenOrder(ks, xs + [x])
    ensures forall i :: 0 <= i < |ks| ==> IndexOf(xs + [x], ks[i]) < |xs|
  {
    forall i | 0 <= i < |ks|
      ensures IndexOf(xs + [x], ks[i]) == IndexOf(xs, ks[i]) < |xs|
    {
      IndexOfExtend(xs, x, ks[i]);
    }
  }

  /** A value not seen before is first seen last. */
  lemma AppendOrder<T>(ks: seq<T>, xs: seq<T>, x: T)
    requires FirstSeenOrder(ks, xs)
    requires forall i :: 0 <= i < |ks| ==> ks[i] in xs
    requires x !in xs
    ensures FirstSeenOrder(ks + [x], xs + [x])
  {
    ExtendOrder(ks, xs, x);
    var ys := xs + [x];
    var ks' := ks + [x];
    assert IndexOf(ys, x) == |xs| by {
      assert ys[|xs|] == x;
    }
    forall i, j | 0 <= i < j < |ks'|
      ensures IndexOf(ys, ks'[i]) < IndexOf(ys, ks'[j])
    {
      assert ks'[i] == ks[i];
      if j < |ks| {
        assert ks'[j] == ks[j];
      }
    }
  }

  /** `max(d.values())`, taken as 0 for an empty table. */
  function MaxCount<T>(t: Table<T>): (m: nat)
    ensures forall i :: 0 <= i < |t| ==> t[i].count <= m
    ensures t != [] ==> exists i :: 0 <= i < |t| && t[i].count == m
  {
    if t == [] then 0
    else
      var rest := MaxCount(t[1..]);
      if t[0].count >= rest then t[0].count else rest
  }

  /** The position of the first entry whose count is `c`, or `|t|` if there
      is none: the head of `[k for k, v in d.items() if v == c]`. */
  function FirstWithCount<T>(t: Table<T>, c: nat): (p: nat)
    ensures p <= |t|
    ensures p < |t| ==> t[p].count == c
    ensures forall i :: 0 <= i < p ==> t[i].count != c
    ensures p == |t| ==> forall i :: 0 <= i < |t| ==> t[i].count != c
  {
    if t == [] then 0 else if t[0].count == c then 0 else 1 + FirstWithCount(t[1..], c)
  }

  /** The first key, in table order, whose count is the largest count:
      `[k for k, v in d.items() if v == max(d.values())][0]`. */
  function MostFrequent<T(==,!new)>(xs: seq<T>): (r: T)
    requires |xs| > 0
    ensures r in xs
  {
    var t := Tally(xs);
    assert xs[0] in Keys(t);
    var p := FirstWithCount(t, MaxCount(t));
    assert Keys(t)[p] in Keys(t);
    t[p].key
  }

  /** Where a value of `xs` sits in its table, with its number of
      occurrences as the count. */
  lemma KeyPosition<T(!new)>(xs: seq<T>, y: T) returns (i: nat)
    requires y in xs
    ensures i < |Tally(xs)|
    ensures Tally(xs)[i].key == y
    ensures Tally(xs)[i].count == multiset(xs)[y]
  {
    var t := Tally(xs);
    assert y in Keys(t);
    i :| 0 <= i < |t| && Keys(t)[i] == y;
    GetAt(t, i);
  }

  /** A value first seen before the key at position `p` of the table sits
      before it in the table. */
  lemma EarlierKeyEarlierPosition<T(!new)>(xs: seq<T>, p: nat, y: T) returns (i: nat)
    requires y in xs && p < |Tally(xs)|
    requires IndexOf(xs, y) < IndexOf(xs, Tally(xs)[p].key)
    ensures i < p
    ensures Tally(xs)[i].count == multiset(xs)[y]
  {
    i := KeyPosition(xs, y);
    TallyOrder(xs);
    var ks := Keys(Tally(xs));
    assert ks[p] == Tally(xs)[p].key && ks[i] == y;
    assert i != p;
  }

  /** The position of the most frequent value in its table. */
  lemma MostFrequentPosition<T(!new)>(xs: seq<T>) returns (p: nat)
    requires |xs| > 0
    ensures p == FirstWithCount(Tally(xs), MaxCount(Tally(xs)))
    ensures p < |Tally(xs)| && Tally(xs)[p].key == MostFrequent(xs)
  {
    var t := Tally(xs);
    assert xs[0] in Keys(t);
    p := FirstWithCount(t, MaxCount(t));
  }

  /** The most frequent value has the highest count, and every value first
      seen before it occurs strictly less often. */
  lemma MostFrequentIsFirstMaximum<T(!new)>(xs: seq<T>)
    requires |xs| > 0
    ensures forall y :: y in xs ==> multiset(xs)[y] <= multiset(xs)[MostFrequent(xs)]
    ensures forall y :: y in xs && IndexOf(xs, y) < IndexOf(xs, MostFrequent(xs))
                        ==> multiset(xs)[y] < multiset(xs)[MostFrequent(xs)]
  {
    var mode := MostFrequent(xs);
    var p := MostFrequentPosition(xs);
    var m := KeyPosition(xs, mode);
    GetAt(Tally(xs), p);
    GetAt(Tally(xs), m);
    forall y | y in xs
      ensures multiset(xs)[y] <= multiset(xs)[mode]
      ensures IndexOf(xs, y) < IndexOf(xs, mode) ==> multiset(xs)[y] < multiset(xs)[mode]
    {
      var j := KeyPosition(xs, y);
      if IndexOf(xs, y) < IndexOf(xs, mode) {
        var i := EarlierKeyEarlierPosition(xs, p, y);
      }
    }
  }
}
