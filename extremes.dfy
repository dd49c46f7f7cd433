/** The ten hottest and ten coldest samples
    (`df.sort_values(by='temp_f', ...).head(10)`, Bank/weather_tool.py,
    lines 360 and 364). The sort is by temperature alone and the source's
    default sort is not stable, so no order among equal temperatures is
    promised; the insertion sort below is one admissible order. */
module Extremes {
  import opened Frame

  /** How many samples each list keeps (`head(10)`). */
  const TopCount: nat := 10

  /** a may come before b: hotter-or-equal first when hottestFirst,
      colder-or-equal first otherwise. */
  predicate InOrder(hottestFirst: bool, a: Sample, b: Sample)
  {
    if hottestFirst then TempF(a) >= TempF(b) else TempF(a) <= TempF(b)
  }

  predicate SortedBy(hottestFirst: bool, s: seq<Sample>)
  {
    forall i, j :: 0 <= i < j < |s| ==> InOrder(hottestFirst, s[i], s[j])
  }

  function Insert(hottestFirst: bool, x: Sample, xs: seq<Sample>): seq<Sample>
  {
    if xs == [] then [x]
    else if InOrder(hottestFirst, x, xs[0]) then [x] + xs
    else [xs[0]] + Insert(hottestFirst, x, xs[1..])
  }

  /** Inserting adds exactly x. */
  lemma {:induction false} InsertAddsOne(hottestFirst: bool, x: Sample, xs: seq<Sample>)
    ensures multiset(Insert(hottestFirst, x, xs)) == multiset(xs) + multiset{x}
  {
    if xs != [] && !InOrder(hottestFirst, x, xs[0]) {
      InsertAddsOne(hottestFirst, x, xs[1..]);
      assert xs == [xs[0]] + xs[1..];
    }
  }

  /** A sorted list stays sorted behind an element that may precede all of it. */
  lemma SortedCons(hottestFirst: bool, a: Sample, xs: seq<Sample>)
    requires SortedBy(hottestFirst, xs)
    requires forall y :: y in xs ==> InOrder(hottestFirst, a, y)
    ensures SortedBy(hottestFirst, [a] + xs)
  {
    forall i, j | 0 <= i < j < |[a] + xs|
      ensures InOrder(hottestFirst, ([a] + xs)[i], ([a] + xs)[j])
    {
      assert ([a] + xs)[j] == xs[j - 1];
      if i > 0 {
        assert ([a] + xs)[i] == xs[i - 1];
      }
    }
  }

  /** Inserting into a sorted list keeps it sorted. */
  lemma {:induction false} InsertSorted(hottestFirst: bool, x: Sample, xs: seq<Sample>)
    requires SortedBy(hottestFirst, xs)
    ensures SortedBy(hottestFirst, Insert(hottestFirst, x, xs))
  {
    if xs == [] {
    } else if InOrder(hottestFirst, x, xs[0]) {
      forall y | y in xs
        ensures InOrder(hottestFirst, x, y)
      {
        var j :| 0 <= j < |xs| && xs[j] == y;
        if j > 0 {
          assert InOrder(hottestFirst, xs[0], xs[j]);
        }
      }
      SortedCons(hottestFirst, x, xs);
    } else {
      var tail := xs[1..];
      var rest := Insert(hottestFirst, x, tail);
      assert SortedBy(hottestFirst, tail) by {
        forall i, j | 0 <= i < j < |tail|
          ensures InOrder(hottestFirst, tail[i], tail[j])
        {
          assert tail[i] == xs[i + 1] && tail[j] == xs[j + 1];
        }
      }
      InsertSorted(hottestFirst, x, tail);
      InsertAddsOne(hottestFirst, x, tail);
      forall y | y in rest
        ensures InOrder(hottestFirst, xs[0], y)
      {
        assert y in multiset(rest);
        if y != x {
          assert y in multiset(tail);
          var j :| 0 <= j < |tail| && tail[j] == y;
          assert xs[j + 1] == y;
        }
      }
      SortedCons(hottestFirst, xs[0], rest);
    }
  }

  /** `sort_values(by='temp_f')`, by insertion. */
  function SortByTemp(hottestFirst: bool, s: seq<Sample>): seq<Sample>
  {
    if s == [] then [] else Insert(hottestFirst, s[0], SortByTemp(hottestFirst, s[1..]))
  }

  /** The sort orders by temperature and is a permutation of its input. */
  lemma {:induction false} SortByTempSorts(hottestFirst: bool, s: seq<Sample>)
    ensures SortedBy(hottestFirst, SortByTemp(hottestFirst, s))
    ensures multiset(SortByTemp(hottestFirst, s)) == multiset(s)
  {
    if s != [] {
      SortByTempSorts(hottestFirst, s[1..]);
      InsertSorted(hottestFirst, s[0], SortByTemp(hottestFirst, s[1..]));
      InsertAddsOne(hottestFirst, s[0], SortByTemp(hottestFirst, s[1..]));
      assert s == [s[0]] + s[1..];
    }
  }

  /** `head(10)` of the sorted samples. */
  function Top(hottestFirst: bool, s: seq<Sample>): seq<Sample>
  {
    var sorted := SortByTemp(hottestFirst, s);
    if |sorted| <= TopCount then sorted else sorted[..TopCount]
  }

  /** The selection keeps min(10, n) samples, in order, drawn from the input
      without duplication, and no sample left out comes before one kept. */
  lemma TopSelects(hottestFirst: bool, s: seq<Sample>)
    ensures |Top(hottestFirst, s)| == if |s| <= TopCount then |s| else TopCount
    ensures SortedBy(hottestFirst, Top(hottestFirst, s))
    ensures multiset(Top(hottestFirst, s)) <= multiset(s)
    ensures forall x, y :: x in multiset(s) - multiset(Top(hottestFirst, s)) && y in Top(hottestFirst, s) ==>
              InOrder(hottestFirst, y, x)
  {
    var sorted := SortByTemp(hottestFirst, s);
    SortByTempSorts(hottestFirst, s);
    assert |sorted| == |multiset(sorted)| == |s|;
    var k := if |sorted| <= TopCount then |sorted| else TopCount;
    var top := Top(hottestFirst, s);
    var rest := sorted[k..];
    assert top == sorted[..k];
    assert sorted == top + rest;
    assert multiset(s) == multiset(top) + multiset(rest);
    forall x, y | x in multiset(s) - multiset(top) && y in top
      ensures InOrder(hottestFirst, y, x)
    {
      assert x in multiset(rest);
      var j :| 0 <= j < |rest| && rest[j] == x;
      var i :| 0 <= i < |top| && top[i] == y;
      assert sorted[i] == y && sorted[k + j] == x;
    }
  }

  /** Line 360: the ten hottest samples. */
  function Hottest(s: seq<Sample>): seq<Sample>
  {
    Top(true, s)
  }

  /** Line 364: the ten coldest samples. */
  function Coldest(s: seq<Sample>): seq<Sample>
  {
    Top(false, s)
  }

  /** The hottest list has min(10, n) samples, non-increasing in
      temperature, drawn from the input, and no sample left out is hotter
      than one kept. */
  lemma HottestSamples(s: seq<Sample>)
    ensures |Hottest(s)| == if |s| <= 10 then |s| else 10
    ensures forall i, j :: 0 <= i < j < |Hottest(s)| ==> TempF(Hottest(s)[i]) >= TempF(Hottest(s)[j])
    ensures multiset(Hottest(s)) <= multiset(s)
    ensures forall x, y :: x in multiset(s) - multiset(Hottest(s)) && y in Hottest(s) ==> TempF(x) <= TempF(y)
  {
    var top := Top(true, s);
    TopSelects(true, s);
    forall i, j | 0 <= i < j < |top|
      ensures TempF(top[i]) >= TempF(top[j])
    {
      assert InOrder(true, top[i], top[j]);
    }
    forall x, y | x in multiset(s) - multiset(top) && y in top
      ensures TempF(x) <= TempF(y)
    {
      assert InOrder(true, y, x);
    }
  }

  /** The coldest list mirrors it: non-decreasing, and no sample left out is
      colder than one kept. */
  lemma ColdestSamples(s: seq<Sample>)
    ensures |Coldest(s)| == if |s| <= 10 then |s| else 10
    ensures forall i, j :: 0 <= i < j < |Coldest(s)| ==> TempF(Coldest(s)[i]) <= TempF(Coldest(s)[j])
    ensures multiset(Coldest(s)) <= multiset(s)
    ensures forall x, y :: x in multiset(s) - multiset(Coldest(s)) && y in Coldest(s) ==> TempF(y) <= TempF(x)
  {
    var top := Top(false, s);
    TopSelects(false, s);
    forall i, j | 0 <= i < j < |top|
      ensures TempF(top[i]) <= TempF(top[j])
    {
      assert InOrder(false, top[i], top[j]);
    }
    forall x, y | x in multiset(s) - multiset(top) && y in top
      ensures TempF(y) <= TempF(x)
    {
      assert InOrder(false, y, x);
    }
  }
}
