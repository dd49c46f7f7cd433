/** The sparse, key-sorted group-by that pandas performs for
    `groupby('year')`, `groupby(['year', 'season'])` and
    `groupby(['year', 'month'])`. Each composite key is encoded as one
    integer whose order is the lexicographic order of the key's parts. */
module Grouping {
  import opened Calendar
  import opened Frame
  import opened Stats

  datatype GroupKey = ByYear | BySeason | ByMonth

  function KeyOf(cols: GroupKey, x: Row): int
  {
    match cols
    case ByYear => x.year
    case BySeason => x.year * 4 + SeasonRank(x.season)
    case ByMonth => x.year * 12 + (x.month - 1)
  }

  /** Two rows fall in the same group when they agree on the grouping columns. */
  predicate SameGroup(cols: GroupKey, a: Row, b: Row)
  {
    match cols
    case ByYear => a.year == b.year
    case BySeason => a.year == b.year && a.season == b.season
    case ByMonth => a.year == b.year && a.month == b.month
  }

  /** The order of the grouping columns, year first. */
  predicate GroupBefore(cols: GroupKey, a: Row, b: Row)
  {
    a.year < b.year ||
    (a.year == b.year &&
      match cols
      case ByYear => false
      case BySeason => SeasonRank(a.season) < SeasonRank(b.season)
      case ByMonth => a.month < b.month)
  }

  /** The integer key is faithful: equal exactly for the same group, and
      ordered exactly as the grouping columns are. */
  lemma KeyOfIsFaithful(cols: GroupKey, a: Row, b: Row)
    ensures KeyOf(cols, a) == KeyOf(cols, b) <==> SameGroup(cols, a, b)
    ensures KeyOf(cols, a) < KeyOf(cols, b) <==> GroupBefore(cols, a, b)
  {
    SeasonRankInjective(a.season, b.season);
  }

  predicate StrictlyIncreasing(ks: seq<int>)
  {
    forall i, j :: 0 <= i < j < |ks| ==> ks[i] < ks[j]
  }

  /** Inserts a key into a sorted key list unless it is there already. */
  function InsertKey(ks: seq<int>, k: int): seq<int>
  {
    if ks == [] then [k]
    else if k < ks[0] then [k] + ks
    else if k == ks[0] then ks
    else [ks[0]] + InsertKey(ks[1..], k)
  }

  lemma {:induction false} InsertKeySorted(ks: seq<int>, k: int)
    requires StrictlyIncreasing(ks)
    ensures StrictlyIncreasing(InsertKey(ks, k))
    ensures forall x :: x in InsertKey(ks, k) <==> x in ks || x == k
  {
    if ks != [] && k > ks[0] {
      InsertKeySorted(ks[1..], k);
      assert forall x :: x in InsertKey(ks[1..], k) ==> ks[0] < x;
    }
  }

  /** The distinct keys in ascending order. */
  function SortedKeys(ks: seq<int>): seq<int>
  {
    if ks == [] then [] else InsertKey(SortedKeys(ks[1..]), ks[0])
  }

  lemma {:induction false} SortedKeysSorted(ks: seq<int>)
    ensures StrictlyIncreasing(SortedKeys(ks))
    ensures forall x :: x in SortedKeys(ks) <==> x in ks
  {
    if ks != [] {
      SortedKeysSorted(ks[1..]);
      InsertKeySorted(SortedKeys(ks[1..]), ks[0]);
      assert ks == [ks[0]] + ks[1..];
    }
  }

  function KeysOf(cols: GroupKey, s: seq<Sample>): seq<int>
  {
    if s == [] then [] else [KeyOf(cols, s[0])] + KeysOf(cols, s[1..])
  }

  lemma {:induction false} KeysOfMembers(cols: GroupKey, s: seq<Sample>)
    ensures forall k :: k in KeysOf(cols, s) <==> exists x :: x in s && KeyOf(cols, x) == k
  {
    if s != [] {
      KeysOfMembers(cols, s[1..]);
      assert s == [s[0]] + s[1..];
    }
  }

  /** The group keys of a frame: one per observed combination. */
  function GroupKeys(cols: GroupKey, s: seq<Sample>): seq<int>
  {
    SortedKeys(KeysOf(cols, s))
  }

  /** The keys come in ascending order without repetition, one for each
      combination the frame holds and no other. */
  lemma GroupKeysSorted(cols: GroupKey, s: seq<Sample>)
    ensures StrictlyIncreasing(GroupKeys(cols, s))
    ensures forall k :: k in GroupKeys(cols, s) <==> exists x :: x in s && KeyOf(cols, x) == k
  {
    SortedKeysSorted(KeysOf(cols, s));
    KeysOfMembers(cols, s);
  }

  /** The members of one group, in input order. */
  function Group(cols: GroupKey, s: seq<Sample>, k: int): seq<Sample>
  {
    if s == [] then []
    else (if KeyOf(cols, s[0]) == k then [s[0]] else []) + Group(cols, s[1..], k)
  }

  /** A group holds exactly the frame's samples with its key, each as many
      times as the frame does. */
  lemma {:induction false} GroupMembers(cols: GroupKey, s: seq<Sample>, k: int)
    ensures forall x :: x in Group(cols, s, k) <==> x in s && KeyOf(cols, x) == k
    ensures forall x :: multiset(Group(cols, s, k))[x] == if KeyOf(cols, x) == k then multiset(s)[x] else 0
  {
    if s != [] {
      GroupMembers(cols, s[1..], k);
      assert s == [s[0]] + s[1..];
    }
  }

  /** Every key of the frame names a non-empty group. */
  lemma ObservedGroupIsNonEmpty(cols: GroupKey, s: seq<Sample>, k: int)
    requires k in GroupKeys(cols, s)
    ensures |Group(cols, s, k)| > 0
  {
    GroupKeysSorted(cols, s);
    GroupMembers(cols, s, k);
    var x :| x in s && KeyOf(cols, x) == k;
    assert x in Group(cols, s, k);
  }

  function Temps(s: seq<Sample>): (ts: seq<real>)
    ensures |ts| == |s|
  {
    if s == [] then [] else [TempF(s[0])] + Temps(s[1..])
  }

  lemma {:induction false} TempsAt(s: seq<Sample>)
    ensures forall i :: 0 <= i < |s| ==> Temps(s)[i] == TempF(s[i])
  {
    if s != [] {
      TempsAt(s[1..]);
    }
  }

  /** Where a frame sample with the group's key sits in the group. */
  lemma GroupIndexOf(cols: GroupKey, s: seq<Sample>, k: int, x: Sample) returns (j: nat)
    requires x in s && KeyOf(cols, x) == k
    ensures j < |Group(cols, s, k)| && Group(cols, s, k)[j] == x
    ensures Temps(Group(cols, s, k))[j] == TempF(x)
  {
    var g := Group(cols, s, k);
    GroupMembers(cols, s, k);
    assert x in g;
    j :| 0 <= j < |g| && g[j] == x;
    TempsAt(g);
  }

  /** Each reading with the group's key lies between its min and max. */
  lemma GroupBoundsReadings(cols: GroupKey, s: seq<Sample>, k: int)
    requires |Group(cols, s, k)| > 0
    ensures var ts := Temps(Group(cols, s, k));
      forall x :: x in s && KeyOf(cols, x) == k ==> Min(ts) <= TempF(x) <= Max(ts)
  {
    var ts := Temps(Group(cols, s, k));
    MaxIsGreatest(ts);
    MinIsLeast(ts);
    forall x | x in s && KeyOf(cols, x) == k
      ensures Min(ts) <= TempF(x) <= Max(ts)
    {
      var j := GroupIndexOf(cols, s, k, x);
    }
  }

  /** Some sample with the group's key reads each value of its readings. */
  lemma GroupValueIsRead(cols: GroupKey, s: seq<Sample>, k: int, j: nat)
    requires j < |Group(cols, s, k)|
    ensures exists x :: x in s && KeyOf(cols, x) == k && TempF(x) == Temps(Group(cols, s, k))[j]
  {
    var g := Group(cols, s, k);
    GroupMembers(cols, s, k);
    TempsAt(g);
    assert g[j] in g;
  }

  /** An observed group's max and min bound every reading with its key and
      are each read by such a sample; its mean lies between them. */
  lemma GroupStatsBounds(cols: GroupKey, s: seq<Sample>, k: int)
    requires k in GroupKeys(cols, s)
    ensures |Group(cols, s, k)| > 0
    ensures var ts := Temps(Group(cols, s, k));
      && Min(ts) <= Mean(ts) <= Max(ts)
      && (forall x :: x in s && KeyOf(cols, x) == k ==> Min(ts) <= TempF(x) <= Max(ts))
      && (exists x :: x in s && KeyOf(cols, x) == k && TempF(x) == Max(ts))
      && (exists x :: x in s && KeyOf(cols, x) == k && TempF(x) == Min(ts))
  {
    ObservedGroupIsNonEmpty(cols, s, k);
    var ts := Temps(Group(cols, s, k));
    MeanBetweenMinAndMax(ts);
    GroupBoundsReadings(cols, s, k);
    MaxIsGreatest(ts);
    MinIsLeast(ts);
    var jmax :| 0 <= jmax < |ts| && ts[jmax] == Max(ts);
    GroupValueIsRead(cols, s, k, jmax);
    var jmin :| 0 <= jmin < |ts| && ts[jmin] == Min(ts);
    GroupValueIsRead(cols, s, k, jmin);
  }

  /** The per-group counts above the reference, summed over a key list. */
  function SumCountsAbove(cols: GroupKey, s: seq<Sample>, ks: seq<int>, reference: real): nat
  {
    if ks == [] then 0
    else CountAbove(Temps(Group(cols, s, ks[0])), reference) + SumCountsAbove(cols, s, ks[1..], reference)
  }

  lemma {:induction false} GroupStep(cols: GroupKey, s: seq<Sample>, k: int, reference: real)
    requires s != []
    ensures CountAbove(Temps(Group(cols, s, k)), reference)
         == (if KeyOf(cols, s[0]) == k && TempF(s[0]) > reference then 1 else 0)
            + CountAbove(Temps(Group(cols, s[1..], k)), reference)
  {
    if KeyOf(cols, s[0]) == k {
      var g := Group(cols, s, k);
      assert g == [s[0]] + Group(cols, s[1..], k);
      assert Temps(g)[1..] == Temps(Group(cols, s[1..], k));
    } else {
      assert Group(cols, s, k) == Group(cols, s[1..], k);
    }
  }

  lemma {:induction false} SumCountsStep(cols: GroupKey, s: seq<Sample>, ks: seq<int>, reference: real)
    requires s != []
    requires StrictlyIncreasing(ks)
    ensures SumCountsAbove(cols, s, ks, reference)
         == SumCountsAbove(cols, s[1..], ks, reference)
            + (if KeyOf(cols, s[0]) in ks && TempF(s[0]) > reference then 1 else 0)
  {
    if ks != [] {
      GroupStep(cols, s, ks[0], reference);
      SumCountsStep(cols, s, ks[1..], reference);
      assert KeyOf(cols, s[0]) == ks[0] ==> KeyOf(cols, s[0]) !in ks[1..];
    }
  }

  lemma {:induction false} SumCountsEmpty(cols: GroupKey, ks: seq<int>, reference: real)
    ensures SumCountsAbove(cols, [], ks, reference) == 0
  {
    if ks != [] {
      SumCountsEmpty(cols, ks[1..], reference);
    }
  }

  /** The groups partition the frame: counting above the reference group by
      group over all keys gives the count over the whole frame. */
  lemma {:induction false} SumCountsPartition(cols: GroupKey, s: seq<Sample>, ks: seq<int>, reference: real)
    requires StrictlyIncreasing(ks)
    requires forall x :: x in s ==> KeyOf(cols, x) in ks
    ensures SumCountsAbove(cols, s, ks, reference) == CountAbove(Temps(s), reference)
  {
    if s == [] {
      SumCountsEmpty(cols, ks, reference);
    } else {
      SumCountsStep(cols, s, ks, reference);
      SumCountsPartition(cols, s[1..], ks, reference);
      assert Temps(s)[1..] == Temps(s[1..]);
    }
  }
}
