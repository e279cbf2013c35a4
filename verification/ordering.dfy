/**
 * Sorting slides by index and normalizing the indices to 0..n-1.
 *
 * The source sorts with an unstable library sort whose comparator returns
 * 0 for equal indices, so the relative order of two slides with the same
 * index is not fixed. This model sorts with a stable insertion sort: it is
 * one of the orders the source may produce, and every property stated here
 * about slides with distinct indices holds of all of them.
 */
module Ordering {
  import opened Outcome
  import opened Slides

  /** Each slide's index is at most the next one's. */
  predicate SortedByIndex(ss: seq<Slide>) {
    forall i :: 0 < i < |ss| ==> ss[i-1].index <= ss[i].index
  }

  /** In a sorted sequence, any earlier slide has an index at most any later one's. */
  lemma {:induction false} SortedOrdered(ss: seq<Slide>, i: nat, j: nat)
    requires SortedByIndex(ss)
    requires i <= j < |ss|
    ensures ss[i].index <= ss[j].index
    decreases j - i
  {
    if i < j {
      SortedOrdered(ss, i, j - 1);
    }
  }

  /** No two slides share an identifier (they are the entries of one directory). */
  predicate UniqueIds(ss: seq<Slide>) {
    forall i, j :: 0 <= i < j < |ss| ==> ss[i].id != ss[j].id
  }

  /** The identifiers of `ss`, in order. */
  function Ids(ss: seq<Slide>): (r: seq<string>)
    ensures |r| == |ss|
    ensures forall i :: 0 <= i < |ss| ==> r[i] == ss[i].id
  {
    seq(|ss|, i requires 0 <= i < |ss| => ss[i].id)
  }

  /** No identifier occurs twice. */
  predicate Distinct(xs: seq<string>) {
    forall i, j :: 0 <= i < j < |xs| ==> xs[i] != xs[j]
  }

  /** Taking identifiers commutes with concatenation. */
  lemma IdsAppend(a: seq<Slide>, b: seq<Slide>)
    ensures Ids(a + b) == Ids(a) + Ids(b)
  {
    var l, r := Ids(a + b), Ids(a) + Ids(b);
    assert forall i :: 0 <= i < |l| ==> l[i] == r[i] by {
      forall i | 0 <= i < |l|
        ensures l[i] == r[i]
      {
        if i < |a| {
          assert (a + b)[i] == a[i];
        } else {
          assert (a + b)[i] == b[i - |a|];
        }
      }
    }
  }

  /** Two arrangements of the same slides carry the same identifiers, counted with multiplicity. */
  lemma {:induction false} IdsByMultiset(a: seq<Slide>, b: seq<Slide>)
    requires multiset(a) == multiset(b)
    ensures multiset(Ids(a)) == multiset(Ids(b))
    decreases |a|
  {
    if |a| == 0 {
      assert |multiset(b)| == 0;
    } else {
      assert a[0] in multiset(b);
      var p :| 0 <= p < |b| && b[p] == a[0];
      var b' := b[..p] + b[p+1..];
      assert b == b[..p] + [b[p]] + b[p+1..];
      assert a == [a[0]] + a[1..];
      assert multiset(b') == multiset(b) - multiset{a[0]};
      assert multiset(a[1..]) == multiset(a) - multiset{a[0]};
      IdsByMultiset(a[1..], b');
      IdsAppend(b[..p] + [b[p]], b[p+1..]);
      IdsAppend(b[..p], [b[p]]);
      IdsAppend(b[..p], b[p+1..]);
      IdsAppend([a[0]], a[1..]);
    }
  }

  /** A sequence without repeats holds each value at most once. */
  lemma {:induction false} DistinctCounts(xs: seq<string>, v: string)
    requires Distinct(xs)
    ensures multiset(xs)[v] <= 1
    decreases |xs|
  {
    if |xs| > 0 {
      assert xs == [xs[0]] + xs[1..];
      assert Distinct(xs[1..]) by {
        forall i, j | 0 <= i < j < |xs| - 1
          ensures xs[1..][i] != xs[1..][j]
        {
          assert xs[1..][i] == xs[i + 1] && xs[1..][j] == xs[j + 1];
        }
      }
      DistinctCounts(xs[1..], v);
      if xs[0] == v {
        assert v !in xs[1..];
      }
    }
  }

  /** A value at two positions is counted at least twice. */
  lemma RepeatCounts(xs: seq<string>, i: nat, j: nat)
    requires i < j < |xs|
    ensures xs[i] == xs[j] ==> multiset(xs)[xs[i]] >= 2
  {
    assert xs == xs[..i] + [xs[i]] + xs[i+1..j] + [xs[j]] + xs[j+1..];
  }

  /** Having no repeats depends only on the multiset of values. */
  lemma DistinctByMultiset(xs: seq<string>, ys: seq<string>)
    requires multiset(xs) == multiset(ys) && Distinct(ys)
    ensures Distinct(xs)
  {
    forall i, j | 0 <= i < j < |xs|
      ensures xs[i] != xs[j]
    {
      RepeatCounts(xs, i, j);
      DistinctCounts(ys, xs[i]);
    }
  }

  /** Slides that are a rearrangement of slides with distinct identifiers, indices aside, have distinct identifiers too. */
  lemma UniqueIdsByContent(a: seq<Slide>, b: seq<Slide>)
    requires multiset(UnindexedAll(a)) == multiset(UnindexedAll(b))
    requires Distinct(Ids(b))
    ensures UniqueIds(a)
  {
    IdsByMultiset(UnindexedAll(a), UnindexedAll(b));
    assert Ids(UnindexedAll(a)) == Ids(a);
    assert Ids(UnindexedAll(b)) == Ids(b);
    DistinctByMultiset(Ids(a), Ids(b));
  }

  /** The indices of `ss` are exactly 0..|ss|-1, each used once. */
  predicate DenseIndices(ss: seq<Slide>) {
    && (forall i :: 0 <= i < |ss| ==> 0 <= ss[i].index < |ss|)
    && (forall i, j :: 0 <= i < j < |ss| ==> ss[i].index != ss[j].index)
  }

  /** A slide with its index blanked: what must survive a renumbering unchanged. */
  function Unindexed(s: Slide): Slide {
    s.(index := 0)
  }

  function UnindexedAll(ss: seq<Slide>): (r: seq<Slide>)
    ensures |r| == |ss|
    ensures forall i :: 0 <= i < |ss| ==> r[i] == Unindexed(ss[i])
  {
    if |ss| == 0 then [] else [Unindexed(ss[0])] + UnindexedAll(ss[1..])
  }

  /** Blanking indices commutes with concatenation. */
  lemma UnindexedAllAppend(a: seq<Slide>, b: seq<Slide>)
    ensures UnindexedAll(a + b) == UnindexedAll(a) + UnindexedAll(b)
  {
    var l, r := UnindexedAll(a + b), UnindexedAll(a) + UnindexedAll(b);
    assert forall i :: 0 <= i < |l| ==> l[i] == r[i] by {
      forall i | 0 <= i < |l|
        ensures l[i] == r[i]
      {
        if i < |a| {
          assert (a + b)[i] == a[i];
        } else {
          assert (a + b)[i] == b[i - |a|];
        }
      }
    }
  }

  /** Inserts `x` before the first slide whose index is not smaller. */
  function Insert(x: Slide, ss: seq<Slide>): (r: seq<Slide>)
    requires SortedByIndex(ss)
    ensures SortedByIndex(r)
    ensures multiset(r) == multiset(ss) + multiset{x}
    ensures |r| == |ss| + 1
    ensures r[0] == x || (|ss| > 0 && r[0] == ss[0])
  {
    if |ss| == 0 then [x]
    else if x.index <= ss[0].index then [x] + ss
    else
      var tail := Insert(x, ss[1..]);
      assert multiset(ss) == multiset{ss[0]} + multiset(ss[1..]) by {
        assert ss == [ss[0]] + ss[1..];
      }
      assert ss[0].index <= tail[0].index;
      [ss[0]] + tail
  }

  /** The slides ordered by index (the source's sort by index). */
  function SortByIndex(ss: seq<Slide>): (r: seq<Slide>)
    ensures SortedByIndex(r)
    ensures multiset(r) == multiset(ss)
    ensures |r| == |ss|
  {
    if |ss| == 0 then []
    else
      assert ss == [ss[0]] + ss[1..];
      Insert(ss[0], SortByIndex(ss[1..]))
  }

  lemma UnindexedAllCons(x: Slide, ss: seq<Slide>)
    ensures UnindexedAll([x] + ss) == [Unindexed(x)] + UnindexedAll(ss)
  {
  }

  /** Inserting keeps every slide's non-index content: the blanked slides form the same multiset. */
  lemma {:induction false} InsertKeepsContent(x: Slide, ss: seq<Slide>)
    requires SortedByIndex(ss)
    ensures multiset(UnindexedAll(Insert(x, ss))) == multiset(UnindexedAll(ss)) + multiset{Unindexed(x)}
    decreases |ss|
  {
    if |ss| == 0 {
    } else if x.index <= ss[0].index {
      assert Insert(x, ss) == [x] + ss;
      UnindexedAllCons(x, ss);
    } else {
      assert Insert(x, ss) == [ss[0]] + Insert(x, ss[1..]);
      InsertKeepsContent(x, ss[1..]);
      MultisetCons(ss, Insert(x, ss[1..]), Unindexed(x));
    }
  }

  /** One step of the content induction: putting the first slide of `ss` back in front. */
  lemma MultisetCons(ss: seq<Slide>, a: seq<Slide>, y: Slide)
    requires |ss| > 0
    requires multiset(UnindexedAll(a)) == multiset(UnindexedAll(ss[1..])) + multiset{y}
    ensures multiset(UnindexedAll([ss[0]] + a)) == multiset(UnindexedAll(ss)) + multiset{y}
  {
    UnindexedAllCons(ss[0], a);
    assert UnindexedAll(ss) == [Unindexed(ss[0])] + UnindexedAll(ss[1..]);
  }

  lemma {:induction false} SortKeepsContent(ss: seq<Slide>)
    ensures multiset(UnindexedAll(SortByIndex(ss))) == multiset(UnindexedAll(ss))
    decreases |ss|
  {
    if |ss| > 0 {
      SortKeepsContent(ss[1..]);
      InsertKeepsContent(ss[0], SortByIndex(ss[1..]));
      UnindexedAllCons(ss[0], ss[1..]);
    }
  }

  /**
   * The renumbering loop of the normalizer: the slide at position j is
   * given index `from + j` through the index setter, stopping at the first
   * index the setter rejects.
   */
  function Renumber(ss: seq<Slide>, from: int, lim: Limits): (r: Result<seq<Slide>>)
    requires from >= 0
    ensures r.Ok? <==> |ss| == 0 || from + |ss| - 1 <= lim.maxIndex
    ensures r.Ok? ==> |r.value| == |ss|
    ensures r.Ok? ==> forall j :: 0 <= j < |ss| ==> r.value[j] == ss[j].(index := from + j)
    ensures r.Err? ==> r.error == Validation(IndexField, OutOfRange)
    decreases |ss|
  {
    if |ss| == 0 then Ok([])
    else
      var first :- SetIndex(ss[0], from, lim);
      var rest :- Renumber(ss[1..], from + 1, lim);
      Ok([first] + rest)
  }

  /** Sorts the slides by index and rewrites the indices to their positions. */
  function Normalize(ss: seq<Slide>, lim: Limits): (r: Result<seq<Slide>>)
    ensures r.Ok? <==> |ss| == 0 || |ss| <= lim.maxIndex + 1
    ensures r.Ok? ==> |r.value| == |ss| && forall j :: 0 <= j < |ss| ==> r.value[j].index == j
    ensures r.Err? ==> r.error == Validation(IndexField, OutOfRange)
  {
    Renumber(SortByIndex(ss), 0, lim)
  }

  /** Renumbering from 0 keeps everything but the index, so it maps sorted input to a permutation of it. */
  lemma RenumberKeepsContent(ss: seq<Slide>, lim: Limits)
    requires Renumber(ss, 0, lim).Ok?
    ensures UnindexedAll(Renumber(ss, 0, lim).value) == UnindexedAll(ss)
  {
    var r := Renumber(ss, 0, lim).value;
    assert forall j :: 0 <= j < |ss| ==> Unindexed(r[j]) == Unindexed(ss[j]);
  }

  /**
   * The normalized slides are the input slides, each exactly once, with
   * only `index` changed; their indices are dense, and they are in index
   * order of the input: position j holds the j-th slide of the sorted input.
   */
  lemma NormalizeIsPermutation(ss: seq<Slide>, lim: Limits)
    requires Normalize(ss, lim).Ok?
    ensures var r := Normalize(ss, lim).value;
            && multiset(UnindexedAll(r)) == multiset(UnindexedAll(ss))
            && DenseIndices(r)
            && (forall j :: 0 <= j < |r| ==> r[j] == SortByIndex(ss)[j].(index := j))
  {
    RenumberKeepsContent(SortByIndex(ss), lim);
    SortKeepsContent(ss);
  }

  /** Position j of the normalized slides holds the j-th slide of the sorted input, renumbered to j. */
  lemma NormalizeIsRenumberedSort(ss: seq<Slide>, lim: Limits)
    requires Normalize(ss, lim).Ok?
    ensures forall j :: 0 <= j < |ss| ==> Normalize(ss, lim).value[j] == SortByIndex(ss)[j].(index := j)
  {
  }

  /** Among the slides of a permutation with unique ids, an id determines the slide. */
  lemma SameIdSameSlide(ss: seq<Slide>, t: seq<Slide>, x: nat, p: nat)
    requires UniqueIds(ss) && multiset(t) == multiset(ss)
    requires x < |t| && p < |ss| && t[x].id == ss[p].id
    ensures t[x] == ss[p]
  {
    assert t[x] in multiset(ss);
    var p' :| 0 <= p' < |ss| && ss[p'] == t[x];
    assert ss[p'].id == ss[p].id;
  }

  /**
   * Normalization keeps the relative order of slides with distinct indices:
   * if slide p had a smaller index than slide q, p ends up before q, hence
   * with the smaller new index.
   */
  lemma NormalizeKeepsOrder(ss: seq<Slide>, lim: Limits, p: nat, q: nat)
    requires UniqueIds(ss)
    requires |ss| <= lim.maxIndex + 1
    requires p < |ss| && q < |ss| && ss[p].index < ss[q].index
    ensures var r := Normalize(ss, lim).value;
            forall x, y :: 0 <= x < |r| && 0 <= y < |r| && r[x].id == ss[p].id && r[y].id == ss[q].id ==>
              x < y && r[x].index < r[y].index
  {
    var t := SortByIndex(ss);
    var r := Normalize(ss, lim).value;
    NormalizeIsPermutation(ss, lim);
    forall x, y | 0 <= x < |r| && 0 <= y < |r| && r[x].id == ss[p].id && r[y].id == ss[q].id
      ensures x < y && r[x].index < r[y].index
    {
      SameIdSameSlide(ss, t, x, p);
      SameIdSameSlide(ss, t, y, q);
      if y <= x {
        SortedOrdered(t, y, x);
      }
    }
  }

  /** Normalizing an already dense, index-ordered collection changes nothing. */
  lemma {:induction false} NormalizeDenseSortedIsIdentity(ss: seq<Slide>, lim: Limits)
    requires forall j :: 0 <= j < |ss| ==> ss[j].index == j
    requires |ss| <= lim.maxIndex + 1
    ensures Normalize(ss, lim) == Ok(ss)
  {
    assert SortedByIndex(ss);
    SortedIsFixpoint(ss);
    assert Renumber(ss, 0, lim).Ok?;
    var r := Renumber(ss, 0, lim).value;
    assert forall j :: 0 <= j < |ss| ==> r[j] == ss[j].(index := j) == ss[j];
    assert r == ss;
  }

  lemma {:induction false} SortedIsFixpoint(ss: seq<Slide>)
    requires SortedByIndex(ss)
    ensures SortByIndex(ss) == ss
    decreases |ss|
  {
    if |ss| > 0 {
      SortedIsFixpoint(ss[1..]);
      assert ss == [ss[0]] + ss[1..];
    }
  }
}
