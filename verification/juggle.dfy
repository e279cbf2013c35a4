/**
 * The index juggler: renumbers all slides so that one slide (the kept
 * one) holds the position it was given while the others are normalized
 * around it.
 *
 * `JuggleAsWritten` follows the source statement by statement, including
 * its placement of the kept slide when no other slide holds its index.
 * `Juggle` is the same pass with that placement corrected to "one past the
 * last slide", which is what the source's own comment describes.
 */
module IndexJuggler {
  import opened Outcome
  import opened Slides
  import opened Ordering

  /** PHP's `empty()` on a string: true for "" and also for "0". */
  predicate IsEmptyId(id: string) {
    id == "" || id == "0"
  }

  /** Every slide has an index the index setter accepts, as every loaded slide does. */
  predicate IndicesValid(ss: seq<Slide>, lim: Limits) {
    forall i :: 0 <= i < |ss| ==> ValidIndex(ss[i].index, lim)
  }

  /** The working set with the kept slide taken out (`keep` is None when no slide has the id). */
  datatype Split = Split(keep: Option<Slide>, rest: seq<Slide>)

  /** The result of a pass: the other slides in their final order, and the kept slide. */
  datatype Juggled = Juggled(others: seq<Slide>, keep: Option<Slide>)

  /** The slides a pass writes back: the others in order, then the kept slide. */
  function Written(j: Juggled): (w: seq<Slide>)
    ensures |w| == |j.others| + (if j.keep.Some? then 1 else 0)
  {
    j.others + (if j.keep.Some? then [j.keep.value] else [])
  }

  /** The state of the shifting loop: the slides so far, the last index written (`$i`) and whether one clashed. */
  datatype Shifted = Shifted(slides: seq<Slide>, last: int, clash: bool)

  /** The position of the first slide with identifier `id`, or |ss| when there is none. */
  function FirstWithId(ss: seq<Slide>, id: string): (p: nat)
    ensures p <= |ss|
    ensures p < |ss| ==> ss[p].id == id
    ensures forall i :: 0 <= i < p ==> ss[i].id != id
  {
    if |ss| == 0 then 0
    else if ss[0].id == id then 0
    else 1 + FirstWithId(ss[1..], id)
  }

  /** Removes the first slide with identifier `keepId`, keeping the others in order. */
  function TakeOut(ss: seq<Slide>, keepId: string): (r: Split)
    ensures r.keep.Some? <==> exists i :: 0 <= i < |ss| && ss[i].id == keepId
    ensures r.keep.None? ==> r.rest == ss
    ensures r.keep.Some? ==> r.keep.value.id == keepId && |r.rest| == |ss| - 1
    ensures r.keep.Some? ==> multiset(ss) == multiset(r.rest) + multiset{r.keep.value}
    ensures r.keep.Some? ==> var p := FirstWithId(ss, keepId); r.keep.value == ss[p] && r.rest == ss[..p] + ss[p+1..]
  {
    var p := FirstWithId(ss, keepId);
    if p == |ss| then Split(None, ss)
    else
      assert ss == ss[..p] + [ss[p]] + ss[p+1..];
      Split(Some(ss[p]), ss[..p] + ss[p+1..])
  }

  /** One slide after the shifting loop has passed it: moved up by one if its index is at least `k`. */
  function Bump(s: Slide, k: int): Slide {
    if s.index >= k then s.(index := s.index + 1) else s
  }

  /** The index setter accepts the slide's shifted index (or the slide is not shifted). */
  predicate BumpAllowed(s: Slide, k: int, lim: Limits) {
    s.index >= k ==> ValidIndex(s.index + 1, lim)
  }

  /**
   * The shifting loop over the normalized slides: every slide whose index
   * is at least `k` is moved up by one through the index setter, `last`
   * becomes the index just written, and `clash` records whether some slide
   * had exactly index `k`.
   */
  function ShiftFrom(ss: seq<Slide>, k: int, last: int, clash: bool, lim: Limits): (r: Result<Shifted>)
    ensures r.Ok? <==> forall j :: 0 <= j < |ss| ==> BumpAllowed(ss[j], k, lim)
    ensures r.Ok? ==> |r.value.slides| == |ss|
    ensures r.Ok? ==> forall j :: 0 <= j < |ss| ==> r.value.slides[j] == Bump(ss[j], k)
    ensures r.Err? ==> r.error == Validation(IndexField, OutOfRange)
    decreases |ss|
  {
    if |ss| == 0 then Ok(Shifted([], last, clash))
    else
      var s' :- ShiftOne(ss[0], k, lim);
      var tail :- ShiftFrom(ss[1..], k, LastAfter(ss[0], k, last), clash || ss[0].index == k, lim);
      Ok(Shifted([s'] + tail.slides, tail.last, tail.clash))
  }

  /** One iteration's write: the slide's index moved up by one through the setter when it is at least `k`. */
  function ShiftOne(s: Slide, k: int, lim: Limits): (r: Result<Slide>)
    ensures r.Ok? <==> BumpAllowed(s, k, lim)
    ensures r.Ok? ==> r.value == Bump(s, k)
    ensures r.Err? ==> r.error == Validation(IndexField, OutOfRange)
  {
    if s.index >= k then SetIndex(s, s.index + 1, lim) else Ok(s)
  }

  /** `$i` after one iteration: the index just written, or unchanged when nothing was written. */
  function LastAfter(s: Slide, k: int, last: int): int {
    if s.index >= k then s.index + 1 else last
  }

  /** The loop's clash flag ends up set exactly when it started set or some slide has index `k`. */
  lemma {:induction false} ShiftFromClash(ss: seq<Slide>, k: int, last: int, clash: bool, lim: Limits)
    requires ShiftFrom(ss, k, last, clash, lim).Ok?
    ensures ShiftFrom(ss, k, last, clash, lim).value.clash <==> clash || exists j :: 0 <= j < |ss| && ss[j].index == k
    decreases |ss|
  {
    if |ss| > 0 {
      var s := ss[0];
      var last' := LastAfter(s, k, last);
      var tail := ShiftFrom(ss[1..], k, last', clash || s.index == k, lim);
      assert tail.Ok? && ShiftFrom(ss, k, last, clash, lim).value.clash == tail.value.clash;
      ShiftFromClash(ss[1..], k, last', clash || s.index == k, lim);
      if exists j :: 0 <= j < |ss| && ss[j].index == k {
        var j :| 0 <= j < |ss| && ss[j].index == k;
        assert j == 0 || ss[1..][j-1].index == k;
      }
    }
  }

  /** `last` is left alone when the loop shifts no slide. */
  lemma {:induction false} ShiftFromKeepsLast(ss: seq<Slide>, k: int, last: int, clash: bool, lim: Limits)
    requires ShiftFrom(ss, k, last, clash, lim).Ok?
    requires forall j :: 0 <= j < |ss| ==> ss[j].index < k
    ensures ShiftFrom(ss, k, last, clash, lim).value.last == last
    decreases |ss|
  {
    if |ss| > 0 {
      var tail := ShiftFrom(ss[1..], k, last, clash || ss[0].index == k, lim);
      assert ss[0].index < k;
      assert tail.Ok? && ShiftFrom(ss, k, last, clash, lim).value.last == tail.value.last;
      assert forall j :: 0 <= j < |ss[1..]| ==> ss[1..][j].index < k;
      ShiftFromKeepsLast(ss[1..], k, last, clash || ss[0].index == k, lim);
    }
  }

  /** When the last slide is shifted, `last` ends as the index written for it. */
  lemma {:induction false} ShiftFromLastWritten(ss: seq<Slide>, k: int, last: int, clash: bool, lim: Limits)
    requires ShiftFrom(ss, k, last, clash, lim).Ok?
    requires |ss| > 0 && ss[|ss|-1].index >= k
    ensures ShiftFrom(ss, k, last, clash, lim).value.last == ss[|ss|-1].index + 1
    decreases |ss|
  {
    var s := ss[0];
    var last' := LastAfter(s, k, last);
    var tail := ShiftFrom(ss[1..], k, last', clash || s.index == k, lim);
    assert tail.Ok? && ShiftFrom(ss, k, last, clash, lim).value.last == tail.value.last;
    if |ss| > 1 {
      assert ss[|ss|-1] == ss[1..][|ss[1..]|-1];
      ShiftFromLastWritten(ss[1..], k, last', clash || s.index == k, lim);
    }
  }

  /**
   * The pass as the source writes it. With an empty `keepId` it only
   * normalizes. Otherwise it takes the kept slide out, normalizes the rest,
   * shifts them up from the kept slide's index, and, when no slide clashed,
   * sets the kept slide's index to `last + 1`. A non-empty `keepId` that no
   * slide has ends in a call on the NULL kept slide.
   */
  function JuggleAsWritten(ss: seq<Slide>, keepId: string, lim: Limits): (r: Result<Juggled>)
    ensures IsEmptyId(keepId) && r.Ok? ==> r.value.keep.None? && |r.value.others| == |ss|
    ensures !IsEmptyId(keepId) && r.Ok? ==> r.value.keep.Some? && r.value.keep.value.id == keepId
    ensures r.Ok? ==> |r.value.others| + (if r.value.keep.Some? then 1 else 0) == |ss|
  {
    if IsEmptyId(keepId) then
      var n :- Normalize(ss, lim);
      Ok(Juggled(n, None))
    else
      var split := TakeOut(ss, keepId);
      var n :- Normalize(split.rest, lim);
      if split.keep.None? then Err(NullKeep)
      else PlaceAsWritten(n, split.keep.value, lim)
  }

  /**
   * The last step of the pass as written, on the normalized others `n`: the
   * shifting loop, then, if nothing clashed, the kept slide set to
   * `last + 1`.
   */
  function PlaceAsWritten(n: seq<Slide>, keep: Slide, lim: Limits): (r: Result<Juggled>)
    ensures r.Ok? ==> r.value.keep.Some? && r.value.keep.value.(index := keep.index) == keep
    ensures r.Ok? ==> |r.value.others| == |n|
    ensures r.Ok? ==> forall j :: 0 <= j < |n| ==> r.value.others[j] == Bump(n[j], keep.index)
  {
    var sh :- ShiftFrom(n, keep.index, 0, false, lim);
    if !sh.clash then
      var keep' :- SetIndex(keep, sh.last + 1, lim);
      Ok(Juggled(sh.slides, Some(keep')))
    else
      Ok(Juggled(sh.slides, Some(keep)))
  }


  /**
   * The pass with the kept slide placed as the source's comment says when
   * no other slide holds its index: as the last one, at the index one past
   * the normalized others (their count).
   */
  function Juggle(ss: seq<Slide>, keepId: string, lim: Limits): (r: Result<Juggled>)
    ensures IsEmptyId(keepId) && r.Ok? ==> r.value.keep.None? && |r.value.others| == |ss|
    ensures !IsEmptyId(keepId) && r.Ok? ==> r.value.keep.Some? && r.value.keep.value.id == keepId
    ensures !IsEmptyId(keepId) && TakeOut(ss, keepId).keep.None? ==> r.Err?
    ensures r.Ok? ==> |r.value.others| + (if r.value.keep.Some? then 1 else 0) == |ss|
  {
    if IsEmptyId(keepId) then
      var n :- Normalize(ss, lim);
      Ok(Juggled(n, None))
    else
      var split := TakeOut(ss, keepId);
      var n :- Normalize(split.rest, lim);
      if split.keep.None? then Err(NullKeep)
      else Place(n, split.keep.value, lim)
  }

  /** The placement corrected: after the shifting loop an unclashed kept slide goes one past the others. */
  function Place(n: seq<Slide>, keep: Slide, lim: Limits): (r: Result<Juggled>)
    ensures r.Ok? ==> r.value.keep.Some? && r.value.keep.value.(index := keep.index) == keep
    ensures r.Ok? ==> |r.value.others| == |n|
    ensures r.Ok? ==> forall j :: 0 <= j < |n| ==> r.value.others[j] == Bump(n[j], keep.index)
  {
    var sh :- ShiftFrom(n, keep.index, 0, false, lim);
    if !sh.clash then
      var keep' :- SetIndex(keep, |sh.slides|, lim);
      Ok(Juggled(sh.slides, Some(keep')))
    else
      Ok(Juggled(sh.slides, Some(keep)))
  }


  /**
   * The shifting loop over normalized slides (index = position) with the
   * kept slide's index k >= 0: it clashes exactly when k is below the
   * count, moves exactly the slides at positions k and beyond, and leaves
   * `last` at the count when it moved any (at 0 otherwise).
   */
  lemma ShiftNormalized(n: seq<Slide>, k: int, lim: Limits)
    requires forall j :: 0 <= j < |n| ==> n[j].index == j
    requires k >= 0
    ensures ShiftFrom(n, k, 0, false, lim).Ok? <==> k >= |n| || |n| <= lim.maxIndex
    ensures var r := ShiftFrom(n, k, 0, false, lim);
            r.Ok? ==>
              && (r.value.clash <==> k < |n|)
              && r.value.last == (if k < |n| then |n| else 0)
              && (forall j :: 0 <= j < |n| ==> r.value.slides[j] == n[j].(index := if j < k then j else j + 1))
  {
    var r := ShiftFrom(n, k, 0, false, lim);
    if r.Ok? {
      ShiftFromClash(n, k, 0, false, lim);
      if k < |n| {
        assert n[k].index == k;
        ShiftFromLastWritten(n, k, 0, false, lim);
      } else {
        ShiftFromKeepsLast(n, k, 0, false, lim);
      }
    } else {
      var j :| 0 <= j < |n| && !BumpAllowed(n[j], k, lim);
      assert n[j].index == j;
    }
  }

  /** Indices i (below k) stay and indices at least k move up one, then k is added: that is 0..N exactly. */
  lemma InsertionIsDense(others: seq<Slide>, keep: Slide, k: int)
    requires 0 <= k <= |others|
    requires forall j :: 0 <= j < |others| ==> others[j].index == if j < k then j else j + 1
    requires keep.index == k
    ensures DenseIndices(others + [keep])
  {
    var all := others + [keep];
    assert forall j :: 0 <= j < |others| ==> all[j] == others[j];
    assert all[|others|] == keep;
  }

  /** The kept slide is one of the input slides, so its index is a valid one. */
  lemma KeptIndexValid(ss: seq<Slide>, keepId: string, lim: Limits)
    requires IndicesValid(ss, lim)
    requires TakeOut(ss, keepId).keep.Some?
    ensures ValidIndex(TakeOut(ss, keepId).keep.value.index, lim)
  {
    var keep := TakeOut(ss, keepId).keep.value;
    assert keep in multiset(ss);
    var i :| 0 <= i < |ss| && ss[i] == keep;
  }

  /**
   * The clash case, as written: when the kept slide's index k is below the
   * number N of other slides, the others are normalized in index order,
   * those at positions k and beyond move up by one, the kept slide keeps k
   * untouched, and together they use the indices 0..N exactly once each.
   */
  lemma JuggleClashAsWritten(ss: seq<Slide>, keepId: string, lim: Limits)
    requires !IsEmptyId(keepId) && IndicesValid(ss, lim)
    requires TakeOut(ss, keepId).keep.Some?
    requires TakeOut(ss, keepId).keep.value.index < |TakeOut(ss, keepId).rest| <= lim.maxIndex
    ensures var split := TakeOut(ss, keepId);
            var keep := split.keep.value;
            var r := JuggleAsWritten(ss, keepId, lim);
            && r.Ok?
            && r.value.keep == Some(keep)
            && |r.value.others| == |split.rest|
            && (forall j :: 0 <= j < |split.rest| ==>
                  r.value.others[j] == SortByIndex(split.rest)[j].(index := if j < keep.index then j else j + 1))
            && DenseIndices(r.value.others + [keep])
    {
    var split := TakeOut(ss, keepId);
    var keep := split.keep.value;
    KeptIndexValid(ss, keepId, lim);
    NormalizeIsRenumberedSort(split.rest, lim);
    var n := Normalize(split.rest, lim).value;
    ShiftNormalized(n, keep.index, lim);
    var sh := ShiftFrom(n, keep.index, 0, false, lim).value;
    assert PlaceAsWritten(n, keep, lim) == Ok(Juggled(sh.slides, Some(keep)));
    assert JuggleAsWritten(ss, keepId, lim) == PlaceAsWritten(n, keep, lim);
    InsertionIsDense(sh.slides, keep, keep.index);
  }


  /**
   * The no-clash case, as written: when the kept slide's index is at least
   * the number N of other slides, nothing is shifted, `last` is still 0,
   * and the kept slide is given index 1, not N. The resulting indices are
   * dense exactly when N is 1.
   */
  lemma JuggleNoClashAsWritten(ss: seq<Slide>, keepId: string, lim: Limits)
    requires !IsEmptyId(keepId) && IndicesValid(ss, lim)
    requires TakeOut(ss, keepId).keep.Some?
    requires TakeOut(ss, keepId).keep.value.index >= |TakeOut(ss, keepId).rest|
    requires 1 <= lim.maxIndex
    ensures var split := TakeOut(ss, keepId);
            var keep := split.keep.value;
            var r := JuggleAsWritten(ss, keepId, lim);
            && r.Ok?
            && r.value.others == Normalize(split.rest, lim).value
            && r.value.keep == Some(keep.(index := 1))
            && (DenseIndices(r.value.others + [keep.(index := 1)]) <==> |split.rest| == 1)
    {
    var split := TakeOut(ss, keepId);
    var keep := split.keep.value;
    var keep' := keep.(index := 1);
    KeptIndexValid(ss, keepId, lim);
    NormalizeIsRenumberedSort(split.rest, lim);
    var n := Normalize(split.rest, lim).value;
    ShiftNormalized(n, keep.index, lim);
    var sh := ShiftFrom(n, keep.index, 0, false, lim).value;
    assert sh.slides == n;
    assert !sh.clash && sh.last == 0;
    assert PlaceAsWritten(n, keep, lim) == Ok(Juggled(n, Some(keep')));
    assert JuggleAsWritten(ss, keepId, lim) == PlaceAsWritten(n, keep, lim);
    NoClashDense(n, keep');
  }


  /** Dense indices 0..N-1 followed by one more slide at index 1 are dense exactly when N is 1. */
  lemma NoClashDense(n: seq<Slide>, keep': Slide)
    requires forall j :: 0 <= j < |n| ==> n[j].index == j
    requires keep'.index == 1
    ensures DenseIndices(n + [keep']) <==> |n| == 1
  {
    var all := n + [keep'];
    assert all[|n|] == keep';
    if |n| == 1 {
      assert all[0] == n[0];
    } else if |n| > 1 {
      assert all[1] == n[1];
    }
  }

  /** Three slides A, B and K where A and B hold indices 0 and 1 and K some index at or beyond 2. */
  predicate NoClashRun(a: Slide, b: Slide, kept: Slide, lim: Limits) {
    && a.index == 0 && b.index == 1 && 2 <= kept.index <= lim.maxIndex
    && !IsEmptyId(kept.id) && a.id != kept.id && b.id != kept.id
  }

  /** Taking K out of such a run leaves A and B in order. */
  lemma NoClashRunSplit(a: Slide, b: Slide, kept: Slide, lim: Limits)
    requires NoClashRun(a, b, kept, lim)
    ensures IndicesValid([a, b, kept], lim)
    ensures TakeOut([a, b, kept], kept.id) == Split(Some(kept), [a, b])
  {
    var ss := [a, b, kept];
    assert FirstWithId(ss, kept.id) == 2 by {
      assert ss[1..][1..] == [kept];
    }
    assert ss[..2] + ss[3..] == [a, b];
  }

  /**
   * The misplacement, on any such run (A(0), B(1), K(5) is one): as written,
   * K lands on index 1, the index B already holds, so the indices are no
   * longer dense.
   */
  lemma NoClashCounterexample(a: Slide, b: Slide, kept: Slide, lim: Limits)
    requires NoClashRun(a, b, kept, lim)
    ensures var r := JuggleAsWritten([a, b, kept], kept.id, lim);
            && r.Ok?
            && r.value.others == [a, b]
            && r.value.keep == Some(kept.(index := 1))
            && r.value.keep.value.index == b.index
            && !DenseIndices(r.value.others + [r.value.keep.value])
  {
    NoClashRunSplit(a, b, kept, lim);
    NormalizeDenseSortedIsIdentity([a, b], lim);
    JuggleNoClashAsWritten([a, b, kept], kept.id, lim);
  }

  /** The same runs through the corrected pass: K is placed at 2, after A and B. */
  lemma NoClashCorrectedExample(a: Slide, b: Slide, kept: Slide, lim: Limits)
    requires NoClashRun(a, b, kept, lim)
    ensures var r := Juggle([a, b, kept], kept.id, lim);
            && r.Ok?
            && r.value.others == [a, b]
            && r.value.keep == Some(kept.(index := 2))
            && DenseIndices(r.value.others + [r.value.keep.value])
  {
    NoClashRunSplit(a, b, kept, lim);
    SortedIsFixpoint([a, b]);
    JuggleKeepsPosition([a, b, kept], kept.id, lim);
    var r := Juggle([a, b, kept], kept.id, lim).value;
    assert r.others[0] == a && r.others[1] == b;
  }

  /**
   * The corrected pass: with a non-empty id that some slide has and at
   * most `maxIndex` other slides, it succeeds; the others are normalized
   * in index order with those at positions k and beyond moved up by one;
   * the kept slide ends at min(k, N); and all N + 1 indices are exactly
   * 0..N, each used once.
   */
  lemma JuggleKeepsPosition(ss: seq<Slide>, keepId: string, lim: Limits)
    requires !IsEmptyId(keepId) && IndicesValid(ss, lim)
    requires TakeOut(ss, keepId).keep.Some?
    requires |TakeOut(ss, keepId).rest| <= lim.maxIndex
    ensures var split := TakeOut(ss, keepId);
            var keep := split.keep.value;
            var k := keep.index;
            var r := Juggle(ss, keepId, lim);
            && r.Ok?
            && r.value.keep == Some(keep.(index := if k < |split.rest| then k else |split.rest|))
            && |r.value.others| == |split.rest|
            && (forall j :: 0 <= j < |split.rest| ==>
                  r.value.others[j] == SortByIndex(split.rest)[j].(index := if j < k then j else j + 1))
            && DenseIndices(r.value.others + [r.value.keep.value])
    {
    var split := TakeOut(ss, keepId);
    var keep := split.keep.value;
    KeptIndexValid(ss, keepId, lim);
    NormalizeIsRenumberedSort(split.rest, lim);
    var n := Normalize(split.rest, lim).value;
    ShiftNormalized(n, keep.index, lim);
    var sh := ShiftFrom(n, keep.index, 0, false, lim).value;
    var k' := if keep.index < |n| then keep.index else |n|;
    assert Place(n, keep, lim) == Ok(Juggled(sh.slides, Some(keep.(index := k'))));
    assert Juggle(ss, keepId, lim) == Place(n, keep, lim);
    InsertionIsDense(sh.slides, keep.(index := k'), k');
  }


  /**
   * With an empty id the pass is a plain normalization of every slide: it
   * succeeds when the slides fit below `maxIndex`, and then the slides are
   * all kept, with only their indices changed, to exactly 0..N-1.
   */
  lemma JuggleWithoutKeep(ss: seq<Slide>, keepId: string, lim: Limits)
    requires IsEmptyId(keepId)
    ensures Juggle(ss, keepId, lim).Ok? <==> |ss| == 0 || |ss| <= lim.maxIndex + 1
    ensures Juggle(ss, keepId, lim) == JuggleAsWritten(ss, keepId, lim)
    ensures var r := Juggle(ss, keepId, lim);
            r.Ok? ==>
              && r.value.keep.None?
              && r.value.others == Normalize(ss, lim).value
              && DenseIndices(r.value.others)
              && multiset(UnindexedAll(r.value.others)) == multiset(UnindexedAll(ss))
  {
    if Normalize(ss, lim).Ok? {
      NormalizeIsPermutation(ss, lim);
    }
  }

  /**
   * When the pass succeeds: exactly when the normalization fits, the kept
   * slide exists, and, in the clash case, the shifted last slide still fits.
   */
  lemma JuggleSucceeds(ss: seq<Slide>, keepId: string, lim: Limits)
    requires !IsEmptyId(keepId) && IndicesValid(ss, lim)
    ensures var split := TakeOut(ss, keepId);
            var n := |split.rest|;
            Juggle(ss, keepId, lim).Ok? <==>
              && split.keep.Some?
              && (n == 0 || n <= lim.maxIndex + 1)
              && (split.keep.value.index < n ==> n <= lim.maxIndex)
    {
    var split := TakeOut(ss, keepId);
    if split.keep.Some? && Normalize(split.rest, lim).Ok? {
      var keep := split.keep.value;
      KeptIndexValid(ss, keepId, lim);
      NormalizeIsRenumberedSort(split.rest, lim);
      var n := Normalize(split.rest, lim).value;
      ShiftNormalized(n, keep.index, lim);
      assert Juggle(ss, keepId, lim) == Place(n, keep, lim);
    }
  }

  /**
   * Whatever the kept identifier, a successful corrected pass writes back
   * every slide once, with the indices 0..N-1 each used exactly once.
   */
  lemma JuggleDense(ss: seq<Slide>, keepId: string, lim: Limits)
    requires IndicesValid(ss, lim)
    requires Juggle(ss, keepId, lim).Ok?
    ensures |Written(Juggle(ss, keepId, lim).value)| == |ss|
    ensures DenseIndices(Written(Juggle(ss, keepId, lim).value))
  {
    var j := Juggle(ss, keepId, lim).value;
    if IsEmptyId(keepId) {
      JuggleWithoutKeep(ss, keepId, lim);
      assert Written(j) == j.others;
    } else {
      JuggleSucceeds(ss, keepId, lim);
      JuggleKeepsPosition(ss, keepId, lim);
      assert Written(j) == j.others + [j.keep.value];
    }
  }

  /** Taking the kept slide out loses nothing else: the rest and the kept slide are the input, indices aside. */
  lemma TakeOutKeepsContent(ss: seq<Slide>, keepId: string)
    requires TakeOut(ss, keepId).keep.Some?
    ensures var split := TakeOut(ss, keepId);
            multiset(UnindexedAll(ss)) == multiset(UnindexedAll(split.rest)) + multiset{Unindexed(split.keep.value)}
  {
    var p := FirstWithId(ss, keepId);
    var a, b := ss[..p], ss[p+1..];
    assert ss == a + [ss[p]] + b;
    UnindexedAllAppend(a + [ss[p]], b);
    UnindexedAllAppend(a, [ss[p]]);
    UnindexedAllAppend(a, b);
  }

  /** Slides relabelled one for one, with one more slide appended, hold that slide on top of the originals. */
  lemma RelabelledContent(others: seq<Slide>, sorted: seq<Slide>, keep': Slide, keep: Slide)
    requires |others| == |sorted|
    requires forall i :: 0 <= i < |sorted| ==> Unindexed(others[i]) == Unindexed(sorted[i])
    requires Unindexed(keep') == Unindexed(keep)
    ensures multiset(UnindexedAll(others + [keep'])) == multiset(UnindexedAll(sorted)) + multiset{Unindexed(keep)}
  {
    UnindexedAllAppend(others, [keep']);
    assert UnindexedAll(others) == UnindexedAll(sorted);
  }

  /** The kept-slide case of `JuggleKeepsContent`. */
  lemma KeptJuggleKeepsContent(ss: seq<Slide>, keepId: string, lim: Limits)
    requires !IsEmptyId(keepId) && IndicesValid(ss, lim)
    requires Juggle(ss, keepId, lim).Ok?
    ensures multiset(UnindexedAll(Written(Juggle(ss, keepId, lim).value))) == multiset(UnindexedAll(ss))
  {
    var j := Juggle(ss, keepId, lim).value;
    var split := TakeOut(ss, keepId);
    JuggleSucceeds(ss, keepId, lim);
    JuggleKeepsPosition(ss, keepId, lim);
    var sorted := SortByIndex(split.rest);
    RelabelledContent(j.others, sorted, j.keep.value, split.keep.value);
    assert Written(j) == j.others + [j.keep.value];
    SortKeepsContent(split.rest);
    TakeOutKeepsContent(ss, keepId);
  }

  /**
   * A successful corrected pass writes back exactly the slides it was
   * given, each once, with nothing but their indices changed.
   */
  lemma JuggleKeepsContent(ss: seq<Slide>, keepId: string, lim: Limits)
    requires IndicesValid(ss, lim)
    requires Juggle(ss, keepId, lim).Ok?
    ensures multiset(UnindexedAll(Written(Juggle(ss, keepId, lim).value))) == multiset(UnindexedAll(ss))
  {
    var j := Juggle(ss, keepId, lim).value;
    if IsEmptyId(keepId) {
      JuggleWithoutKeep(ss, keepId, lim);
      assert Written(j) == j.others;
    } else {
      KeptJuggleKeepsContent(ss, keepId, lim);
    }
  }
}
