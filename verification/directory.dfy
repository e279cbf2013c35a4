/**
 * Enumeration of slide identifiers: the entries of the slides directory
 * with `.`, `..` and every other dot-prefixed (hidden) entry removed.
 */
module Directory {

  /** An entry whose first character is a dot. The empty name has no first character. */
  predicate Hidden(entry: string) {
    |entry| > 0 && entry[0] == '.'
  }

  /**
   * The identifiers listed in the slides directory, given the directory
   * listing in the order it was read. Every visible entry is kept, as many
   * times as it occurs, and every hidden one is dropped.
   */
  function SlidesIdList(entries: seq<string>): (ids: seq<string>)
    ensures forall e :: e in ids <==> e in entries && !Hidden(e)
    ensures forall e :: multiset(ids)[e] == if Hidden(e) then 0 else multiset(entries)[e]
    ensures |ids| <= |entries|
  {
    if |entries| == 0 then []
    else
      var rest := SlidesIdList(entries[1..]);
      assert entries == [entries[0]] + entries[1..];
      if Hidden(entries[0]) then rest else [entries[0]] + rest
  }

  /** Filtering distributes over concatenation, so visible entries keep their relative order. */
  lemma {:induction false} SlidesIdListAppend(a: seq<string>, b: seq<string>)
    ensures SlidesIdList(a + b) == SlidesIdList(a) + SlidesIdList(b)
    decreases |a|
  {
    if |a| == 0 {
      assert a + b == b;
    } else {
      assert (a + b)[1..] == a[1..] + b;
      SlidesIdListAppend(a[1..], b);
    }
  }

  /** A listing with no hidden entry is returned unchanged. */
  lemma {:induction false} SlidesIdListVisible(entries: seq<string>)
    requires forall i :: 0 <= i < |entries| ==> !Hidden(entries[i])
    ensures SlidesIdList(entries) == entries
    decreases |entries|
  {
    if |entries| > 0 {
      SlidesIdListVisible(entries[1..]);
      assert entries == [entries[0]] + entries[1..];
    }
  }

  /** Two visible entries at positions a < b of the listing appear in that order among the identifiers. */
  lemma SlidesIdListKeepsOrder(entries: seq<string>, a: nat, b: nat)
    requires a < b < |entries|
    requires !Hidden(entries[a]) && !Hidden(entries[b])
    ensures exists p, q :: 0 <= p < q < |SlidesIdList(entries)|
                        && SlidesIdList(entries)[p] == entries[a]
                        && SlidesIdList(entries)[q] == entries[b]
  {
    var pre, mid, post := entries[..a], entries[a..b], entries[b..];
    assert entries == (pre + mid) + post;
    SlidesIdListAppend(pre + mid, post);
    SlidesIdListAppend(pre, mid);
    var ids := SlidesIdList(entries);
    var left, right := SlidesIdList(pre + mid), SlidesIdList(post);
    assert ids == left + right;
    assert post[0] == entries[b];
    assert right[0] == entries[b];
    assert mid[0] == entries[a];
    assert SlidesIdList(mid)[0] == entries[a];
    var p := |SlidesIdList(pre)|;
    var q := |left|;
    assert left == SlidesIdList(pre) + SlidesIdList(mid);
    assert left[p] == entries[a];
    assert ids[p] == entries[a];
    assert ids[q] == entries[b];
  }
}
