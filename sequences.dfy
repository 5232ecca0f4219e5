/** Facts about sequences of sequences and their concatenation. */
module Sequences {

  /** The concatenation of `bs[lo]`, ..., `bs[hi - 1]`, in order. */
  function ConcatRange<T>(bs: seq<seq<T>>, lo: nat, hi: nat): seq<T>
    requires lo <= hi <= |bs|
    decreases hi
  {
    if lo == hi then [] else ConcatRange(bs, lo, hi - 1) + bs[hi - 1]
  }

  /** Concatenating the blocks of two adjacent ranges gives the blocks of their union. */
  lemma {:induction false} ConcatRangeSplit<T>(bs: seq<seq<T>>, lo: nat, mid: nat, hi: nat)
    requires lo <= mid <= hi <= |bs|
    decreases hi
    ensures ConcatRange(bs, lo, hi) == ConcatRange(bs, lo, mid) + ConcatRange(bs, mid, hi)
  {
    if mid == hi {
      assert ConcatRange(bs, lo, mid) + [] == ConcatRange(bs, lo, mid);
    } else {
      ConcatRangeSplit(bs, lo, mid, hi - 1);
      var p, q, x := ConcatRange(bs, lo, mid), ConcatRange(bs, mid, hi - 1), bs[hi - 1];
      assert p + q + x == p + (q + x);
    }
  }

  /** Block `i` sits between the blocks before it and the blocks after it. */
  lemma ConcatRangeAt<T>(bs: seq<seq<T>>, i: nat)
    requires i < |bs|
    ensures ConcatRange(bs, 0, |bs|) == ConcatRange(bs, 0, i) + bs[i] + ConcatRange(bs, i + 1, |bs|)
  {
    ConcatRangeSplit(bs, 0, i + 1, |bs|);
    assert ConcatRange(bs, i, i + 1) == bs[i];
    assert ConcatRange(bs, 0, i + 1) == ConcatRange(bs, 0, i) + bs[i];
  }

  /** Changing a block outside a range leaves that range's concatenation unchanged. */
  lemma {:induction false} ConcatRangeUpdate<T>(bs: seq<seq<T>>, i: nat, b: seq<T>, lo: nat, hi: nat)
    requires i < |bs| && lo <= hi <= |bs|
    requires i < lo || hi <= i
    decreases hi
    ensures ConcatRange(bs[i := b], lo, hi) == ConcatRange(bs, lo, hi)
  {
    if lo < hi {
      ConcatRangeUpdate(bs, i, b, lo, hi - 1);
    }
  }

  /** Reading `pre`, `mid` and `x` back out of `pre + (mid + [x]) + post`. */
  lemma Parts<T>(r: seq<T>, pre: seq<T>, mid: seq<T>, x: T, post: seq<T>)
    requires r == pre + (mid + [x]) + post
    ensures |pre| + |mid| < |r|
    ensures r[..|pre|] == pre && r[|pre|..|pre| + |mid|] == mid && r[|pre| + |mid|] == x
    ensures r[|pre| + |mid|..] == [x] + post
  {
  }

  /** Putting `mid'` in place of `mid` in `pre + (mid + [x]) + post`, spelled with slices of the original. */
  lemma ReplaceMiddle<T>(r: seq<T>, pre: seq<T>, mid: seq<T>, mid': seq<T>, x: T, post: seq<T>)
    requires r == pre + (mid + [x]) + post
    ensures |pre| + |mid| <= |r|
    ensures pre + (mid' + [x]) + post == r[..|pre|] + mid' + r[|pre| + |mid|..]
  {
    assert r[..|pre|] == pre;
    assert r[|pre| + |mid|..] == [x] + post;
  }

  /** Cutting `r[lo..hi]` out of `r` keeps what follows at index `lo`. */
  lemma DropMiddle<T>(r: seq<T>, lo: nat, hi: nat)
    requires lo <= hi < |r|
    ensures r[..lo] + [] + r[hi..] == r[..lo] + r[hi..]
    ensures (r[..lo] + r[hi..])[lo] == r[hi]
  {
    assert r[..lo] + [] == r[..lo];
  }
}
