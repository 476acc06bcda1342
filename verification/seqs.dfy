/**
 Sequence helpers shared by the store adapter: flattening a sequence of
 batches, and cutting a sequence into fixed-size batches the way
 `cursor.fetchmany(n)` and `DataFrame.to_sql(chunksize=n)` do.
 */
module Seqs {

  function Flatten<T>(xss: seq<seq<T>>): seq<T>
  {
    if |xss| == 0 then [] else xss[0] + Flatten(xss[1..])
  }

  lemma {:induction false} FlattenSnoc<T>(xss: seq<seq<T>>, xs: seq<T>)
    ensures Flatten(xss + [xs]) == Flatten(xss) + xs
  {
    if |xss| > 0 {
      assert (xss + [xs])[1..] == xss[1..] + [xs];
      FlattenSnoc(xss[1..], xs);
    } else {
      assert xss + [xs] == [xs];
      assert Flatten<T>([xs]) == xs + Flatten<T>([]);
    }
  }

  /** A prefix followed by the slice after it is the longer prefix. */
  lemma PrefixThenSlice<T>(xs: seq<T>, i: nat, j: nat)
    requires i <= j <= |xs|
    ensures xs[..i] + xs[i..j] == xs[..j]
  {
  }

  /** Every batch is non-empty and holds at most `size` elements; all but the last are full. */
  predicate IsBatching<T>(xss: seq<seq<T>>, size: nat) {
    && (forall i :: 0 <= i < |xss| ==> 0 < |xss[i]| <= size)
    && (forall i :: 0 <= i < |xss| - 1 ==> |xss[i]| == size)
  }

  /** `xs` cut front to back into batches of `size`, the last one possibly shorter. */
  function Chunks<T>(xs: seq<T>, size: nat): (r: seq<seq<T>>)
    requires size > 0
    ensures Flatten(r) == xs
    ensures IsBatching(r, size)
    decreases |xs|
  {
    if |xs| == 0 then []
    else if |xs| <= size then [xs]
    else
      var rest := Chunks(xs[size..], size);
      assert Flatten([xs[..size]] + rest) == xs[..size] + Flatten(rest);
      assert xs[..size] + xs[size..] == xs;
      [xs[..size]] + rest
  }

  /**
   The batching is determined by the elements and the batch size: any
   full-batches-then-remainder cut of `xs` is `Chunks(xs, size)`.
   */
  lemma {:induction false} ChunksUnique<T>(xss: seq<seq<T>>, xs: seq<T>, size: nat)
    requires size > 0
    requires Flatten(xss) == xs
    requires IsBatching(xss, size)
    ensures xss == Chunks(xs, size)
    decreases |xss|
  {
    if |xss| == 0 {
    } else if |xss| == 1 {
      assert Flatten(xss) == xss[0] + Flatten(xss[1..]);
      assert xss[0] == xs;
    } else {
      var first := xss[0];
      assert |first| == size;
      assert Flatten(xss) == first + Flatten(xss[1..]);
      assert |Flatten(xss[1..])| > 0 by {
        assert |xss[1..][0]| > 0;
        assert Flatten(xss[1..]) == xss[1..][0] + Flatten(xss[1..][1..]);
      }
      assert xs[..size] == first && xs[size..] == Flatten(xss[1..]);
      ChunksUnique(xss[1..], xs[size..], size);
    }
  }
}
