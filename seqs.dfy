/**
 * Facts about concatenation stated over any element type: used in place of
 * the solver's own sequence reasoning, which gets costly on elements as rich
 * as sitemap entries.
 */
module Seqs {

  lemma AppendAssoc<T>(a: seq<T>, b: seq<T>, c: seq<T>)
    ensures a + (b + c) == (a + b) + c
  {
  }

  /** Indexing into a concatenation. */
  lemma AppendAt<T>(a: seq<T>, b: seq<T>, i: nat)
    requires i < |a| + |b|
    ensures (a + b)[i] == if i < |a| then a[i] else b[i - |a|]
  {
  }

  /** What is in either part is in the concatenation. */
  lemma InAppend<T>(a: seq<T>, b: seq<T>, x: T)
    ensures x in a ==> x in a + b
    ensures x in b ==> x in a + b
  {
    if x in b {
      var i :| 0 <= i < |b| && b[i] == x;
      assert (a + b)[|a| + i] == x;
    }
  }

  /** `xs.map(f)`, built element by element from the front. */
  function MapSeq<A, B>(xs: seq<A>, f: A -> B): seq<B>
    decreases |xs|
  {
    if xs == [] then [] else MapSeq(xs[..|xs| - 1], f) + [f(xs[|xs| - 1])]
  }

  /** The map of a prefix, one element further. */
  lemma MapSeqStep<A, B>(xs: seq<A>, f: A -> B, j: nat)
    requires j < |xs|
    ensures MapSeq(xs[..j + 1], f) == MapSeq(xs[..j], f) + [f(xs[j])]
  {
    assert xs[..j + 1][..j] == xs[..j];
  }

  /** The map has one element per element, each its image. */
  lemma {:induction false} MapSeqAt<A, B>(xs: seq<A>, f: A -> B, i: nat)
    ensures |MapSeq(xs, f)| == |xs|
    ensures i < |xs| ==> MapSeq(xs, f)[i] == f(xs[i])
  {
    if xs != [] {
      MapSeqAt(xs[..|xs| - 1], f, i);
    }
  }

  /** Whatever is in the map is the image of an element. */
  lemma {:induction false} MapSeqFrom<A, B>(xs: seq<A>, f: A -> B, y: B)
    requires y in MapSeq(xs, f)
    ensures exists x :: x in xs && y == f(x)
  {
    var init := xs[..|xs| - 1];
    if y in MapSeq(init, f) {
      MapSeqFrom(init, f, y);
      var x :| x in init && y == f(x);
      assert x in xs;
    } else {
      assert y == f(xs[|xs| - 1]);
    }
  }

  /** `xs.flatMap(f)`, built element by element from the front. */
  function FlatMap<A, B>(xs: seq<A>, f: A -> seq<B>): seq<B>
    decreases |xs|
  {
    if xs == [] then [] else FlatMap(xs[..|xs| - 1], f) + f(xs[|xs| - 1])
  }

  /** The flat map of a prefix, one element further. */
  lemma FlatMapStep<A, B>(xs: seq<A>, f: A -> seq<B>, j: nat)
    requires j < |xs|
    ensures FlatMap(xs[..j + 1], f) == FlatMap(xs[..j], f) + f(xs[j])
  {
    assert xs[..j + 1][..j] == xs[..j];
  }

  /** Everything in the image of an element is in the flat map. */
  lemma {:induction false} FlatMapHolds<A, B>(xs: seq<A>, f: A -> seq<B>, x: A, y: B)
    requires x in xs && y in f(x)
    ensures y in FlatMap(xs, f)
  {
    var init, last := xs[..|xs| - 1], xs[|xs| - 1];
    if x != last {
      assert x in init by {
        assert xs == init + [last];
      }
      FlatMapHolds(init, f, x, y);
    }
    InAppend(FlatMap(init, f), f(last), y);
  }

  /** Each element of the flat map comes from the image of an element. */
  lemma {:induction false} FlatMapFrom<A, B>(xs: seq<A>, f: A -> seq<B>, j: nat)
    requires j < |FlatMap(xs, f)|
    ensures exists x :: x in xs && FlatMap(xs, f)[j] in f(x)
  {
    var init, last := xs[..|xs| - 1], xs[|xs| - 1];
    var pre := FlatMap(init, f);
    AppendAt(pre, f(last), j);
    if j < |pre| {
      FlatMapFrom(init, f, j);
      var x :| x in init && pre[j] in f(x);
      assert x in xs;
    } else {
      assert f(last)[j - |pre|] in f(last);
    }
  }

  /**
   * `h` tells the elements of a flat map apart when it tells apart the
   * elements of each image and any two elements of images of different
   * elements of `xs`, which holds no element twice.
   */
  lemma {:induction false} FlatMapDistinctBy<A, B, C>(xs: seq<A>, f: A -> seq<B>, h: B -> C)
    requires forall i, j :: 0 <= i < j < |xs| ==> xs[i] != xs[j]
    requires forall x, i, j :: x in xs && 0 <= i < j < |f(x)| ==> h(f(x)[i]) != h(f(x)[j])
    requires forall x1, x2, y1, y2 :: x1 in xs && x2 in xs && x1 != x2 && y1 in f(x1) && y2 in f(x2) ==> h(y1) != h(y2)
    ensures forall i, j :: 0 <= i < j < |FlatMap(xs, f)| ==> h(FlatMap(xs, f)[i]) != h(FlatMap(xs, f)[j])
  {
    if xs != [] {
      var init, last := xs[..|xs| - 1], xs[|xs| - 1];
      assert forall k :: 0 <= k < |init| ==> init[k] == xs[k];
      FlatMapDistinctBy(init, f, h);
      var pre, post := FlatMap(init, f), f(last);
      forall i, j | 0 <= i < j < |pre + post| ensures h((pre + post)[i]) != h((pre + post)[j]) {
        AppendAt(pre, post, i);
        AppendAt(pre, post, j);
        if i < |pre| && |pre| <= j {
          FlatMapFrom(init, f, i);
          var x :| x in init && pre[i] in f(x);
          var k :| 0 <= k < |init| && init[k] == x;
          assert xs[k] != xs[|xs| - 1];
          assert post[j - |pre|] in post;
        }
      }
    }
  }
}
