/** Flattening sequences of sequences, shared by the HEX reader and the chunked writer. */
module Seqs {

  /** The smaller of two offsets: where a range clamped to a length ends. */
  function Min(a: int, b: int): int {
    if a < b then a else b
  }

  /** The concatenation of `xss` in order. */
  function Flatten<T>(xss: seq<seq<T>>): seq<T> {
    if |xss| == 0 then [] else Flatten(xss[..|xss| - 1]) + xss[|xss| - 1]
  }

  /** `f(xs[0]) + f(xs[1]) + ...`, built the way an accumulator is: the
      result for a prefix, extended by the next element's part. */
  function FlatMap<X, T>(f: X -> seq<T>, xs: seq<X>): seq<T> {
    if |xs| == 0 then [] else FlatMap(f, xs[..|xs| - 1]) + f(xs[|xs| - 1])
  }

  lemma {:induction false} FlatMapAppend<X, T>(f: X -> seq<T>, a: seq<X>, b: seq<X>)
    ensures FlatMap(f, a + b) == FlatMap(f, a) + FlatMap(f, b)
    decreases |b|
  {
    if |b| == 0 {
      assert a + b == a;
    } else {
      var b' := b[..|b| - 1];
      assert (a + b)[..|a + b| - 1] == a + b';
      assert (a + b)[|a + b| - 1] == b[|b| - 1];
      FlatMapAppend(f, a, b');
    }
  }

  lemma FlatMapSingle<X, T>(f: X -> seq<T>, x: X)
    ensures FlatMap(f, [x]) == f(x)
  {
    var xs := [x];
    assert xs[..0] == [];
  }

  /** `f` applied to each element, in order. */
  function Map<X, T>(f: X -> T, xs: seq<X>): (ys: seq<T>)
    ensures |ys| == |xs|
  {
    if |xs| == 0 then [] else Map(f, xs[..|xs| - 1]) + [f(xs[|xs| - 1])]
  }

  lemma {:induction false} MapAt<X, T>(f: X -> T, xs: seq<X>, k: nat)
    requires k < |xs|
    ensures Map(f, xs)[k] == f(xs[k])
    decreases |xs|
  {
    var init := xs[..|xs| - 1];
    if k < |init| {
      assert init[k] == xs[k];
      MapAt(f, init, k);
    }
  }

  /** Flattening a sequence whose head is `x` puts `x` first. */
  lemma {:induction false} FlattenCons<T>(x: seq<T>, xs: seq<seq<T>>)
    ensures Flatten([x] + xs) == x + Flatten(xs)
    decreases |xs|
  {
    var ys := [x] + xs;
    if |xs| == 0 {
      assert ys[..0] == [];
    } else {
      var init := xs[..|xs| - 1];
      assert ys[..|ys| - 1] == [x] + init;
      assert ys[|ys| - 1] == xs[|xs| - 1];
      FlattenCons(x, init);
      var last := xs[|xs| - 1];
      assert Flatten(ys) == (x + Flatten(init)) + last;
      assert Flatten(xs) == Flatten(init) + last;
    }
  }

  /** An element whose part is empty can be left out. */
  lemma FlatMapDrop<X, T>(f: X -> seq<T>, xs: seq<X>, k: nat)
    requires k < |xs| && f(xs[k]) == []
    ensures FlatMap(f, xs) == FlatMap(f, xs[..k] + xs[k + 1..])
  {
    var pre, post := xs[..k], xs[k + 1..];
    assert xs == pre + [xs[k]] + post;
    FlatMapAppend(f, pre + [xs[k]], post);
    FlatMapAppend(f, pre, [xs[k]]);
    FlatMapSingle(f, xs[k]);
    FlatMapAppend(f, pre, post);
  }

  /** An element can be replaced by one with the same part. */
  lemma FlatMapUpdate<X, T>(f: X -> seq<T>, xs: seq<X>, k: nat, x: X)
    requires k < |xs| && f(x) == f(xs[k])
    ensures FlatMap(f, xs[k := x]) == FlatMap(f, xs)
  {
    var pre, post := xs[..k], xs[k + 1..];
    assert xs == pre + [xs[k]] + post;
    assert xs[k := x] == pre + [x] + post;
    FlatMapAppend(f, pre + [xs[k]], post);
    FlatMapAppend(f, pre, [xs[k]]);
    FlatMapAppend(f, pre + [x], post);
    FlatMapAppend(f, pre, [x]);
    FlatMapSingle(f, x);
    FlatMapSingle(f, xs[k]);
  }
}
