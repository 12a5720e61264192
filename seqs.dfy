/** Sequence helpers: flattening (`Iterator::flatten`) and `slice::chunks`. */
module Seqs {

  function Flatten<T>(xss: seq<seq<T>>): seq<T> {
    if xss == [] then [] else xss[0] + Flatten(xss[1..])
  }

  lemma {:induction false} FlattenMembers<T>(xss: seq<seq<T>>, x: T)
    ensures x in Flatten(xss) <==> exists xs <- xss :: x in xs
  {
    if xss != [] {
      FlattenMembers(xss[1..], x);
      assert forall xs <- xss[1..] :: xs in xss;
      assert (exists xs <- xss :: x in xs) <==> x in xss[0] || exists xs <- xss[1..] :: x in xs;
    }
  }

  lemma {:induction false} FlattenAppend<T>(a: seq<seq<T>>, b: seq<seq<T>>)
    ensures Flatten(a + b) == Flatten(a) + Flatten(b)
  {
    if a != [] {
      assert (a + b)[1..] == a[1..] + b;
      FlattenAppend(a[1..], b);
    } else {
      assert a + b == b;
    }
  }

  /** `xs.chunks(n)`: consecutive slices of `n` elements, the last one possibly shorter. */
  function Chunks<T>(xs: seq<T>, n: nat): seq<seq<T>>
    requires n > 0
    decreases |xs|
  {
    if xs == [] then []
    else if |xs| <= n then [xs]
    else [xs[..n]] + Chunks(xs[n..], n)
  }

  /** The chunks, put back together, are the input. */
  lemma {:induction false} ChunksFlatten<T>(xs: seq<T>, n: nat)
    requires n > 0
    ensures Flatten(Chunks(xs, n)) == xs
    decreases |xs|
  {
    if xs != [] && |xs| > n {
      ChunksFlatten(xs[n..], n);
      assert Chunks(xs, n)[1..] == Chunks(xs[n..], n);
      assert xs[..n] + xs[n..] == xs;
    } else if xs != [] {
      assert [xs][1..] == [];
      assert xs + [] == xs;
    }
  }

  /** Each chunk holds between one and `n` elements, all but the last exactly `n`. */
  lemma {:induction false} ChunksSizes<T>(xs: seq<T>, n: nat)
    requires n > 0
    ensures var cs := Chunks(xs, n);
      && (forall c <- cs :: 0 < |c| <= n)
      && (forall i | 0 <= i < |cs| - 1 :: |cs[i]| == n)
    decreases |xs|
  {
    if xs != [] && |xs| > n {
      var rest := Chunks(xs[n..], n);
      ChunksSizes(xs[n..], n);
      var cs := Chunks(xs, n);
      assert cs == [xs[..n]] + rest;
      forall i | 0 <= i < |cs| - 1 ensures |cs[i]| == n {
        if i > 0 { assert cs[i] == rest[i - 1]; }
      }
    }
  }

  /** There are |xs|/n chunks, rounded up: just enough to hold the input. */
  lemma {:induction false} ChunksCount<T>(xs: seq<T>, n: nat)
    requires n > 0
    ensures var cs := Chunks(xs, n);
      |xs| <= |cs| * n && (cs != [] ==> (|cs| - 1) * n < |xs|)
    decreases |xs|
  {
    if xs != [] && |xs| > n {
      ChunksCount(xs[n..], n);
      var m := |Chunks(xs[n..], n)|;
      assert |Chunks(xs, n)| == m + 1;
      assert (m + 1) * n == m * n + n;
      assert m > 0;
      assert m * n == (m - 1) * n + n;
    }
  }
}
