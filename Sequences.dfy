/** Generic facts about sequences of blocks that the transcript proofs use,
    stated once for any element type. */
module Sequences {

  /** The blocks one after another. */
  function Flatten<T>(blocks: seq<seq<T>>): seq<T> {
    if blocks == [] then [] else Flatten(blocks[..|blocks| - 1]) + blocks[|blocks| - 1]
  }

  lemma FlattenAppend<T>(blocks: seq<seq<T>>, b: seq<T>)
    ensures Flatten(blocks + [b]) == Flatten(blocks) + b
  {
    assert (blocks + [b])[..|blocks|] == blocks;
  }

  /** With blocks of four, block i sits at positions 4i .. 4i+3. */
  lemma {:induction false} FlattenAt<T>(blocks: seq<seq<T>>, i: nat)
    requires forall k :: 0 <= k < |blocks| ==> |blocks[k]| == 4
    ensures |Flatten(blocks)| == 4 * |blocks|
    ensures i < |blocks| ==> Flatten(blocks)[4 * i..4 * i + 4] == blocks[i]
  {
    if blocks != [] {
      var n := |blocks| - 1;
      var init := blocks[..n];
      FlattenAt(init, i);
      var a, b := Flatten(init), blocks[n];
      assert Flatten(blocks) == a + b;
      if i < n {
        assert init[i] == blocks[i];
        assert (a + b)[4 * i..4 * i + 4] == a[4 * i..4 * i + 4];
      } else if i == n {
        assert (a + b)[|a|..|a| + |b|] == b;
      }
    }
  }

  /** With blocks of four, element k of block i is element p = 4i + k. */
  lemma FlattenIndex<T>(blocks: seq<seq<T>>, i: nat, k: nat, p: nat)
    requires forall j :: 0 <= j < |blocks| ==> |blocks[j]| == 4
    requires i < |blocks| && k < 4 && p == 4 * i + k
    ensures |Flatten(blocks)| == 4 * |blocks| && Flatten(blocks)[p] == blocks[i][k]
  {
    FlattenAt(blocks, i);
    assert Flatten(blocks)[p] == Flatten(blocks)[4 * i..4 * i + 4][k];
  }

  /** `[f(0, xs[0]), f(1, xs[1]), ...]`. */
  function MapIndexed<A, B>(xs: seq<A>, f: (nat, A) -> B): (ys: seq<B>)
    ensures |ys| == |xs|
  {
    if xs == [] then [] else MapIndexed(xs[..|xs| - 1], f) + [f(|xs| - 1, xs[|xs| - 1])]
  }

  lemma {:induction false} MapIndexedAt<A, B>(xs: seq<A>, f: (nat, A) -> B, i: nat)
    requires i < |xs|
    ensures MapIndexed(xs, f)[i] == f(i, xs[i])
  {
    var n := |xs| - 1;
    if i < n {
      MapIndexedAt(xs[..n], f, i);
      assert xs[..n][i] == xs[i];
    }
  }

  lemma MapIndexedAppend<A, B>(xs: seq<A>, x: A, f: (nat, A) -> B)
    ensures MapIndexed(xs + [x], f) == MapIndexed(xs, f) + [f(|xs|, x)]
  {
    assert (xs + [x])[..|xs|] == xs;
  }

  lemma AppendFour<T>(s: seq<T>, a: T, b: T, c: T, d: T)
    ensures s + [a] + [b] + [c] + [d] == s + [a, b, c, d]
  {
  }

  lemma AppendAssociates<T>(a: seq<T>, b: seq<T>, c: seq<T>)
    ensures a + b + c == a + (b + c)
  {
  }
}
