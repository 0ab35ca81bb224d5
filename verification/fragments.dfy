/**
 Fragments: the flat per-lane register arrays of the warp-level operator,
 the element-wise numeric array converter they are passed through, and
 the strided views that stand for reinterpreting one flat array as an
 array of smaller sub-fragments.
 */
module Fragments {
  import Arith

  /** The element-wise numeric array converter: every element is converted
      on its own by `convert`, which stands for the scalar conversion with the
      rounding style chosen for the pair of element types. */
  function ConvertArray<V>(convert: V -> V, source: seq<V>): (dst: seq<V>)
    ensures |dst| == |source|
    ensures forall i :: 0 <= i < |source| ==> dst[i] == convert(source[i])
  {
    seq(|source|, i requires 0 <= i < |source| => convert(source[i]))
  }

  /** The flat array `flat` seen as `count` consecutive sub-fragments of
      `stride` elements each: sub-fragment `k` holds the elements from
      `k * stride` up to, not including, `k * stride + stride`. */
  function View<E>(flat: seq<E>, stride: nat, count: nat): (subs: seq<seq<E>>)
    requires count * stride <= |flat|
    ensures |subs| == count
    ensures forall k :: 0 <= k < count ==>
              k * stride + stride <= |flat| && subs[k] == flat[k * stride .. k * stride + stride]
    decreases count
  {
    if count == 0 then []
    else
      Arith.BlockFits(count - 1, count, stride);
      View(flat, stride, count - 1) + [flat[(count - 1) * stride .. (count - 1) * stride + stride]]
  }

  /** Lays a sequence of sub-fragments end to end in one flat array. */
  function Flatten<E>(subs: seq<seq<E>>): seq<E>
  {
    if |subs| == 0 then [] else Flatten(subs[..|subs| - 1]) + subs[|subs| - 1]
  }

  /** Viewing the first `count * stride` elements as sub-fragments and laying
      them back end to end gives those elements again. */
  lemma {:induction false} FlattenViewPrefix<E>(flat: seq<E>, stride: nat, count: nat)
    requires count * stride <= |flat|
    ensures Flatten(View(flat, stride, count)) == flat[..count * stride]
    decreases count
  {
    if count != 0 {
      var subs := View(flat, stride, count);
      Arith.BlockFits(count - 1, count, stride);
      Arith.MulSucc(count - 1, stride);
      assert subs[..count - 1] == View(flat, stride, count - 1);
      FlattenViewPrefix(flat, stride, count - 1);
      assert flat[..count * stride]
          == flat[..(count - 1) * stride] + flat[(count - 1) * stride .. count * stride];
    }
  }

  /** Viewing a whole flat array as sub-fragments and laying them back end
      to end gives the flat array: the reinterpretation loses nothing. */
  lemma FlattenView<E>(flat: seq<E>, stride: nat, count: nat)
    requires count * stride == |flat|
    ensures Flatten(View(flat, stride, count)) == flat
  {
    FlattenViewPrefix(flat, stride, count);
  }

  /** The two halves of an array of even length, viewed as two sub-fragments,
      are its first and second half. */
  lemma ViewHalves<E>(flat: seq<E>)
    requires |flat| % 2 == 0
    ensures View(flat, |flat| / 2, 2) == [flat[..|flat| / 2], flat[|flat| / 2..]]
  {
    var h := |flat| / 2;
    assert 2 * h <= |flat| by { Arith.HalfOfEven(|flat|); }
    var v := View(flat, h, 2);
    assert v[0] == flat[..h] by { assert 0 * h == 0; }
    assert v[1] == flat[h..] by { Arith.HalfOfEven(|flat|); }
    assert v == [v[0], v[1]];
  }

  /** Converting two arrays written back to back is converting each and
      writing the results back to back. */
  lemma ConvertArrayAppend<V>(convert: V -> V, x: seq<V>, y: seq<V>)
    ensures ConvertArray(convert, x + y) == ConvertArray(convert, x) + ConvertArray(convert, y)
  {
    var lhs, rhs := ConvertArray(convert, x + y), ConvertArray(convert, x) + ConvertArray(convert, y);
    forall i | 0 <= i < |lhs|
      ensures lhs[i] == rhs[i]
    {
      if i < |x| {
        assert (x + y)[i] == x[i];
      } else {
        assert (x + y)[i] == y[i - |x|];
      }
    }
  }

  /** Two sub-fragments laid end to end. */
  lemma FlattenPair<E>(x: seq<E>, y: seq<E>)
    ensures Flatten([x, y]) == x + y
  {
    assert [x, y][..1] == [x];
    assert [x][..0] == [];
    assert Flatten([x]) == Flatten([]) + x;
    assert Flatten([x, y]) == Flatten([x]) + y;
  }
}
