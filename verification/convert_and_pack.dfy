/**
 The operand adapter (ConvertAndPack): converts an array of N source
 elements into an array of N elements of the type the tensor-core
 instruction needs. Which conversion happens is chosen by the pair of
 element types:
   - the same type on both sides: the array is returned as it is;
   - half from float: the elements are first reordered inside every group
     of four (local positions 1 and 2 swap), then converted;
   - any other pair: plain element-wise conversion.
 Element values are opaque (`V`); the numeric conversion with its rounding
 style is the opaque element function `convert`.
 */
module ConvertAndPack {
  import Bits
  import Fragments

  /** The element types the dispatch distinguishes. */
  datatype NumericType = Half | Float | OtherType(name: string)

  /** The three template specialisations of the adapter. */
  datatype Specialisation = Identity | PermuteThenConvert | Convert

  /** The specialisation the compiler picks for target type `target` and
      source type `source`. The same-type and half-from-float patterns never
      both match, since half and float differ. */
  function Select(target: NumericType, source: NumericType): (s: Specialisation)
    ensures s == Identity <==> target == source
    ensures s == PermuteThenConvert <==> target == Half && source == Float
  {
    if target == source then Identity
    else if target == Half && source == Float then PermuteThenConvert
    else Convert
  }

  /** The largest array length: the length is a template `int`. */
  const MaxLength: nat := 0x7fff_ffff

  /** Local position inside a group of four after the reorder: 1 and 2 trade
      places, 0 and 3 stay. */
  function SwapMiddle(r: nat): nat
    requires r < 4
  {
    if r == 1 then 2 else if r == 2 then 1 else r
  }

  /** The position paired with `i` by the reorder: local position 1 of a
      group of four pairs with the next position, local position 2 with the
      previous one, and local positions 0 and 3 pair with themselves. */
  function Partner(i: nat): nat
  {
    if i % 4 == 1 then i + 1 else if i % 4 == 2 then i - 1 else i
  }

  /** `Partner` keeps the group of four and swaps local positions 1 and 2. */
  lemma PartnerGroup(i: nat)
    ensures Partner(i) / 4 == i / 4
    ensures Partner(i) % 4 == SwapMiddle(i % 4)
    ensures Partner(i) == i <==> i % 4 == 0 || i % 4 == 3
  {
  }

  /** Pairing twice gives the position back. */
  lemma PartnerInvolution(i: nat)
    ensures Partner(Partner(i)) == i
  {
  }

  /** The source position read for target position `i`, computed with the
      bit operators of the adapter's loop:
      `((i << 1) & 2) | ((i >> 1) & 1) | (i & 0xfffffffc)`. */
  function PackIndex(i: nat): (idx: nat)
    requires i <= MaxLength
    ensures idx == Partner(i)
  {
    PackIndexValue(i);
    Bits.Or(Bits.Or(Bits.And(Bits.ShiftLeftOne(i), 2), Bits.And(Bits.ShiftRightOne(i), 1)),
            Bits.And(i, 0xffff_fffc))
  }

  /** The value of the bit expression of `PackIndex`, operand by operand:
      `(i << 1) & 2` is bit 0 of `i` moved to bit 1, `(i >> 1) & 1` is bit 1
      moved to bit 0, `i & 0xfffffffc` is the group base; their bits are
      disjoint, so OR adds them. */
  lemma PackIndexValue(i: nat)
    requires i <= MaxLength
    ensures Bits.Or(Bits.Or(Bits.And(Bits.ShiftLeftOne(i), 2), Bits.And(Bits.ShiftRightOne(i), 1)),
                    Bits.And(i, 0xffff_fffc))
         == Partner(i)
    ensures Bits.And(Bits.ShiftLeftOne(i), 2) == 2 * (i % 2)
    ensures Bits.And(Bits.ShiftRightOne(i), 1) == i / 2 % 2
    ensures Bits.And(i, 0xffff_fffc) == 4 * (i / 4)
  {
    var up, down := Bits.ShiftLeftOne(i), Bits.ShiftRightOne(i);
    var low, middle, base := Bits.And(up, 2), Bits.And(down, 1), Bits.And(i, 0xffff_fffc);
    assert low == 2 * (i % 2) by { Bits.AndTwo(up); }
    assert middle == i / 2 % 2 by { Bits.AndOne(down); }
    assert base == 4 * (i / 4) by { Bits.AndClearLowTwo(i); }
    OrOfParts(low, middle, i / 4);
    LowBitsSwapped(i);
    PartnerGroup(i);
  }

  /** Bit 0 moved up plus bit 1 moved down is the swapped local position. */
  lemma LowBitsSwapped(i: nat)
    ensures 2 * (i % 2) + i / 2 % 2 == SwapMiddle(i % 4)
  {
    assert i % 4 == i % 2 + 2 * (i / 2 % 2);
  }

  /** OR of the three disjoint parts of the index. */
  lemma OrOfParts(low: nat, middle: nat, q: nat)
    requires low == 0 || low == 2
    requires middle < 2
    ensures Bits.Or(Bits.Or(low, middle), 4 * q) == 4 * q + low + middle
  {
    Bits.OrBitPair(low, middle);
    Bits.OrLowTwo(low + middle, q);
  }

  /** Reading source position `PackIndex(i)` for every `i < n` stays inside the
      array exactly when `n % 4 != 2`: only a trailing group cut after its
      local position 1 makes position 1 read one past the end. So a length that
      is a multiple of four is always safe. */
  lemma PackIndexInRange(n: nat)
    requires n <= MaxLength
    ensures (forall i :: 0 <= i < n ==> PackIndex(i) < n) <==> n % 4 != 2
  {
    PartnerInRange(n);
    assert forall i :: 0 <= i < n ==> PackIndex(i) == Partner(i);
  }

  /** `PackIndexInRange` stated on the pairing itself. */
  lemma PartnerInRange(n: nat)
    ensures (forall i :: 0 <= i < n ==> Partner(i) < n) <==> n % 4 != 2
  {
    if n % 4 == 2 {
      assert Partner(n - 1) == n;
    } else {
      forall i | 0 <= i < n
        ensures Partner(i) < n
      {
        if i % 4 == 1 {
          assert i + 1 != n;
        }
      }
    }
  }

  /** Applying the index map twice gives the position back: it is an
      involution, hence a bijection of every range it keeps in bounds. */
  lemma PackIndexInvolution(i: nat)
    requires i <= MaxLength
    ensures PackIndex(i) <= MaxLength && PackIndex(PackIndex(i)) == i
  {
    PartnerGroup(i);
    PartnerInvolution(i);
    if i % 4 == 1 {
      assert i + 1 != 0x8000_0000;
    }
  }

  /** Lengths the half-from-float reorder can be applied to: an `int`
      length that does not make the loop read past the end. */
  predicate Reorderable(n: nat)
  {
    n <= MaxLength && n % 4 != 2
  }

  /** The temporary array the half-from-float specialisation builds:
      element `i` is the source element at `PackIndex(i)`. */
  function Reorder<V>(source: seq<V>): (tmp: seq<V>)
    requires Reorderable(|source|)
    ensures |tmp| == |source|
    ensures forall i :: 0 <= i < |source| ==> Partner(i) < |source| && tmp[i] == source[Partner(i)]
  {
    PackIndexInRange(|source|);
    seq(|source|, i requires 0 <= i < |source| => source[PackIndex(i)])
  }

  /** Reordering twice gives the source back. */
  lemma ReorderInvolution<V>(source: seq<V>)
    requires Reorderable(|source|)
    ensures Reorder(Reorder(source)) == source
  {
    var back := Reorder(Reorder(source));
    forall i | 0 <= i < |source|
      ensures back[i] == source[i]
    {
      PartnerInvolution(i);
    }
  }

  /** The reorder of an array of at least four elements is the reordered
      first group followed by the reorder of the rest. */
  lemma ReorderFirstGroup<V>(source: seq<V>)
    requires Reorderable(|source|) && |source| >= 4
    ensures Reorder(source)
         == [source[0], source[2], source[1], source[3]] + Reorder(source[4..])
  {
    var tmp := Reorder(source);
    ReorderHead(source);
    ReorderTail(source);
    assert tmp == tmp[..4] + tmp[4..];
  }

  lemma ReorderHead<V>(source: seq<V>)
    requires Reorderable(|source|) && |source| >= 4
    ensures Reorder(source)[..4] == [source[0], source[2], source[1], source[3]]
  {
    assert Partner(0) == 0 && Partner(1) == 2 && Partner(2) == 1 && Partner(3) == 3;
  }

  lemma ReorderTail<V>(source: seq<V>)
    requires Reorderable(|source|) && |source| >= 4
    ensures Reorder(source)[4..] == Reorder(source[4..])
  {
    var tail, rest := Reorder(source)[4..], Reorder(source[4..]);
    forall k | 0 <= k < |rest|
      ensures tail[k] == rest[k]
    {
      PartnerShift(k + 4);
    }
  }

  /** Pairing commutes with moving one group along. */
  lemma PartnerShift(i: nat)
    requires i >= 4
    ensures Partner(i) == Partner(i - 4) + 4
  {
    assert (i - 4) % 4 == i % 4;
  }

  /** The reorder only rearranges: the temporary array holds the same
      elements as the source, each as often. */
  lemma {:induction false} ReorderIsPermutation<V>(source: seq<V>)
    requires Reorderable(|source|)
    ensures multiset(Reorder(source)) == multiset(source)
    decreases |source|
  {
    if |source| >= 4 {
      var rest := source[4..];
      var group := [source[0], source[1], source[2], source[3]];
      var swapped := [source[0], source[2], source[1], source[3]];
      ReorderFirstGroup(source);
      ReorderIsPermutation(rest);
      GroupSwapIsPermutation(source[0], source[1], source[2], source[3]);
      assert source == group + rest;
      PermutationStep(group, swapped, rest, Reorder(rest));
    } else {
      ReorderShort(source);
    }
  }

  /** Permuting a prefix and a suffix separately permutes their concatenation. */
  lemma PermutationStep<V>(group: seq<V>, swapped: seq<V>, rest: seq<V>, restSwapped: seq<V>)
    requires multiset(swapped) == multiset(group) && multiset(restSwapped) == multiset(rest)
    ensures multiset(swapped + restSwapped) == multiset(group + rest)
  {
  }

  /** An array shorter than one group: three elements swap the last two, one
      or none stay as they are. */
  lemma ReorderShort<V>(source: seq<V>)
    requires Reorderable(|source|) && |source| < 4
    ensures multiset(Reorder(source)) == multiset(source)
  {
    if |source| == 3 {
      ReorderThree(source);
      TailSwapIsPermutation(source[0], source[1], source[2]);
      assert source == [source[0], source[1], source[2]];
    } else {
      ReorderSingle(source);
    }
  }

  lemma ReorderThree<V>(source: seq<V>)
    requires Reorderable(|source|) && |source| == 3
    ensures Reorder(source) == [source[0], source[2], source[1]]
  {
    assert Partner(0) == 0 && Partner(1) == 2 && Partner(2) == 1;
  }

  lemma ReorderSingle<V>(source: seq<V>)
    requires Reorderable(|source|) && |source| < 2
    ensures Reorder(source) == source
  {
    assert Partner(0) == 0;
  }

  /** Swapping the last two of three elements keeps them. */
  lemma TailSwapIsPermutation<V>(a0: V, a1: V, a2: V)
    ensures multiset([a0, a2, a1]) == multiset([a0, a1, a2])
  {
  }

  /** Swapping the middle pair of a group of four keeps its elements. */
  lemma GroupSwapIsPermutation<V>(a0: V, a1: V, a2: V, a3: V)
    ensures multiset([a0, a2, a1, a3]) == multiset([a0, a1, a2, a3])
  {
  }

  /** The order of eight elements after the reorder. */
  lemma ReorderEight<V>(a0: V, a1: V, a2: V, a3: V, a4: V, a5: V, a6: V, a7: V)
    ensures Reorder([a0, a1, a2, a3, a4, a5, a6, a7]) == [a0, a2, a1, a3, a4, a6, a5, a7]
  {
    var s := [a0, a1, a2, a3, a4, a5, a6, a7];
    ReorderFirstGroup(s);
    assert s[4..] == [a4, a5, a6, a7];
    ReorderFirstGroup(s[4..]);
    assert Reorder(s[4..][4..]) == [];
  }

  /** Whether the adapter can be instantiated for an array of `n` elements:
      the length is an `int`, and the half-from-float loop reads inside the
      array. */
  predicate Admissible(target: NumericType, source: NumericType, n: nat)
  {
    n <= MaxLength && (Select(target, source) == PermuteThenConvert ==> n % 4 != 2)
  }

  /** The adapter for target type `target` and source type `source`. */
  function Pack<V>(target: NumericType, source: NumericType, convert: V -> V, src: seq<V>): (dst: seq<V>)
    requires Admissible(target, source, |src|)
    ensures |dst| == |src|
    ensures target == source ==> dst == src
    ensures target != source && !(target == Half && source == Float) ==>
              forall i :: 0 <= i < |src| ==> dst[i] == convert(src[i])
    ensures target == Half && source == Float ==>
              forall i :: 0 <= i < |src| ==> Partner(i) < |src| && dst[i] == convert(src[Partner(i)])
  {
    match Select(target, source)
    case Identity => src
    case PermuteThenConvert => Fragments.ConvertArray(convert, Reorder(src))
    case Convert => Fragments.ConvertArray(convert, src)
  }

  /** In the half-from-float case the converter is given a permutation of the
      source (same elements, each as often), and the reorder can be undone:
      converting the reorder of the result's inputs gives back the plain
      conversion. */
  lemma PackHalfFromFloat<V>(convert: V -> V, src: seq<V>)
    requires Admissible(Half, Float, |src|)
    ensures exists tmp :: multiset(tmp) == multiset(src) && Pack(Half, Float, convert, src) == Fragments.ConvertArray(convert, tmp)
    ensures Reorder(Pack(Half, Float, convert, src)) == Fragments.ConvertArray(convert, src)
  {
    var tmp := Reorder(src);
    ReorderIsPermutation(src);
    var dst := Pack(Half, Float, convert, src);
    assert dst == Fragments.ConvertArray(convert, tmp);
    var back := Reorder(dst);
    forall i | 0 <= i < |src|
      ensures back[i] == convert(src[i])
    {
      PartnerInvolution(i);
    }
  }
}
