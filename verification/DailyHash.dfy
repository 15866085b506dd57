/** The stable hashes and the shuffle behind every daily, on 64-bit words that wrap around. */
module DailyHash {

  type Text = seq<bv8>

  // ----- FNV-1a -----

  const FNV_OFFSET: bv64 := 0xcbf2_9ce4_8422_2325

  function XorByte(hash: bv64, b: bv8): bv64 { hash ^ (b as bv64) }

  function TimesPrime(x: bv64): bv64 { x * 0x0100_0000_01b3 }

  function FnvStep(hash: bv64, b: bv8): bv64 { TimesPrime(XorByte(hash, b)) }

  function FnvFrom(hash: bv64, text: Text): bv64
    decreases |text|
  {
    if text == [] then hash else FnvFrom(FnvStep(hash, text[0]), text[1..])
  }

  function Fnv1a(text: Text): bv64 { FnvFrom(FNV_OFFSET, text) }

  method Fnv1aLoop(text: Text) returns (hash: bv64)
    ensures hash == Fnv1a(text)
  {
    hide XorByte, TimesPrime, FNV_OFFSET;
    hash := FNV_OFFSET;
    assert text[0..] == text;
    for i := 0 to |text|
      invariant FnvFrom(hash, text[i..]) == Fnv1a(text)
    {
      assert text[i..][1..] == text[i + 1..];
      hash := XorByte(hash, text[i]);
      hash := TimesPrime(hash);
    }
  }

  // Each step is undone by a function of its own. The lemmas come in pairs, because the solver
  // settles such a fact on the bare term and only then carries it over to the named step.

  function XorBack(hash: bv64, b: bv8): bv64 { hash ^ (b as bv64) }

  function ByteOf(hash: bv64, before: bv64): bv8 { ((hash ^ before) & 0xff) as bv8 }

  function OverPrime(x: bv64): bv64 { x * 0xce96_5057_aff6_957b }

  lemma XorBackTerm(h: bv64, b: bv8)
    ensures XorBack(h ^ (b as bv64), b) == h
  {
  }

  lemma XorBackStep(h: bv64, b: bv8)
    ensures XorBack(XorByte(h, b), b) == h
  {
    hide XorBack;
    XorBackTerm(h, b);
  }

  lemma ByteOfTerm(h: bv64, b: bv8)
    ensures ByteOf(h ^ (b as bv64), h) == b
  {
  }

  lemma ByteOfStep(h: bv64, b: bv8)
    ensures ByteOf(XorByte(h, b), h) == b
  {
    hide ByteOf;
    ByteOfTerm(h, b);
  }

  lemma OverPrimeTerm(x: bv64)
    ensures OverPrime(x * 0x0100_0000_01b3) == x
  {
  }

  /** The FNV prime is odd, so multiplying by it can be undone. */
  lemma OverPrimeStep(x: bv64)
    ensures OverPrime(TimesPrime(x)) == x
  {
    hide OverPrime;
    OverPrimeTerm(x);
  }

  lemma StepInjective(g: bv64, h: bv64, a: bv8, b: bv8)
    requires (g == h && a != b) || (g != h && a == b)
    ensures FnvStep(g, a) != FnvStep(h, b)
  {
    hide XorByte, TimesPrime, XorBack, ByteOf, OverPrime;
    OverPrimeStep(XorByte(g, a));
    OverPrimeStep(XorByte(h, b));
    XorBackStep(g, a);
    XorBackStep(h, b);
    ByteOfStep(g, a);
    ByteOfStep(h, b);
  }

  /** Different hashes stay different over any common text. */
  lemma {:induction false} FnvFromInjective(g: bv64, h: bv64, text: Text)
    requires g != h
    ensures FnvFrom(g, text) != FnvFrom(h, text)
    decreases |text|
  {
    hide FnvStep;
    if text == [] {
    } else {
      StepInjective(g, h, text[0], text[0]);
      FnvFromInjective(FnvStep(g, text[0]), FnvStep(h, text[0]), text[1..]);
    }
  }

  /** Texts of one length that differ in exactly one byte never share a hash. */
  lemma {:induction false} OneByteChangesTheHash(hash: bv64, s: Text, t: Text, i: nat)
    requires |s| == |t| && i < |s| && s[i] != t[i]
    requires forall j :: 0 <= j < |s| && j != i ==> s[j] == t[j]
    ensures FnvFrom(hash, s) != FnvFrom(hash, t)
    decreases |s|
  {
    hide FnvStep;
    if i == 0 {
      assert s[1..] == t[1..];
      StepInjective(hash, hash, s[0], t[0]);
      FnvFromInjective(FnvStep(hash, s[0]), FnvStep(hash, t[0]), s[1..]);
    } else {
      OneByteChangesTheHash(FnvStep(hash, s[0]), s[1..], t[1..], i - 1);
    }
  }

  // ----- splitmix64 -----

  function AddGamma(x: bv64): bv64 { x + 0x9e37_79b9_7f4a_7c15 }
  function SubGamma(x: bv64): bv64 { x - 0x9e37_79b9_7f4a_7c15 }

  function XorShift30(x: bv64): bv64 { x ^ (x >> 30) }
  function UnShift30(x: bv64): bv64 { x ^ (x >> 30) ^ (x >> 60) }
  function XorShift27(x: bv64): bv64 { x ^ (x >> 27) }
  function UnShift27(x: bv64): bv64 { x ^ (x >> 27) ^ (x >> 54) }
  function XorShift31(x: bv64): bv64 { x ^ (x >> 31) }
  function UnShift31(x: bv64): bv64 { x ^ (x >> 31) ^ (x >> 62) }
  function Times1(x: bv64): bv64 { x * 0xbf58_476d_1ce4_e5b9 }
  function Over1(x: bv64): bv64 { x * 0x96de_1b17_3f11_9089 }
  function Times2(x: bv64): bv64 { x * 0x94d0_49bb_1331_11eb }
  function Over2(x: bv64): bv64 { x * 0x3196_42b2_d24d_8ec3 }

  function SplitMix64(value: bv64): bv64 {
    XorShift31(Times2(XorShift27(Times1(XorShift30(AddGamma(value))))))
  }

  /** Each step undone, last to first. */
  function UnMix64(hash: bv64): bv64 {
    SubGamma(UnShift30(Over1(UnShift27(Over2(UnShift31(hash))))))
  }

  lemma Shift30BackTerm(x: bv64)
    ensures UnShift30(x ^ (x >> 30)) == x
  {
    assert (x ^ (x >> 30)) >> 30 == (x >> 30) ^ (x >> 60);
    assert (x ^ (x >> 30)) >> 60 == x >> 60;
  }

  lemma Shift30Back(x: bv64)
    ensures UnShift30(XorShift30(x)) == x
  {
    hide UnShift30;
    Shift30BackTerm(x);
  }

  lemma Shift30ForthTerm(x: bv64)
    ensures XorShift30(x ^ (x >> 30) ^ (x >> 60)) == x
  {
    assert (x ^ (x >> 30) ^ (x >> 60)) >> 30 == (x >> 30) ^ (x >> 60);
  }

  lemma Shift30Forth(x: bv64)
    ensures XorShift30(UnShift30(x)) == x
  {
    hide XorShift30;
    Shift30ForthTerm(x);
  }

  lemma Shift27BackTerm(x: bv64)
    ensures UnShift27(x ^ (x >> 27)) == x
  {
    assert (x ^ (x >> 27)) >> 27 == (x >> 27) ^ (x >> 54);
    assert (x ^ (x >> 27)) >> 54 == x >> 54;
  }

  lemma Shift27Back(x: bv64)
    ensures UnShift27(XorShift27(x)) == x
  {
    hide UnShift27;
    Shift27BackTerm(x);
  }

  lemma Shift27ForthTerm(x: bv64)
    ensures XorShift27(x ^ (x >> 27) ^ (x >> 54)) == x
  {
    assert (x ^ (x >> 27) ^ (x >> 54)) >> 27 == (x >> 27) ^ (x >> 54);
  }

  lemma Shift27Forth(x: bv64)
    ensures XorShift27(UnShift27(x)) == x
  {
    hide XorShift27;
    Shift27ForthTerm(x);
  }

  lemma Shift31BackTerm(x: bv64)
    ensures UnShift31(x ^ (x >> 31)) == x
  {
    assert (x ^ (x >> 31)) >> 31 == (x >> 31) ^ (x >> 62);
    assert (x ^ (x >> 31)) >> 62 == x >> 62;
  }

  lemma Shift31Back(x: bv64)
    ensures UnShift31(XorShift31(x)) == x
  {
    hide UnShift31;
    Shift31BackTerm(x);
  }

  lemma Shift31ForthTerm(x: bv64)
    ensures XorShift31(x ^ (x >> 31) ^ (x >> 62)) == x
  {
    assert (x ^ (x >> 31) ^ (x >> 62)) >> 31 == (x >> 31) ^ (x >> 62);
  }

  lemma Shift31Forth(x: bv64)
    ensures XorShift31(UnShift31(x)) == x
  {
    hide XorShift31;
    Shift31ForthTerm(x);
  }

  lemma Multiplier1BackTerm(x: bv64)
    ensures Over1(x * 0xbf58_476d_1ce4_e5b9) == x
  {
  }

  lemma Multiplier1Back(x: bv64)
    ensures Over1(Times1(x)) == x
  {
    hide Over1;
    Multiplier1BackTerm(x);
  }

  lemma Multiplier1ForthTerm(x: bv64)
    ensures Times1(x * 0x96de_1b17_3f11_9089) == x
  {
  }

  lemma Multiplier1Forth(x: bv64)
    ensures Times1(Over1(x)) == x
  {
    hide Times1;
    Multiplier1ForthTerm(x);
  }

  lemma Multiplier2BackTerm(x: bv64)
    ensures Over2(x * 0x94d0_49bb_1331_11eb) == x
  {
  }

  lemma Multiplier2Back(x: bv64)
    ensures Over2(Times2(x)) == x
  {
    hide Over2;
    Multiplier2BackTerm(x);
  }

  lemma Multiplier2ForthTerm(x: bv64)
    ensures Times2(x * 0x3196_42b2_d24d_8ec3) == x
  {
  }

  lemma Multiplier2Forth(x: bv64)
    ensures Times2(Over2(x)) == x
  {
    hide Times2;
    Multiplier2ForthTerm(x);
  }

  lemma Gamma(x: bv64)
    ensures SubGamma(AddGamma(x)) == x && AddGamma(SubGamma(x)) == x
  {
  }

  lemma UnMixAfterMix(x: bv64)
    ensures UnMix64(SplitMix64(x)) == x
  {
    hide AddGamma, SubGamma, XorShift30, XorShift27, XorShift31, UnShift30, UnShift27, UnShift31;
    hide Times1, Times2, Over1, Over2;
    var v1 := AddGamma(x);
    var v2 := Times1(XorShift30(v1));
    var v3 := Times2(XorShift27(v2));
    Shift31Back(v3);
    Multiplier2Back(XorShift27(v2));
    Shift27Back(v2);
    Multiplier1Back(XorShift30(v1));
    Shift30Back(v1);
    Gamma(x);
  }

  lemma MixAfterUnMix(x: bv64)
    ensures SplitMix64(UnMix64(x)) == x
  {
    hide AddGamma, SubGamma, XorShift30, XorShift27, XorShift31, UnShift30, UnShift27, UnShift31;
    hide Times1, Times2, Over1, Over2;
    var v3 := UnShift31(x);
    var v2 := UnShift27(Over2(v3));
    var v1 := UnShift30(Over1(v2));
    Shift31Forth(x);
    Multiplier2Forth(v3);
    Shift27Forth(Over2(v3));
    Multiplier1Forth(v2);
    Shift30Forth(Over1(v2));
    Gamma(v1);
  }

  /** splitmix64 is a bijection on 64-bit words: `UnMix64` is its inverse on both sides. */
  lemma SplitMixBijective(x: bv64)
    ensures UnMix64(SplitMix64(x)) == x && SplitMix64(UnMix64(x)) == x
  {
    UnMixAfterMix(x);
    MixAfterUnMix(x);
  }

  /** The assignments of `splitmix64`. The result is the one word that, undone step by step, is `start`. */
  method SplitMix64Steps(start: bv64) returns (value: bv64)
    ensures UnMix64(value) == start
  {
    hide AddGamma, XorShift30, Times1, XorShift27, Times2, XorShift31, UnMix64;
    value := AddGamma(start);
    value := Times1(XorShift30(value));
    value := Times2(XorShift27(value));
    value := XorShift31(value);
    UnMixAfterMix(start);
  }

  // ----- the shuffle -----

  function Swap<T>(s: seq<T>, i: nat, j: nat): (r: seq<T>)
    requires i < |s| && j < |s|
    ensures |r| == |s|
  {
    s[i := s[j]][j := s[i]]
  }

  /** The place `seed` picks to swap position `index` with. */
  function Other(seed: bv64, index: nat): (r: nat)
    ensures r <= index
  {
    (seed as nat) % (index + 1)
  }

  /** Fisher-Yates from position `index` down, over a chain of splitmix64 steps. */
  function Shuffled<T>(items: seq<T>, seed: bv64, index: nat): (r: seq<T>)
    requires index < |items| || index == 0
    ensures |r| == |items|
    decreases index
  {
    if index == 0 then items
    else
      var next := SplitMix64(seed);
      Shuffled(Swap(items, index, Other(next, index)), next, index - 1)
  }

  function Shuffle<T>(items: seq<T>, seed: bv64): (r: seq<T>)
    ensures |r| == |items|
  {
    Shuffled(items, seed, if |items| == 0 then 0 else |items| - 1)
  }

  method ShuffleInPlace<T>(items: array<T>, start: bv64)
    modifies items
    ensures items[..] == Shuffle(old(items[..]), start)
  {
    hide SplitMix64, Other;
    var seed := start;
    var index: nat := if items.Length == 0 then 0 else items.Length - 1;
    while index > 0
      invariant index < items.Length || index == 0
      invariant Shuffled(items[..], seed, index) == Shuffle(old(items[..]), start)
    {
      ghost var was := items[..];
      seed := SplitMix64(seed);
      var other := Other(seed, index);
      items[index], items[other] := items[other], items[index];
      assert items[..] == Swap(was, index, other);
      index := index - 1;
    }
  }

  // ----- what a shuffle is -----

  lemma SwapKeepsMultiset<T>(s: seq<T>, i: nat, j: nat)
    requires i < |s| && j < |s|
    ensures multiset(Swap(s, i, j)) == multiset(s)
  {
  }

  /** Nothing is dealt twice or lost. */
  lemma {:induction false} ShuffledKeepsMultiset<T>(items: seq<T>, seed: bv64, index: nat)
    requires index < |items| || index == 0
    ensures multiset(Shuffled(items, seed, index)) == multiset(items)
    decreases index
  {
    hide SplitMix64, Other;
    if index == 0 {
    } else {
      var next := SplitMix64(seed);
      var other := Other(next, index);
      SwapKeepsMultiset(items, index, other);
      ShuffledKeepsMultiset(Swap(items, index, other), next, index - 1);
    }
  }

  /** The items at the places `perm` names. */
  function Apply<T>(items: seq<T>, perm: seq<nat>): (r: seq<T>)
    requires forall k :: 0 <= k < |perm| ==> perm[k] < |items|
    ensures |r| == |perm|
  {
    seq(|perm|, k requires 0 <= k < |perm| => items[perm[k]])
  }

  function Identity(n: nat): (r: seq<nat>)
    ensures |r| == n && forall k :: 0 <= k < n ==> r[k] == k
  {
    seq(n, k requires 0 <= k => k)
  }

  ghost predicate Places(perm: seq<nat>, n: nat) {
    forall k :: 0 <= k < |perm| ==> perm[k] < n
  }

  /** Shuffling commutes with renaming: the places are chosen without looking at the items. */
  lemma {:induction false} ShuffledNatural<T>(items: seq<T>, perm: seq<nat>, seed: bv64, index: nat)
    requires Places(perm, |items|) && (index < |perm| || index == 0)
    ensures Places(Shuffled(perm, seed, index), |items|)
    ensures Shuffled(Apply(items, perm), seed, index) == Apply(items, Shuffled(perm, seed, index))
    decreases index
  {
    hide SplitMix64, Other;
    if index == 0 {
    } else {
      var next := SplitMix64(seed);
      var other := Other(next, index);
      assert Swap(Apply(items, perm), index, other) == Apply(items, Swap(perm, index, other));
      ShuffledNatural(items, Swap(perm, index, other), next, index - 1);
    }
  }

  /** A shuffle applies one permutation of the places, which only the seed and the length decide. */
  lemma ShuffleIsOnePermutation<T>(items: seq<T>, seed: bv64)
    ensures var perm := Shuffle(Identity(|items|), seed);
            Places(perm, |items|) && multiset(perm) == multiset(Identity(|items|)) &&
            Shuffle(items, seed) == Apply(items, perm)
  {
    hide Shuffled;
    var id, last := Identity(|items|), if |items| == 0 then 0 else |items| - 1;
    assert Apply(items, id) == items;
    ShuffledNatural(items, id, seed, last);
    ShuffledKeepsMultiset(id, seed, last);
  }

  // ----- known values, and where an item ends up -----

  /** Known values of the two hashes: of the empty text, of "a" and of "b"; and of the seed 0. */
  lemma KnownHashes()
    ensures Fnv1a([]) == 0xcbf2_9ce4_8422_2325
    ensures Fnv1a([0x61]) == 0xaf63_dc4c_8601_ec8c && Fnv1a([0x62]) == 0xaf63_df4c_8601_f1a5
    ensures SplitMix64(0) == 0xe220_a839_7b1d_cdaf
  {
    assert FnvFrom(FNV_OFFSET, [0x61]) == FnvStep(FNV_OFFSET, 0x61);
    assert FnvFrom(FNV_OFFSET, [0x62]) == FnvStep(FNV_OFFSET, 0x62);
  }

  lemma Joins<T>(a: seq<T>, b: seq<T>, c: seq<T>)
    ensures a + (b + c) == (a + b) + c
  {
  }

  /** Positions above `index` are settled, and those up to it do not look at them. */
  lemma {:induction false} ShuffledPrefix<T>(items: seq<T>, seed: bv64, index: nat)
    requires index < |items|
    ensures Shuffled(items, seed, index) == Shuffled(items[..index + 1], seed, index) + items[index + 1..]
    decreases index
  {
    hide SplitMix64, Other;
    var front, tail := items[..index + 1], items[index + 1..];
    assert items == front + tail;
    if index == 0 {
    } else {
      var next := SplitMix64(seed);
      var other := Other(next, index);
      var swapped, inner := Swap(items, index, other), Swap(front, index, other);
      assert swapped == inner + tail;
      ShuffledPrefix(swapped, next, index - 1);
      ShuffledPrefix(inner, next, index - 1);
      assert swapped[..index] == inner[..index] && swapped[index..] == inner[index..] + tail;
      Joins(Shuffled(inner[..index], next, index - 1), inner[index..], tail);
    }
  }

  /** Where the items go, without the swap: the last place gets the item the next word of the chain points at,
      modulo the length; the item that stood last takes its place, and the rest is the shuffle of what is left
      from that word on. */
  lemma ShuffleDealsLast<T>(items: seq<T>, seed: bv64, j: nat)
    requires |items| > 1 && j == (SplitMix64(seed) as nat) % |items|
    ensures j < |items|
    ensures var n := |items|;
            Shuffle(items, seed) == Shuffle(items[j := items[n - 1]][..n - 1], SplitMix64(seed)) + [items[j]]
  {
    hide SplitMix64;
    var n, word := |items|, SplitMix64(seed);
    var swapped := Swap(items, n - 1, j);
    assert Shuffle(items, seed) == Shuffled(swapped, word, n - 2);
    ShuffledPrefix(swapped, word, n - 2);
    assert swapped[..n - 1] == items[j := items[n - 1]][..n - 1];
    assert swapped[n - 1..] == [items[j]];
  }

  lemma ShortShuffle<T>(items: seq<T>, seed: bv64)
    requires |items| <= 1
    ensures Shuffle(items, seed) == items
  {
  }
}
