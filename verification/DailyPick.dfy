/** `choose_for_date`: which entry of a pack a day gets, and the rotation that makes.

    Keys stand in the order the program compares them by; here they are integers. Days are integers. */
module DailyPick {
  import opened Options
  import opened DailyHash

  // ----- one choice -----

  /** The entries never claimed, in pack order. */
  function Unused<T>(pack: seq<T>, key: T -> int, lastUsed: map<int, int>): seq<T> {
    if pack == [] then []
    else (if key(pack[0]) in lastUsed then [] else [pack[0]]) + Unused(pack[1..], key, lastUsed)
  }

  predicate Before<T>(a: T, b: T, key: T -> int, lastUsed: map<int, int>)
    requires key(a) in lastUsed && key(b) in lastUsed
  {
    lastUsed[key(a)] < lastUsed[key(b)] || (lastUsed[key(a)] == lastUsed[key(b)] && key(a) < key(b))
  }

  /** The first of the entries claimed longest ago, ties by key. */
  function Oldest<T>(pack: seq<T>, key: T -> int, lastUsed: map<int, int>): (e: T)
    requires pack != [] && forall k :: 0 <= k < |pack| ==> key(pack[k]) in lastUsed
    ensures e in pack
  {
    if |pack| == 1 then pack[0]
    else
      var rest := Oldest(pack[..|pack| - 1], key, lastUsed);
      if Before(pack[|pack| - 1], rest, key, lastUsed) then pack[|pack| - 1] else rest
  }

  lemma {:induction false} UnusedMeaning<T>(pack: seq<T>, key: T -> int, lastUsed: map<int, int>)
    ensures forall e :: e in Unused(pack, key, lastUsed) <==> e in pack && key(e) !in lastUsed
    ensures Unused(pack, key, lastUsed) == [] ==> forall k :: 0 <= k < |pack| ==> key(pack[k]) in lastUsed
  {
    if pack == [] {
    } else {
      UnusedMeaning(pack[1..], key, lastUsed);
      assert pack == [pack[0]] + pack[1..];
      if Unused(pack, key, lastUsed) == [] {
        assert forall k :: 0 <= k < |pack| ==> pack[k] in pack;
      }
    }
  }

  function Choose<T>(pack: seq<T>, key: T -> int, lastUsed: map<int, int>, seed: Text): Option<T> {
    var unused := Unused(pack, key, lastUsed);
    if unused != [] then Some(unused[(Fnv1a(seed) as nat) % |unused|])
    else if pack == [] then None
    else
      UnusedMeaning(pack, key, lastUsed);
      Some(Oldest(pack, key, lastUsed))
  }

  lemma {:induction false} OldestMeaning<T>(pack: seq<T>, key: T -> int, lastUsed: map<int, int>)
    requires pack != [] && forall k :: 0 <= k < |pack| ==> key(pack[k]) in lastUsed
    ensures Oldest(pack, key, lastUsed) in pack
    ensures forall k :: 0 <= k < |pack| ==> !Before(pack[k], Oldest(pack, key, lastUsed), key, lastUsed)
  {
    if |pack| == 1 {
    } else {
      OldestMeaning(pack[..|pack| - 1], key, lastUsed);
      assert pack == pack[..|pack| - 1] + [pack[|pack| - 1]];
    }
  }

  /** How many entries were never claimed. */
  function Unclaimed<T>(pack: seq<T>, key: T -> int, lastUsed: map<int, int>): nat {
    if pack == [] then 0
    else
      var last := |pack| - 1;
      Unclaimed(pack[..last], key, lastUsed) + (if key(pack[last]) in lastUsed then 0 else 1)
  }

  lemma {:induction false} UnclaimedFront<T>(pack: seq<T>, key: T -> int, lastUsed: map<int, int>)
    requires pack != []
    ensures Unclaimed(pack, key, lastUsed) ==
            (if key(pack[0]) in lastUsed then 0 else 1) + Unclaimed(pack[1..], key, lastUsed)
    decreases |pack|
  {
    var last := |pack| - 1;
    if last == 0 {
      assert pack[..0] == [] && pack[1..] == [];
    } else {
      UnclaimedFront(pack[..last], key, lastUsed);
      assert pack[..last][1..] == pack[1..][..last - 1];
    }
  }

  lemma {:induction false} UnusedCount<T>(pack: seq<T>, key: T -> int, lastUsed: map<int, int>)
    ensures |Unused(pack, key, lastUsed)| == Unclaimed(pack, key, lastUsed)
    decreases |pack|
  {
    if pack == [] {
    } else {
      UnclaimedFront(pack, key, lastUsed);
      UnusedCount(pack[1..], key, lastUsed);
    }
  }

  /** Entry `k` of the unclaimed ones stands where `k` unclaimed ones are in front of it. */
  lemma {:induction false} UnusedAt<T>(pack: seq<T>, key: T -> int, lastUsed: map<int, int>, k: nat) returns (i: nat)
    requires k < |Unused(pack, key, lastUsed)|
    ensures |Unused(pack, key, lastUsed)| == Unclaimed(pack, key, lastUsed)
    ensures i < |pack| && pack[i] == Unused(pack, key, lastUsed)[k] && key(pack[i]) !in lastUsed
    ensures Unclaimed(pack[..i], key, lastUsed) == k
    decreases |pack|
  {
    UnclaimedFront(pack, key, lastUsed);
    UnusedCount(pack[1..], key, lastUsed);
    if key(pack[0]) in lastUsed {
      var later := UnusedAt(pack[1..], key, lastUsed, k);
      i := later + 1;
      UnclaimedFront(pack[..i], key, lastUsed);
      assert pack[..i][1..] == pack[1..][..later];
    } else if k == 0 {
      i := 0;
    } else {
      var later := UnusedAt(pack[1..], key, lastUsed, k - 1);
      i := later + 1;
      UnclaimedFront(pack[..i], key, lastUsed);
      assert pack[..i][1..] == pack[1..][..later];
    }
  }

  /** While entries are left that were never claimed, the day's text picks among them: the chosen one has as
      many of them in front of it as the text's hash leaves modulo their number. */
  lemma ChooseByHash<T>(pack: seq<T>, key: T -> int, lastUsed: map<int, int>, seed: Text) returns (i: nat)
    requires Unclaimed(pack, key, lastUsed) > 0
    ensures i < |pack| && Choose(pack, key, lastUsed, seed) == Some(pack[i]) && key(pack[i]) !in lastUsed
    ensures Unclaimed(pack[..i], key, lastUsed) == (Fnv1a(seed) as nat) % Unclaimed(pack, key, lastUsed)
  {
    hide Fnv1a;
    UnusedCount(pack, key, lastUsed);
    i := UnusedAt(pack, key, lastUsed, (Fnv1a(seed) as nat) % Unclaimed(pack, key, lastUsed));
  }

  /** An entry never claimed comes first; once there is none, the one claimed longest ago, and of several the
      one with the smallest key. `None` only for an empty pack. */
  lemma ChooseMeaning<T>(pack: seq<T>, key: T -> int, lastUsed: map<int, int>, seed: Text)
    ensures Choose(pack, key, lastUsed, seed).None? <==> pack == []
    ensures pack != [] ==>
              var e := Choose(pack, key, lastUsed, seed).value;
              e in pack &&
              if (exists x :: x in pack && key(x) !in lastUsed) then key(e) !in lastUsed
              else forall x :: x in pack ==>
                key(x) in lastUsed && key(e) in lastUsed &&
                (lastUsed[key(e)] < lastUsed[key(x)] ||
                 (lastUsed[key(e)] == lastUsed[key(x)] && key(e) <= key(x)))
  {
    hide Fnv1a;
    UnusedMeaning(pack, key, lastUsed);
    var unused := Unused(pack, key, lastUsed);
    if unused != [] {
      assert unused[0] in unused;
    } else if pack != [] {
      OldestMeaning(pack, key, lastUsed);
    }
  }

  // ----- a run of days -----

  /** A pack, what had been claimed before, and the day and seed text of each pick. */
  datatype Schedule<!T> = Schedule(pack: seq<T>, key: T -> int, history: map<int, int>, days: nat -> int, seeds: nat -> Text)

  /** Entries have distinct keys, days only move on, and the history lies before the first of them. */
  ghost predicate Proper<T>(s: Schedule<T>) {
    && s.pack != []
    && (forall i, j :: 0 <= i < j < |s.pack| ==> s.key(s.pack[i]) != s.key(s.pack[j]))
    && (forall i: nat, j: nat :: i < j ==> s.days(i) < s.days(j))
    && (forall k :: k in s.history ==> s.history[k] < s.days(0))
  }

  /** What the claims look like in front of pick `n`. */
  function ClaimsAt<T>(s: Schedule<T>, n: nat): map<int, int>
    requires s.pack != []
    decreases n, 1
  {
    if n == 0 then s.history else ClaimsAt(s, n - 1)[s.key(Pick(s, n - 1)) := s.days(n - 1)]
  }

  function Pick<T>(s: Schedule<T>, n: nat): T
    requires s.pack != []
    decreases n, 2
  {
    ChooseMeaning(s.pack, s.key, ClaimsAt(s, n), s.seeds(n));
    Choose(s.pack, s.key, ClaimsAt(s, n), s.seeds(n)).value
  }

  /** Every claim in front of pick `n` is dated before its day. */
  lemma {:induction false} ClaimsArePast<T>(s: Schedule<T>, n: nat)
    requires Proper(s)
    ensures forall k :: k in ClaimsAt(s, n) ==> ClaimsAt(s, n)[k] < s.days(n)
    decreases n
  {
    hide Pick;
    if n == 0 {
    } else {
      ClaimsArePast(s, n - 1);
      assert s.days(n - 1) < s.days(n);
    }
  }

  /** A key picked since `from` is claimed on or after that day; any other stands as it did. */
  lemma {:induction false} ClaimsSince<T>(s: Schedule<T>, from: nat, n: nat, k: int)
    requires Proper(s) && from <= n
    ensures (exists i :: from <= i < n && s.key(Pick(s, i)) == k) ==>
              k in ClaimsAt(s, n) && ClaimsAt(s, n)[k] >= s.days(from)
    ensures (forall i :: from <= i < n ==> s.key(Pick(s, i)) != k) ==>
              (k in ClaimsAt(s, n) <==> k in ClaimsAt(s, from)) &&
              (k in ClaimsAt(s, n) ==> ClaimsAt(s, n)[k] == ClaimsAt(s, from)[k])
    decreases n
  {
    hide Pick;
    if from == n {
    } else {
      ClaimsSince(s, from, n - 1, k);
      assert s.days(n - 1) >= s.days(from);
      if s.key(Pick(s, n - 1)) != k && exists i :: from <= i < n && s.key(Pick(s, i)) == k {
        var i :| from <= i < n && s.key(Pick(s, i)) == k;
        assert i < n - 1;
      }
    }
  }

  lemma PickIsInPack<T>(s: Schedule<T>, n: nat)
    requires s.pack != []
    ensures Pick(s, n) in s.pack
  {
    ChooseMeaning(s.pack, s.key, ClaimsAt(s, n), s.seeds(n));
  }

  // ----- counting -----

  function Elements(q: seq<int>): set<int> { set x | x in q }

  ghost predicate Distinct(q: seq<int>) { forall i, j :: 0 <= i < j < |q| ==> q[i] != q[j] }

  lemma {:induction false} ElementsCount(q: seq<int>)
    ensures |Elements(q)| <= |q|
    ensures Distinct(q) ==> |Elements(q)| == |q|
  {
    if q == [] {
    } else {
      var front, last := q[..|q| - 1], q[|q| - 1];
      ElementsCount(front);
      assert q == front + [last];
      assert Elements(q) == Elements(front) + {last};
    }
  }

  lemma {:induction false} SubsetCount<T>(a: set<T>, b: set<T>)
    requires a <= b
    ensures |a| <= |b|
    ensures |a| == |b| ==> a == b
    decreases |a|
  {
    if |a| == 0 {
    } else {
      var x :| x in a;
      SubsetCount(a - {x}, b - {x});
      assert a == (a - {x}) + {x} && b == (b - {x}) + {x};
    }
  }

  /** A shorter list misses some element of a list without repeats. */
  lemma SomeMissing(all: seq<int>, some: seq<int>) returns (i: nat)
    requires Distinct(all) && |some| < |all|
    ensures i < |all| && all[i] !in some
  {
    ElementsCount(all);
    ElementsCount(some);
    if Elements(all) <= Elements(some) { SubsetCount(Elements(all), Elements(some)); }
    var x :| x in Elements(all) && x !in Elements(some);
    i :| 0 <= i < |all| && all[i] == x;
  }

  /** Two lists without repeats, of one length, one within the other: both hold the same. */
  lemma NoneMissing(all: seq<int>, some: seq<int>)
    requires Distinct(all) && Distinct(some) && |some| == |all|
    requires forall k :: 0 <= k < |some| ==> some[k] in all
    ensures forall k :: 0 <= k < |all| ==> all[k] in some
  {
    ElementsCount(all);
    ElementsCount(some);
    SubsetCount(Elements(some), Elements(all));
    forall k | 0 <= k < |all| ensures all[k] in some { assert all[k] in Elements(all); }
  }

  function PackKeys<T>(s: Schedule<T>): seq<int> {
    seq(|s.pack|, k requires 0 <= k < |s.pack| => s.key(s.pack[k]))
  }

  /** The keys of `count` picks, starting with pick `from`. */
  function KeysPicked<T>(s: Schedule<T>, from: nat, count: nat): seq<int>
    requires s.pack != []
  {
    seq(count, i requires 0 <= i => s.key(Pick(s, from + i)))
  }

  /** With fewer picks since `from` than entries, some entry has not been picked since. */
  lemma SomeEntryWaits<T>(s: Schedule<T>, from: nat, n: nat) returns (e: T)
    requires Proper(s) && from <= n < from + |s.pack|
    ensures e in s.pack && forall i :: from <= i < n ==> s.key(Pick(s, i)) != s.key(e)
  {
    hide Pick;
    var picked := KeysPicked(s, from, n - from);
    var k := SomeMissing(PackKeys(s), picked);
    e := s.pack[k];
    forall i | from <= i < n ensures s.key(Pick(s, i)) != s.key(e) {
      assert picked[i - from] == s.key(Pick(s, i));
    }
  }

  /** No entry comes round again while another waits. */
  lemma NoRepeatWithinPack<T>(s: Schedule<T>, i: nat, j: nat)
    requires Proper(s) && i < j < i + |s.pack|
    ensures s.key(Pick(s, i)) != s.key(Pick(s, j))
  {
    var k := s.key(Pick(s, i));
    var claims := ClaimsAt(s, j);
    ClaimsSince(s, i, j, k);
    assert k in claims && claims[k] >= s.days(i);
    var e := SomeEntryWaits(s, i, j);
    ClaimsSince(s, i, j, s.key(e));
    ClaimsArePast(s, i);
    ChooseMeaning(s.pack, s.key, claims, s.seeds(j));
    if s.key(e) in claims {
      assert claims[s.key(e)] < s.days(i);
    }
  }

  lemma SamePackEntry<T>(s: Schedule<T>, a: T, b: T)
    requires Proper(s) && a in s.pack && b in s.pack && s.key(a) == s.key(b)
    ensures a == b
  {
    var i :| 0 <= i < |s.pack| && s.pack[i] == a;
    var j :| 0 <= j < |s.pack| && s.pack[j] == b;
  }

  /** Pick `i` is entry `e`. */
  ghost predicate PickIs<T>(s: Schedule<T>, i: nat, e: T)
    requires s.pack != []
  {
    Pick(s, i) == e
  }

  /** Each entry comes up within any run of picks as long as the puzzle pack. */
  lemma EntryComesUp<T>(s: Schedule<T>, from: nat, e: T) returns (i: nat)
    requires Proper(s) && e in s.pack
    ensures from <= i < from + |s.pack| && PickIs(s, i, e)
  {
    hide Pick, ClaimsAt;
    var n := |s.pack|;
    var picked := KeysPicked(s, from, n);
    forall i, j | 0 <= i < j < n ensures picked[i] != picked[j] {
      NoRepeatWithinPack(s, from + i, from + j);
    }
    forall k | 0 <= k < n ensures picked[k] in PackKeys(s) {
      PickIsInPack(s, from + k);
      var j :| 0 <= j < n && s.pack[j] == Pick(s, from + k);
      assert PackKeys(s)[j] == picked[k];
    }
    NoneMissing(PackKeys(s), picked);
    var j :| 0 <= j < n && s.pack[j] == e;
    assert PackKeys(s)[j] in picked;
    var k :| 0 <= k < n && picked[k] == s.key(e);
    i := from + k;
    PickIsInPack(s, i);
    SamePackEntry(s, Pick(s, i), e);
  }

  /** Fair rotation: any run of picks as long as the puzzle pack shows each entry exactly once. */
  lemma FairRotation<T>(s: Schedule<T>, from: nat)
    requires Proper(s)
    ensures forall e :: e in s.pack ==> exists i :: from <= i < from + |s.pack| && PickIs(s, i, e)
    ensures forall i, j :: from <= i < j < from + |s.pack| ==> Pick(s, i) != Pick(s, j)
  {
    hide Pick;
    forall e | e in s.pack ensures exists i :: from <= i < from + |s.pack| && PickIs(s, i, e) {
      var i := EntryComesUp(s, from, e);
    }
    forall i, j | from <= i < j < from + |s.pack| ensures Pick(s, i) != Pick(s, j) {
      NoRepeatWithinPack(s, i, j);
    }
  }

  /** From the first pick on the schedule repeats with the size of the puzzle pack as its period. */
  lemma RotationHasPeriod<T>(s: Schedule<T>, n: nat)
    requires Proper(s)
    ensures Pick(s, n + |s.pack|) == Pick(s, n)
  {
    PickIsInPack(s, n);
    var i := EntryComesUp(s, n + 1, Pick(s, n));
    if i < n + |s.pack| {
      NoRepeatWithinPack(s, n, i);
    }
  }
}
