/**
 Bucket choice with exclusion: HashBucket maps a jump-hash value onto the buckets that have not
 been tried yet. The hash itself is a parameter of which only the range is used.
 */
module Buckets {
  import opened Wrappers
  import opened Promise

  // ---- slices.Sort ----

  ghost predicate Sorted(s: seq<int>) {
    forall i, j :: 0 <= i < j < |s| ==> s[i] <= s[j]
  }

  function Insert(x: int, s: seq<int>): (r: seq<int>)
    ensures |r| == |s| + 1
  {
    if s == [] then [x] else if x <= s[0] then [x] + s else [s[0]] + Insert(x, s[1..])
  }

  lemma {:induction false} InsertKeeps(x: int, s: seq<int>)
    ensures multiset(Insert(x, s)) == multiset(s) + multiset{x}
    decreases |s|
  {
    if s != [] && x > s[0] {
      InsertKeeps(x, s[1..]);
      assert s == [s[0]] + s[1..];
    }
  }

  lemma {:induction false} InsertAbove(x: int, s: seq<int>, low: int, i: nat)
    requires low <= x && (forall k :: 0 <= k < |s| ==> low <= s[k]) && i < |Insert(x, s)|
    ensures low <= Insert(x, s)[i]
    decreases |s|
  {
    if s != [] && x > s[0] && i > 0 {
      InsertAbove(x, s[1..], low, i - 1);
    }
  }

  lemma {:induction false} InsertSorted(x: int, s: seq<int>)
    requires Sorted(s)
    ensures Sorted(Insert(x, s))
    decreases |s|
  {
    if s != [] && x > s[0] {
      InsertSorted(x, s[1..]);
      var rest := Insert(x, s[1..]);
      forall i | 0 <= i < |rest|
        ensures s[0] <= rest[i]
      {
        InsertAbove(x, s[1..], s[0], i);
      }
    }
  }

  function Sort(s: seq<int>): (r: seq<int>)
    ensures |r| == |s|
  {
    if s == [] then [] else Insert(s[0], Sort(s[1..]))
  }

  /** Sort orders the elements and keeps them. */
  lemma {:induction false} SortFacts(s: seq<int>)
    ensures Sorted(Sort(s)) && multiset(Sort(s)) == multiset(s)
    ensures forall x :: x in Sort(s) <==> x in s
    decreases |s|
  {
    if s != [] {
      SortFacts(s[1..]);
      InsertKeeps(s[0], Sort(s[1..]));
      InsertSorted(s[0], Sort(s[1..]));
      assert s == [s[0]] + s[1..];
    }
    SameElements(Sort(s), s);
  }

  lemma SameElements(a: seq<int>, b: seq<int>)
    requires multiset(a) == multiset(b)
    ensures forall x :: x in a <==> x in b
  {
    forall x
      ensures x in a <==> x in b
    {
      assert x in a <==> x in multiset(a);
      assert x in b <==> x in multiset(b);
    }
  }

  lemma SortedHeads(a: seq<int>, b: seq<int>)
    requires Sorted(a) && Sorted(b) && multiset(a) == multiset(b)
    ensures (a == [] <==> b == []) && (a != [] && b != [] ==> a[0] == b[0])
  {
    SameElements(a, b);
    if a != [] {
      assert a[0] in a && a[0] in b;
    }
    if b != [] {
      assert b[0] in b && b[0] in a;
    }
  }

  /** Sorted sequences of the same elements are equal. */
  lemma {:induction false} SortedUnique(a: seq<int>, b: seq<int>)
    requires Sorted(a) && Sorted(b) && multiset(a) == multiset(b)
    ensures a == b
    decreases |a|
  {
    SortedHeads(a, b);
    if a != [] {
      TailElements(a);
      TailElements(b);
      SortedUnique(a[1..], b[1..]);
      assert a == [a[0]] + a[1..] && b == [b[0]] + b[1..];
    }
  }

  lemma TailElements(a: seq<int>)
    requires a != []
    ensures multiset(a[1..]) == multiset(a) - multiset{a[0]}
  {
    assert a == [a[0]] + a[1..];
  }

  method SortInPlace(a: array<int>)
    modifies a
    ensures a[..] == Sort(old(a[..]))
  {
    var s := Sort(a[..]);
    for i := 0 to a.Length
      invariant a[..i] == s[..i]
    {
      a[i] := s[i];
    }
    assert a[..] == a[..a.Length] == s[..a.Length] == s;
  }

  // ---- the exclusion loop ----

  /** The loop over the sorted previous buckets: step over each one that is not above. */
  function Pick(bucket: int, prev: seq<int>): int
    decreases |prev|
  {
    if prev == [] then bucket
    else Pick(if bucket >= prev[0] then bucket + 1 else bucket, prev[1..])
  }

  lemma {:induction false} PickBounds(bucket: int, prev: seq<int>)
    ensures bucket <= Pick(bucket, prev) <= bucket + |prev|
    decreases |prev|
  {
    if prev != [] {
      PickBounds(if bucket >= prev[0] then bucket + 1 else bucket, prev[1..]);
    }
  }

  lemma {:induction false} PickBelow(bucket: int, prev: seq<int>)
    requires forall i :: 0 <= i < |prev| ==> bucket < prev[i]
    ensures Pick(bucket, prev) == bucket
    decreases |prev|
  {
    if prev != [] {
      PickBelow(bucket, prev[1..]);
    }
  }

  /** The chosen bucket is none of the previous ones, whatever those are. */
  lemma {:induction false} PickAvoids(bucket: int, prev: seq<int>)
    requires Sorted(prev)
    ensures Pick(bucket, prev) !in prev
    decreases |prev|
  {
    if prev != [] {
      if bucket >= prev[0] {
        PickAvoids(bucket + 1, prev[1..]);
        PickBounds(bucket + 1, prev[1..]);
      } else {
        PickBelow(bucket, prev);
      }
    }
  }

  /** Different jump values give different buckets, in the same order. */
  lemma {:induction false} PickIncreasing(a: int, b: int, prev: seq<int>)
    requires a < b
    ensures Pick(a, prev) < Pick(b, prev)
    decreases |prev|
  {
    if prev != [] {
      PickIncreasing(if a >= prev[0] then a + 1 else a, if b >= prev[0] then b + 1 else b, prev[1..]);
    }
  }

  /** How many of the previous buckets lie below x. */
  function Below(prev: seq<int>, x: int): nat {
    if prev == [] then 0 else (if prev[0] < x then 1 else 0) + Below(prev[1..], x)
  }

  ghost predicate Ascending(prev: seq<int>) {
    forall i, j :: 0 <= i < j < |prev| ==> prev[i] < prev[j]
  }

  /** Distinct numbers above lo take room. */
  lemma {:induction false} BelowRoom(prev: seq<int>, lo: int, x: int)
    requires Ascending(prev) && lo < x
    requires forall i :: 0 <= i < |prev| ==> lo < prev[i]
    ensures Below(prev, x) <= x - lo - 1
    decreases |prev|
  {
    if prev != [] {
      if prev[0] < x {
        BelowRoom(prev[1..], prev[0], x);
      } else {
        NoneBelow(prev, x);
      }
    }
  }

  lemma {:induction false} NoneBelow(prev: seq<int>, x: int)
    requires forall i :: 0 <= i < |prev| ==> x <= prev[i]
    ensures Below(prev, x) == 0
    decreases |prev|
  {
    if prev != [] {
      NoneBelow(prev[1..], x);
    }
  }

  /** Every bucket that is not excluded is chosen for the jump value that counts the buckets
      left below it. */
  lemma {:induction false} PickReaches(prev: seq<int>, x: int)
    requires Ascending(prev) && x !in prev
    ensures Pick(x - Below(prev, x), prev) == x
    decreases |prev|
  {
    if prev != [] {
      if prev[0] < x {
        BelowRoom(prev[1..], prev[0], x);
        PickReaches(prev[1..], x);
      } else {
        NoneBelow(prev, x);
        PickBelow(x, prev);
      }
    }
  }

  /** That jump value is one the hash can return. */
  lemma {:induction false} BelowAtLeast(prev: seq<int>, x: int, top: int)
    requires Ascending(prev) && x !in prev && x < top
    requires forall i :: 0 <= i < |prev| ==> prev[i] < top
    ensures |prev| - Below(prev, x) <= top - x - 1
    decreases |prev|
  {
    if prev != [] {
      var last := prev[|prev| - 1];
      BelowSplit(prev, x);
      if last < x {
        AllBelow(prev, x);
      } else {
        assert x !in prev[..|prev| - 1];
        BelowAtLeast(prev[..|prev| - 1], x, last);
      }
    }
  }

  lemma {:induction false} BelowSplit(prev: seq<int>, x: int)
    requires prev != []
    ensures Below(prev, x) == Below(prev[..|prev| - 1], x) + (if prev[|prev| - 1] < x then 1 else 0)
    decreases |prev|
  {
    if |prev| > 1 {
      BelowSplit(prev[1..], x);
      assert prev[1..][..|prev| - 2] == prev[..|prev| - 1][1..];
    }
  }

  lemma {:induction false} AllBelow(prev: seq<int>, x: int)
    requires forall i :: 0 <= i < |prev| ==> prev[i] < x
    ensures Below(prev, x) == |prev|
    decreases |prev|
  {
    if prev != [] {
      AllBelow(prev[1..], x);
    }
  }

  ghost predicate Distinct(s: seq<int>) {
    forall i, j :: 0 <= i < j < |s| ==> s[i] != s[j]
  }

  ghost predicate Within(prev: seq<int>, buckets: nat) {
    forall i :: 0 <= i < |prev| ==> 0 <= prev[i] < buckets
  }

  lemma {:induction false} DistinctOnce(s: seq<int>, x: int)
    requires Distinct(s)
    ensures multiset(s)[x] <= 1
    decreases |s|
  {
    if s != [] {
      assert s == [s[0]] + s[1..];
      DistinctOnce(s[1..], x);
    }
  }

  lemma Twice(r: seq<int>, i: nat, j: nat)
    requires i < j < |r| && r[i] == r[j]
    ensures multiset(r)[r[i]] >= 2
  {
    assert r == r[..j] + r[j..];
    assert r[..j][i] in multiset(r[..j]);
    assert r[j..][0] in multiset(r[j..]);
    assert multiset(r) == multiset(r[..j]) + multiset(r[j..]);
  }

  lemma {:induction false} SortDistinct(s: seq<int>)
    requires Distinct(s)
    ensures Ascending(Sort(s))
  {
    var r := Sort(s);
    SortFacts(s);
    forall i, j | 0 <= i < j < |r|
      ensures r[i] < r[j]
    {
      DistinctOnce(s, r[i]);
      if r[i] == r[j] {
        Twice(r, i, j);
      }
    }
  }

  /** The bucket chosen for a jump value with the given previous buckets. */
  function Choose(jump: int, prev: seq<int>): int {
    Pick(jump, Sort(prev))
  }

  /** For distinct previous buckets, the jump values [0, buckets - k) are mapped one to one, in
      order, onto exactly the buckets not excluded. */
  lemma ExclusionBijection(buckets: nat, prev: seq<int>)
    requires Distinct(prev) && Within(prev, buckets)
    ensures forall a, b :: 0 <= a < b < buckets - |prev| ==> Choose(a, prev) < Choose(b, prev)
    ensures forall a :: 0 <= a < buckets - |prev| ==> 0 <= Choose(a, prev) < buckets && Choose(a, prev) !in prev
    ensures forall x :: 0 <= x < buckets && x !in prev ==>
              exists a :: 0 <= a < buckets - |prev| && Choose(a, prev) == x
  {
    var sorted := Sort(prev);
    SortDistinct(prev);
    forall a, b | 0 <= a < b < buckets - |prev|
      ensures Choose(a, prev) < Choose(b, prev)
    {
      PickIncreasing(a, b, sorted);
    }
    forall a | 0 <= a < buckets - |prev|
      ensures 0 <= Choose(a, prev) < buckets && Choose(a, prev) !in prev
    {
      ChooseSound(a, buckets, prev);
    }
    forall x | 0 <= x < buckets && x !in prev
      ensures exists a :: 0 <= a < buckets - |prev| && Choose(a, prev) == x
    {
      var a := ChosenFor(x, buckets, prev);
    }
  }

  lemma ChosenFor(x: int, buckets: nat, prev: seq<int>) returns (a: int)
    requires Distinct(prev) && Within(prev, buckets)
    requires 0 <= x < buckets && x !in prev
    ensures 0 <= a < buckets - |prev| && Choose(a, prev) == x
  {
    var sorted := Sort(prev);
    SortDistinct(prev);
    SortFacts(prev);
    forall i | 0 <= i < |sorted|
      ensures sorted[i] in prev
    {
      assert sorted[i] in sorted;
    }
    assert x !in sorted;
    a := ReachedFrom(x, buckets, sorted);
  }

  lemma ReachedFrom(x: int, buckets: nat, sorted: seq<int>) returns (a: int)
    requires Ascending(sorted) && Within(sorted, buckets)
    requires 0 <= x < buckets && x !in sorted
    ensures 0 <= a < buckets - |sorted| && Pick(a, sorted) == x
  {
    a := x - Below(sorted, x);
    BelowRoom(sorted, -1, x);
    BelowAtLeast(sorted, x, buckets);
    PickReaches(sorted, x);
  }

  /** The buckets below x that are left. */
  ghost function LeftBelow(prev: seq<int>, x: int): (left: set<int>)
    ensures forall y :: y in left <==> 0 <= y < x && y !in prev
  {
    set y | 0 <= y < x && y !in prev
  }

  /** The next jump value passes over one more bucket that is left. */
  lemma NextLeft(jump: nat, buckets: nat, prev: seq<int>)
    requires Distinct(prev) && Within(prev, buckets) && jump + 1 < buckets - |prev|
    ensures var y := Choose(jump, prev);
            LeftBelow(prev, Choose(jump + 1, prev)) == LeftBelow(prev, y) + {y}
  {
    var x, y, sorted := Choose(jump + 1, prev), Choose(jump, prev), Sort(prev);
    ChooseSound(jump, buckets, prev);
    ChooseSound(jump + 1, buckets, prev);
    PickIncreasing(jump, jump + 1, sorted);
    forall z | 0 <= z < x && z !in prev
      ensures z <= y
    {
      var a := ChosenFor(z, buckets, prev);
      if a > jump + 1 {
        PickIncreasing(jump + 1, a, sorted);
      } else if a < jump {
        PickIncreasing(a, jump, sorted);
      }
    }
  }

  lemma FirstLeft(buckets: nat, prev: seq<int>)
    requires Distinct(prev) && Within(prev, buckets) && 0 < buckets - |prev|
    ensures LeftBelow(prev, Choose(0, prev)) == {}
  {
    ChooseSound(0, buckets, prev);
    forall z | 0 <= z < Choose(0, prev) && z !in prev
      ensures false
    {
      var a := ChosenFor(z, buckets, prev);
      PickIncreasing(0, a, Sort(prev));
    }
  }

  lemma OneMoreElement(s: set<int>, x: int, t: set<int>)
    requires x !in s && t == s + {x}
    ensures |t| == |s| + 1
  {
  }

  /** What a jump value stands for: of the buckets left, the one with as many of them below it. */
  lemma {:induction false} ChosenByRank(jump: nat, buckets: nat, prev: seq<int>)
    requires Distinct(prev) && Within(prev, buckets) && jump < buckets - |prev|
    ensures |LeftBelow(prev, Choose(jump, prev))| == jump
  {
    if jump == 0 {
      FirstLeft(buckets, prev);
    } else {
      var y := Choose(jump - 1, prev);
      ChosenByRank(jump - 1, buckets, prev);
      NextLeft(jump - 1, buckets, prev);
      OneMoreElement(LeftBelow(prev, y), y, LeftBelow(prev, Choose(jump, prev)));
    }
  }

  /** Without previous buckets that is the jump value itself, after one the next over it. */
  lemma ChooseFew(jump: nat, b: int)
    ensures Choose(jump, []) == jump
    ensures Choose(jump, [b]) == StepOver(jump, b)
  {
    assert [b][1..] == [];
    assert Sort([b]) == Insert(b, Sort([])) == [b];
    assert Pick(jump, [b]) == Pick(StepOver(jump, b), []);
  }

  function StepOver(jump: int, b: int): int {
    if jump < b then jump else jump + 1
  }

  /** In range and not excluded hold for any previous buckets, repeated or out of range. */
  lemma ChooseSound(jump: int, buckets: int, prev: seq<int>)
    requires 0 <= jump < buckets - |prev|
    ensures 0 <= Choose(jump, prev) < buckets
    ensures Choose(jump, prev) !in prev
  {
    var sorted := Sort(prev);
    PickBounds(jump, sorted);
    SortFacts(prev);
    PickAvoids(jump, sorted);
  }

  /** The order in which the previous buckets are passed makes no difference. */
  lemma ChooseOrderFree(jump: int, a: seq<int>, b: seq<int>)
    requires multiset(a) == multiset(b)
    ensures Choose(jump, a) == Choose(jump, b)
  {
    SortFacts(a);
    SortFacts(b);
    SortedUnique(Sort(a), Sort(b));
  }

  /** HashBucket. `jump` is the jump hash of the key and the number of previous buckets over
      the buckets left, or None if the key could not be hashed. */
  method HashBucket(jump: Option<nat>, buckets: int, previous: array<int>) returns (bucket: int, err: Error)
    requires jump.Some? && previous.Length < buckets ==> jump.value < buckets - previous.Length
    modifies previous
    ensures err == NoError <==> previous.Length < buckets && jump.Some?
    ensures err == NoError ==>
              && bucket == Choose(jump.value, old(previous[..]))
              && 0 <= bucket < buckets && bucket !in old(previous[..])
              && previous[..] == Sort(old(previous[..]))
    ensures err != NoError ==> bucket == -1 && err.Failure? && previous[..] == old(previous[..])
  {
    if previous.Length >= buckets {
      return -1, Failure("No more buckets left");
    }
    if jump.None? {
      return -1, Failure("error calculating hash of key");
    }
    ghost var given := previous[..];
    bucket := jump.value;
    SortInPlace(previous);
    for i := 0 to previous.Length
      invariant previous[..] == Sort(given)
      invariant Pick(bucket, previous[i..]) == Pick(jump.value, Sort(given))
    {
      if bucket >= previous[i] {
        bucket := bucket + 1;
      }
    }
    ChooseSound(jump.value, buckets, given);
    err := NoError;
  }

  // ---- retries ----

  /** The buckets of the first k attempts, each one excluding those before it; jumps[a] is the
      jump hash of attempt a. */
  function Tried(jumps: seq<nat>, k: nat): (t: seq<int>)
    requires k <= |jumps|
    ensures |t| == k
  {
    if k == 0 then [] else Tried(jumps, k - 1) + [Choose(jumps[k - 1], Tried(jumps, k - 1))]
  }

  lemma {:induction false} TriedSound(jumps: seq<nat>, buckets: nat, k: nat)
    requires k <= |jumps| <= buckets
    requires forall a :: 0 <= a < |jumps| ==> jumps[a] < buckets - a
    ensures Distinct(Tried(jumps, k)) && Within(Tried(jumps, k), buckets)
  {
    if k > 0 {
      TriedSound(jumps, buckets, k - 1);
      var before, next := Tried(jumps, k - 1), Choose(jumps[k - 1], Tried(jumps, k - 1));
      ChooseSound(jumps[k - 1], buckets, before);
      OneMore(before, next, Tried(jumps, k), buckets);
    }
  }

  lemma OneMore(before: seq<int>, next: int, t: seq<int>, buckets: nat)
    requires Distinct(before) && Within(before, buckets) && next !in before && 0 <= next < buckets
    requires t == before + [next]
    ensures Distinct(t) && Within(t, buckets)
  {
  }

  /** Retries visit different buckets, and after as many attempts as there are buckets, all of
      them; the attempt after that is refused by HashBucket. */
  lemma {:induction false} RetryEnumeration(jumps: seq<nat>, buckets: nat, k: nat)
    requires k <= |jumps| <= buckets
    requires forall a :: 0 <= a < |jumps| ==> jumps[a] < buckets - a
    ensures Distinct(Tried(jumps, k)) && Within(Tried(jumps, k), buckets)
    ensures k == buckets ==> forall x :: 0 <= x < buckets ==> x in Tried(jumps, k)
  {
    TriedSound(jumps, buckets, k);
    if k == buckets {
      forall x | 0 <= x < buckets
        ensures x in Tried(jumps, k)
      {
        Exhausted(Tried(jumps, k), buckets, x);
      }
    }
  }

  /** As many distinct buckets as there are buckets leave none out. */
  lemma Exhausted(t: seq<int>, buckets: nat, x: int)
    requires Distinct(t) && Within(t, buckets) && |t| == buckets && 0 <= x < buckets
    ensures x in t
  {
    if x !in t {
      var a := ChosenFor(x, buckets, t);
    }
  }
}
