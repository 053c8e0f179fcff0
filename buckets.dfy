/**
  Insertion-ordered grouping of a sequence by a partial key.

  This is what the scanner does twice with a `defaultdict(list)`: every
  element whose key is defined is appended to the list under its key, and
  the dictionary remembers the order in which keys were first inserted.
  `Keys` is that key order and `Bucket` is the list under one key; both are
  reference definitions, stated element by element, against which the
  scanner's loops are proved.
*/
module Buckets {
  import opened Wrappers

  /** No key occurs twice. */
  predicate Distinct<K(==)>(ks: seq<K>) {
    forall i, j :: 0 <= i < j < |ks| ==> ks[i] != ks[j]
  }

  /** The elements of `s` whose key is `k`, in the order they occur in `s`. */
  function Bucket<T(==,!new), K(==,!new)>(s: seq<T>, key: T -> Option<K>, k: K): (b: seq<T>)
    ensures |b| <= |s|
    ensures forall x :: x in b <==> x in s && key(x) == Some(k)
  {
    if s == [] then []
    else
      var init, x := s[..|s| - 1], s[|s| - 1];
      assert s == init + [x];
      Bucket(init, key, k) + (if key(x) == Some(k) then [x] else [])
  }

  /**
    The keys of `s` in the order they are first met; a key is listed
    exactly when its bucket is non-empty, and never twice.
  */
  function Keys<T(==,!new), K(==,!new)>(s: seq<T>, key: T -> Option<K>): (ks: seq<K>)
    ensures forall k :: k in ks <==> Bucket(s, key, k) != []
    ensures Distinct(ks)
  {
    if s == [] then []
    else
      var seen := Keys(s[..|s| - 1], key);
      match key(s[|s| - 1])
      case None => seen
      case Some(k) => if k in seen then seen else seen + [k]
  }

  /** How many elements of `s` have a key at all. */
  function CountKeyed<T(!new), K>(s: seq<T>, key: T -> Option<K>): (n: nat)
    ensures n <= |s|
    ensures n == |s| <==> forall i :: 0 <= i < |s| ==> key(s[i]).Some?
  {
    if s == [] then 0
    else
      var n := CountKeyed(s[..|s| - 1], key);
      assert forall i :: 0 <= i < |s| - 1 ==> s[..|s| - 1][i] == s[i];
      if key(s[|s| - 1]).Some? then n + 1 else n
  }

  /** The summed sizes of the buckets of the keys `ks`. */
  function Total<T(==,!new), K(==,!new)>(s: seq<T>, key: T -> Option<K>, ks: seq<K>): nat {
    if ks == [] then 0
    else Total(s, key, ks[..|ks| - 1]) + |Bucket(s, key, ks[|ks| - 1])|
  }

  /** How many of the keys `ks` have a bucket of fewer than two elements. */
  function SingletonCount<T(==,!new), K(==,!new)>(s: seq<T>, key: T -> Option<K>, ks: seq<K>): nat {
    if ks == [] then 0
    else SingletonCount(s, key, ks[..|ks| - 1]) + (if |Bucket(s, key, ks[|ks| - 1])| < 2 then 1 else 0)
  }

  /** The summed sizes of the buckets of `ks` that hold at least two elements. */
  function LargeTotal<T(==,!new), K(==,!new)>(s: seq<T>, key: T -> Option<K>, ks: seq<K>): nat {
    if ks == [] then 0
    else
      var b := Bucket(s, key, ks[|ks| - 1]);
      LargeTotal(s, key, ks[..|ks| - 1]) + (if |b| >= 2 then |b| else 0)
  }

  /** A non-empty sequence, alone or after another, is its front followed by its last element. */
  lemma SplitLast<T>(a: seq<T>, b: seq<T>)
    requires b != []
    ensures b == b[..|b| - 1] + [b[|b| - 1]]
    ensures a + b == (a + b[..|b| - 1]) + [b[|b| - 1]]
  {
  }

  /** Two positions of a concatenation, the later one in its second part, hold different
      elements when the parts' elements at the corresponding positions differ. */
  lemma ConcatDiffers<T>(front: seq<T>, run: seq<T>, i: nat, j: nat)
    requires i < j < |front| + |run| && |front| <= j
    requires i >= |front| ==> run[i - |front|] != run[j - |front|]
    requires i < |front| ==> front[i] != run[j - |front|]
    ensures (front + run)[i] != (front + run)[j]
  {
  }

  lemma AppendAssoc<T>(x: seq<T>, y: seq<T>, z: seq<T>)
    ensures (x + y) + z == x + (y + z)
  {
  }

  /** Taking one more element of a sequence appends that element. */
  lemma TakeSnoc<T>(s: seq<T>, j: nat)
    requires j < |s|
    ensures s[..j + 1] == s[..j] + [s[j]]
  {
  }

  /** A sequence is what comes before position `i`, the element there, and what comes after. */
  lemma SplitAt<T>(s: seq<T>, i: nat)
    requires i < |s|
    ensures s == s[..i] + [s[i]] + s[i + 1..]
  {
  }

  /** `a` is `b` with some elements left out and the rest kept in order. */
  predicate IsSubseq<T(==)>(a: seq<T>, b: seq<T>)
    decreases |b|
  {
    a == [] ||
    (b != [] &&
     ((a[|a| - 1] == b[|b| - 1] && IsSubseq(a[..|a| - 1], b[..|b| - 1])) ||
      IsSubseq(a, b[..|b| - 1])))
  }

  lemma {:induction false} SubseqReflexive<T>(s: seq<T>)
    ensures IsSubseq(s, s)
  {
    if s != [] {
      SubseqReflexive(s[..|s| - 1]);
    }
  }

  lemma {:induction false} SubseqTransitive<T>(a: seq<T>, b: seq<T>, c: seq<T>)
    requires IsSubseq(a, b) && IsSubseq(b, c)
    ensures IsSubseq(a, c)
    decreases |c|
  {
    if a == [] || b == [] {
    } else if b[|b| - 1] == c[|c| - 1] && IsSubseq(b[..|b| - 1], c[..|c| - 1]) {
      if a[|a| - 1] == b[|b| - 1] && IsSubseq(a[..|a| - 1], b[..|b| - 1]) {
        SubseqTransitive(a[..|a| - 1], b[..|b| - 1], c[..|c| - 1]);
      } else {
        SubseqTransitive(a, b[..|b| - 1], c[..|c| - 1]);
      }
    } else {
      SubseqTransitive(a, b, c[..|c| - 1]);
    }
  }

  /** A bucket keeps the relative order of its elements in the input. */
  lemma {:induction false} BucketIsSubseq<T(!new), K(!new)>(s: seq<T>, key: T -> Option<K>, k: K)
    ensures IsSubseq(Bucket(s, key, k), s)
  {
    if s != [] {
      var init, x := s[..|s| - 1], s[|s| - 1];
      var b := Bucket(init, key, k);
      BucketIsSubseq(init, key, k);
      if key(x) == Some(k) {
        assert (b + [x])[..|b|] == b;
      } else {
        assert Bucket(s, key, k) == b && s[..|s| - 1] == init;
      }
    }
  }

  /** Reading more input only extends the key order: first-seen order. */
  lemma {:induction false} KeysPrefix<T(!new), K(!new)>(s: seq<T>, key: T -> Option<K>, m: nat)
    requires m <= |s|
    ensures Keys(s[..m], key) <= Keys(s, key)
    decreases |s|
  {
    if m < |s| {
      var init := s[..|s| - 1];
      assert s[..m] == init[..m];
      KeysPrefix(init, key, m);
    } else {
      assert s[..m] == s;
    }
  }

  /** Appending `x` to the input changes only the bucket of `x`'s key. */
  lemma BucketSnoc<T(!new), K(!new)>(s: seq<T>, x: T, key: T -> Option<K>, k: K)
    ensures Bucket(s + [x], key, k) == Bucket(s, key, k) + (if key(x) == Some(k) then [x] else [])
  {
    assert (s + [x])[..|s|] == s;
  }

  /**
    `ks` and `m` are the insertion-ordered dictionary that filing every
    element of `s` under its key builds: `ks` its key order, `m` its lists.
  */
  ghost predicate Grouped<T(!new), K(!new)>(s: seq<T>, key: T -> Option<K>, ks: seq<K>, m: map<K, seq<T>>) {
    && ks == Keys(s, key)
    && (forall k :: k in m <==> k in ks)
    && ListsMatch(s, key, m)
  }

  lemma KeysSnoc<T(!new), K(!new)>(s: seq<T>, x: T, key: T -> Option<K>)
    ensures Keys(s + [x], key) == match key(x)
                                  case None => Keys(s, key)
                                  case Some(k) => if k in Keys(s, key) then Keys(s, key) else Keys(s, key) + [k]
  {
    assert (s + [x])[..|s|] == s;
  }

  /** Every list of `m` is the bucket of its key in `s`. */
  ghost predicate ListsMatch<T(!new), K(!new)>(s: seq<T>, key: T -> Option<K>, m: map<K, seq<T>>) {
    forall k :: k in m ==> m[k] == Bucket(s, key, k)
  }

  lemma ListsSkip<T(!new), K(!new)>(s: seq<T>, key: T -> Option<K>, m: map<K, seq<T>>, x: T)
    requires ListsMatch(s, key, m) && key(x) == None
    ensures ListsMatch(s + [x], key, m)
  {
    forall k | k in m
      ensures m[k] == Bucket(s + [x], key, k)
    {
      BucketSnoc(s, x, key, k);
    }
  }

  lemma ListsAppend<T(!new), K(!new)>(s: seq<T>, key: T -> Option<K>, m: map<K, seq<T>>, x: T, k: K)
    requires ListsMatch(s, key, m) && key(x) == Some(k) && k in m
    ensures ListsMatch(s + [x], key, m[k := m[k] + [x]])
  {
    var m' := m[k := m[k] + [x]];
    forall k' | k' in m'
      ensures m'[k'] == Bucket(s + [x], key, k')
    {
      BucketSnoc(s, x, key, k');
    }
  }

  lemma ListsInsert<T(!new), K(!new)>(s: seq<T>, key: T -> Option<K>, m: map<K, seq<T>>, x: T, k: K)
    requires ListsMatch(s, key, m) && key(x) == Some(k) && Bucket(s, key, k) == []
    ensures ListsMatch(s + [x], key, m[k := [x]])
  {
    var m' := m[k := [x]];
    forall k' | k' in m'
      ensures m'[k'] == Bucket(s + [x], key, k')
    {
      BucketSnoc(s, x, key, k');
    }
  }

  /** An element without a key is filed nowhere. */
  lemma GroupedSkip<T(!new), K(!new)>(s: seq<T>, key: T -> Option<K>, ks: seq<K>, m: map<K, seq<T>>, x: T)
    requires Grouped(s, key, ks, m) && key(x) == None
    ensures Grouped(s + [x], key, ks, m)
  {
    KeysSnoc(s, x, key);
    ListsSkip(s, key, m, x);
  }

  /** An element whose key is already present is appended to that key's list. */
  lemma GroupedAppend<T(!new), K(!new)>(s: seq<T>, key: T -> Option<K>, ks: seq<K>, m: map<K, seq<T>>, x: T, k: K)
    requires Grouped(s, key, ks, m) && key(x) == Some(k) && k in m
    ensures Grouped(s + [x], key, ks, m[k := m[k] + [x]])
  {
    KeysSnoc(s, x, key);
    ListsAppend(s, key, m, x, k);
  }

  /** An element with a new key starts a new list, and its key goes to the end of the key order. */
  lemma GroupedInsert<T(!new), K(!new)>(s: seq<T>, key: T -> Option<K>, ks: seq<K>, m: map<K, seq<T>>, x: T, k: K)
    requires Grouped(s, key, ks, m) && key(x) == Some(k) && k !in m
    ensures Grouped(s + [x], key, ks + [k], m[k := [x]])
  {
    KeysSnoc(s, x, key);
    ListsInsert(s, key, m, x, k);
  }

  /**
    `d[k].append(x)` on an insertion-ordered `defaultdict(list)` held as its
    key order `ks` and its lists `m`: a missing key starts an empty list and
    goes to the end of the key order.
  */
  function DictAppend<K, T>(ks: seq<K>, m: map<K, seq<T>>, k: K, x: T): (seq<K>, map<K, seq<T>>) {
    if k in m then (ks, m[k := m[k] + [x]]) else (ks + [k], m[k := [x]])
  }

  /** Filing an element under its own key keeps the dictionary in step with the input read so far. */
  lemma GroupedDictAppend<T(!new), K(!new)>(s: seq<T>, key: T -> Option<K>, ks: seq<K>, m: map<K, seq<T>>, x: T, k: K)
    requires Grouped(s, key, ks, m) && key(x) == Some(k)
    ensures Grouped(s + [x], key, DictAppend(ks, m, k, x).0, DictAppend(ks, m, k, x).1)
  {
    if k in m {
      GroupedAppend(s, key, ks, m, x, k);
    } else {
      GroupedInsert(s, key, ks, m, x, k);
    }
  }

  /** Appending an element with key `k0` adds one to the total of any key list holding `k0` once. */
  lemma {:induction false} TotalSnoc<T(!new), K(!new)>(s: seq<T>, x: T, key: T -> Option<K>, ks: seq<K>)
    requires Distinct(ks)
    ensures Total(s + [x], key, ks) ==
            Total(s, key, ks) + (if key(x).Some? && key(x).value in ks then 1 else 0)
  {
    if ks != [] {
      var init, k := ks[..|ks| - 1], ks[|ks| - 1];
      assert Distinct(init);
      assert ks == init + [k];
      TotalSnoc(s, x, key, init);
      BucketSnoc(s, x, key, k);
    }
  }

  lemma CountKeyedSnoc<T(!new), K>(s: seq<T>, x: T, key: T -> Option<K>)
    ensures CountKeyed(s + [x], key) == CountKeyed(s, key) + if key(x).Some? then 1 else 0
  {
    assert (s + [x])[..|s|] == s;
  }

  lemma TotalKeySnoc<T(!new), K(!new)>(s: seq<T>, key: T -> Option<K>, ks: seq<K>, k: K)
    ensures Total(s, key, ks + [k]) == Total(s, key, ks) + |Bucket(s, key, k)|
  {
    assert (ks + [k])[..|ks|] == ks;
  }

  /** Every keyed element lies in exactly one bucket: the buckets add up to the keyed count. */
  lemma {:induction false} KeysPartition<T(!new), K(!new)>(s: seq<T>, key: T -> Option<K>)
    ensures Total(s, key, Keys(s, key)) == CountKeyed(s, key)
  {
    if s != [] {
      var init, x := s[..|s| - 1], s[|s| - 1];
      assert s == init + [x];
      var seen := Keys(init, key);
      KeysPartition(init, key);
      KeysSnoc(init, x, key);
      TotalSnoc(init, x, key, seen);
      CountKeyedSnoc(init, x, key);
      if key(x).Some? && key(x).value !in seen {
        var k := key(x).value;
        BucketSnoc(init, x, key, k);
        TotalKeySnoc(s, key, seen, k);
      }
    }
  }

  /** Over keys whose buckets are non-empty, singletons and larger buckets make up the total. */
  lemma {:induction false} SplitTotal<T(!new), K(!new)>(s: seq<T>, key: T -> Option<K>, ks: seq<K>)
    requires forall k :: k in ks ==> Bucket(s, key, k) != []
    ensures SingletonCount(s, key, ks) + LargeTotal(s, key, ks) == Total(s, key, ks)
  {
    if ks != [] {
      var init := ks[..|ks| - 1];
      assert forall k :: k in init ==> k in ks;
      SplitTotal(s, key, init);
    }
  }
}
