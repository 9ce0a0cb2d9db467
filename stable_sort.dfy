/**
 * A stable sort by a natural-number key, as `Array.prototype.sort` performs
 * it for a comparator that compares keys: an insertion sort that places each
 * element after every earlier element of the same key.
 */
module StableSort {
  import opened Seqs

  predicate SortedBy<T>(s: seq<T>, key: T -> nat)
  {
    forall i, j :: 0 <= i < j < |s| ==> key(s[i]) <= key(s[j])
  }

  /** The elements of `s` whose key is `k`, in their order. */
  function WithKey<T>(s: seq<T>, key: T -> nat, k: nat): seq<T>
  {
    if s == [] then []
    else if key(s[0]) == k then [s[0]] + WithKey(s[1..], key, k)
    else WithKey(s[1..], key, k)
  }

  /** `WithKey` keeps exactly the elements of key `k`, and no element twice when `s` has none twice. */
  lemma {:induction false} WithKeyMembers<T>(s: seq<T>, key: T -> nat, k: nat)
    ensures forall x :: x in WithKey(s, key, k) <==> x in s && key(x) == k
    ensures NoDuplicates(s) ==> NoDuplicates(WithKey(s, key, k))
  {
    if s != [] {
      WithKeyMembers(s[1..], key, k);
      assert s == [s[0]] + s[1..];
    }
  }

  lemma {:induction false} WithKeyAppend<T>(a: seq<T>, b: seq<T>, key: T -> nat, k: nat)
    ensures WithKey(a + b, key, k) == WithKey(a, key, k) + WithKey(b, key, k)
  {
    if a == [] {
      assert a + b == b;
    } else {
      assert (a + b)[0] == a[0];
      assert (a + b)[1..] == a[1..] + b;
      WithKeyAppend(a[1..], b, key, k);
      if key(a[0]) == k {
        assert WithKey(a + b, key, k) == [a[0]] + (WithKey(a[1..], key, k) + WithKey(b, key, k));
      } else {
        assert WithKey(a + b, key, k) == WithKey(a[1..], key, k) + WithKey(b, key, k);
      }
    }
  }

  /** Inserts `x` in front of the first element whose key is larger than its own. */
  function Insert<T>(x: T, ys: seq<T>, key: T -> nat): seq<T>
  {
    if ys == [] then [x]
    else if key(x) < key(ys[0]) then [x] + ys
    else [ys[0]] + Insert(x, ys[1..], key)
  }

  /** Where `Insert` puts `x`. */
  function InsertPos<T>(x: T, ys: seq<T>, key: T -> nat): (p: nat)
    ensures p <= |ys|
  {
    if ys == [] then 0
    else if key(x) < key(ys[0]) then 0
    else 1 + InsertPos(x, ys[1..], key)
  }

  /**
   * Into a sorted sequence, `x` goes after every element whose key is at
   * most its own and before every element with a larger key.
   */
  lemma {:induction false} InsertAt<T>(x: T, ys: seq<T>, key: T -> nat)
    requires SortedBy(ys, key)
    ensures Insert(x, ys, key) == ys[..InsertPos(x, ys, key)] + [x] + ys[InsertPos(x, ys, key)..]
    ensures forall i :: 0 <= i < InsertPos(x, ys, key) ==> key(ys[i]) <= key(x)
    ensures forall i :: InsertPos(x, ys, key) <= i < |ys| ==> key(x) < key(ys[i])
  {
    if ys != [] && key(x) >= key(ys[0]) {
      InsertAt(x, ys[1..], key);
      var p := InsertPos(x, ys[1..], key);
      assert ys[..p + 1] == [ys[0]] + ys[1..][..p];
      assert ys[p + 1..] == ys[1..][p..];
    }
  }

  lemma {:induction false} SortedAppend<T>(a: seq<T>, b: seq<T>, key: T -> nat)
    requires SortedBy(a, key) && SortedBy(b, key)
    requires forall i, j :: 0 <= i < |a| && 0 <= j < |b| ==> key(a[i]) <= key(b[j])
    ensures SortedBy(a + b, key)
  {
    var s := a + b;
    forall i, j | 0 <= i < j < |s| ensures key(s[i]) <= key(s[j]) {
      if j < |a| {
        assert s[i] == a[i] && s[j] == a[j];
      } else if i >= |a| {
        assert s[i] == b[i - |a|] && s[j] == b[j - |a|];
      } else {
        assert s[i] == a[i] && s[j] == b[j - |a|];
      }
    }
  }

  /** Only elements of key `k` show up in `WithKey(., k)`. */
  lemma {:induction false} WithKeyNone<T>(s: seq<T>, key: T -> nat, k: nat)
    requires forall i :: 0 <= i < |s| ==> key(s[i]) != k
    ensures WithKey(s, key, k) == []
  {
    if s != [] {
      WithKeyNone(s[1..], key, k);
    }
  }

  /**
   * Inserting into a sorted sequence keeps it sorted, adds `x` once, and
   * puts `x` last among the elements of its key.
   */
  lemma {:induction false} InsertSpec<T>(x: T, ys: seq<T>, key: T -> nat)
    requires SortedBy(ys, key)
    ensures SortedBy(Insert(x, ys, key), key)
    ensures multiset(Insert(x, ys, key)) == multiset(ys) + multiset{x}
    ensures forall k :: WithKey(Insert(x, ys, key), key, k) == WithKey(ys, key, k) + WithKey([x], key, k)
  {
    InsertAt(x, ys, key);
    var p := InsertPos(x, ys, key);
    var a, b := ys[..p], ys[p..];
    assert ys == a + b;
    SortedAppend(a, [x], key);
    SortedAppend(a + [x], b, key);
    forall k ensures WithKey(Insert(x, ys, key), key, k) == WithKey(ys, key, k) + WithKey([x], key, k) {
      InsertWithKey(x, a, b, key, k);
    }
  }

  /** What `Insert` adds to the elements of key `k`: `x` at the end when its key is `k`, nothing otherwise. */
  lemma {:induction false} InsertWithKey<T>(x: T, a: seq<T>, b: seq<T>, key: T -> nat, k: nat)
    requires forall i :: 0 <= i < |b| ==> key(x) < key(b[i])
    ensures WithKey(a + [x] + b, key, k) == WithKey(a + b, key, k) + WithKey([x], key, k)
  {
    var wa, wx, wb := WithKey(a, key, k), WithKey([x], key, k), WithKey(b, key, k);
    WithKeyAppend(a + [x], b, key, k);
    WithKeyAppend(a, [x], key, k);
    WithKeyAppend(a, b, key, k);
    assert WithKey(a + [x] + b, key, k) == wa + wx + wb;
    if key(x) == k {
      WithKeyNone(b, key, k);
      assert wa + wx + wb == wa + wb + wx;
    } else {
      assert wx == [];
      assert wa + wx + wb == wa + wb + wx;
    }
  }

  /**
   * The stable sort: the result is sorted by key, is a permutation of the
   * input, and lists the elements of each key in their input order.
   */
  function Sort<T>(xs: seq<T>, key: T -> nat): (r: seq<T>)
    ensures SortedBy(r, key)
    ensures multiset(r) == multiset(xs)
    ensures forall k :: WithKey(r, key, k) == WithKey(xs, key, k)
  {
    if xs == [] then []
    else
      var init := xs[..|xs| - 1];
      var x := xs[|xs| - 1];
      var sorted := Sort(init, key);
      InsertSpec(x, sorted, key);
      assert xs == init + [x];
      assert forall k :: WithKey(xs, key, k) == WithKey(init, key, k) + WithKey([x], key, k) by {
        forall k ensures WithKey(xs, key, k) == WithKey(init, key, k) + WithKey([x], key, k) {
          WithKeyAppend(init, [x], key, k);
        }
      }
      Insert(x, sorted, key)
  }

  /**
   * A sorted sequence is determined by what it holds of each key, in order:
   * so the stable sort of a sequence is the only sorted sequence with the
   * same elements of each key in the same order.
   */
  lemma {:induction false} SortedUnique<T>(a: seq<T>, b: seq<T>, key: T -> nat)
    requires SortedBy(a, key) && SortedBy(b, key)
    requires forall k :: WithKey(a, key, k) == WithKey(b, key, k)
    ensures a == b
    decreases |a|
  {
    if a == [] || b == [] {
      assert a != [] ==> a[0] in WithKey(a, key, key(a[0]));
      assert b != [] ==> b[0] in WithKey(b, key, key(b[0]));
    } else {
      SortedHeads(a, b, key);
      WithKeyTails(a, b, key);
      assert SortedBy(a[1..], key) && SortedBy(b[1..], key);
      SortedUnique(a[1..], b[1..], key);
    }
  }

  /** Two sorted sequences with the same elements of each key, in the same order, start alike. */
  lemma SortedHeads<T>(a: seq<T>, b: seq<T>, key: T -> nat)
    requires a != [] && b != []
    requires SortedBy(a, key) && SortedBy(b, key)
    requires forall k :: WithKey(a, key, k) == WithKey(b, key, k)
    ensures a[0] == b[0]
  {
    var ka, kb := key(a[0]), key(b[0]);
    assert WithKey(a, key, ka) == [a[0]] + WithKey(a[1..], key, ka);
    assert WithKey(b, key, kb) == [b[0]] + WithKey(b[1..], key, kb);
    assert a[0] in WithKey(b, key, ka);
    assert b[0] in WithKey(a, key, kb);
    WithKeyMembers(a, key, kb);
    WithKeyMembers(b, key, ka);
    assert kb <= ka by {
      var j :| 0 <= j < |b| && b[j] == a[0];
    }
    assert ka <= kb by {
      var j :| 0 <= j < |a| && a[j] == b[0];
    }
    assert a[0] == WithKey(a, key, ka)[0] == WithKey(b, key, kb)[0] == b[0];
  }

  /** Taking off a common first element keeps the elements of each key equal. */
  lemma WithKeyTails<T>(a: seq<T>, b: seq<T>, key: T -> nat)
    requires a != [] && b != [] && a[0] == b[0]
    requires forall k :: WithKey(a, key, k) == WithKey(b, key, k)
    ensures forall k :: WithKey(a[1..], key, k) == WithKey(b[1..], key, k)
  {
    forall k ensures WithKey(a[1..], key, k) == WithKey(b[1..], key, k) {
      assert WithKey(a, key, k) == WithKey(b, key, k);
      if k == key(a[0]) {
        assert WithKey(a[1..], key, k) == WithKey(a, key, k)[1..];
        assert WithKey(b[1..], key, k) == WithKey(b, key, k)[1..];
      }
    }
  }

  /** A sequence all of whose elements have key `k` is its own selection of key `k`. */
  lemma {:induction false} WithKeyAll<T>(s: seq<T>, key: T -> nat, k: nat)
    requires forall i :: 0 <= i < |s| ==> key(s[i]) == k
    ensures WithKey(s, key, k) == s
  {
    if s != [] {
      WithKeyAll(s[1..], key, k);
    }
  }

  /** `s` is strictly increasing under `f`. */
  predicate IncreasingBy<T>(s: seq<T>, f: T -> int)
  {
    forall i, j :: 0 <= i < j < |s| ==> f(s[i]) < f(s[j])
  }

  /** Selecting the elements of one key keeps a lower bound on `f` that every element exceeds. */
  lemma {:induction false} WithKeyAbove<T>(s: seq<T>, key: T -> nat, k: nat, f: T -> int, c: int)
    requires forall i :: 0 <= i < |s| ==> c < f(s[i])
    ensures forall i :: 0 <= i < |WithKey(s, key, k)| ==> c < f(WithKey(s, key, k)[i])
  {
    if s != [] {
      WithKeyAbove(s[1..], key, k, f, c);
    }
  }

  /** Selecting the elements of one key keeps a strict order by `f` that the sequence already had. */
  lemma {:induction false} WithKeyKeepsOrder<T>(s: seq<T>, key: T -> nat, k: nat, f: T -> int)
    requires IncreasingBy(s, f)
    ensures IncreasingBy(WithKey(s, key, k), f)
  {
    if s != [] {
      var w := WithKey(s, key, k);
      var rest := WithKey(s[1..], key, k);
      assert IncreasingBy(s[1..], f);
      WithKeyKeepsOrder(s[1..], key, k, f);
      WithKeyAbove(s[1..], key, k, f, f(s[0]));
      if key(s[0]) == k {
        assert w == [s[0]] + rest;
        forall i, j | 0 <= i < j < |w| ensures f(w[i]) < f(w[j]) {
          assert w[j] == rest[j - 1];
          if i > 0 {
            assert w[i] == rest[i - 1];
          }
        }
      }
    }
  }
}
