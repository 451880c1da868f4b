/**
 * A relational table is modelled as the sequence of its rows in storage order.
 * Rows are addressed through key selectors (`key: T -> K`), so the same helpers
 * serve primary keys, foreign keys and composite lookups. A filter keeps the
 * rows in storage order; a model's `Meta.ordering` is not applied.
 */
module Tables {
  import opened Wrappers

  /** An auto-increment primary key, or a foreign key referring to one. */
  type Id = nat

  /** Some row of `s` has key `k` (`filter(...).exists()`). */
  predicate HasKey<T(==), K(==)>(s: seq<T>, key: T -> K, k: K) {
    exists x :: x in s && key(x) == k
  }

  /** No two rows of `s` share a key: a primary-key or unique constraint. */
  ghost predicate Distinct<T, K>(s: seq<T>, key: T -> K) {
    |s| == 0 || (!HasKey(s[1..], key, key(s[0])) && Distinct(s[1..], key))
  }

  /** Every row of `s` refers, through `ref`, to an existing row of `t`: a foreign-key constraint. */
  ghost predicate RefsIn<A, B>(s: seq<A>, ref: A -> Id, t: seq<B>, key: B -> Id) {
    forall x :: x in s ==> HasKey(t, key, ref(x))
  }

  /** The position of the first row with key `k`, if any. */
  function IndexOf<T(==), K(==)>(s: seq<T>, key: T -> K, k: K): (r: Option<nat>)
    ensures r.Some? ==> r.value < |s| && key(s[r.value]) == k
    ensures r.None? <==> !HasKey(s, key, k)
  {
    if |s| == 0 then None
    else if key(s[0]) == k then Some(0)
    else
      assert forall x :: x in s ==> x == s[0] || x in s[1..];
      match IndexOf(s[1..], key, k)
      case None => None
      case Some(i) => Some(i + 1)
  }

  /** The row with key `k` (`objects.get(...)`), or None when there is none. */
  function Find<T(==), K(==)>(s: seq<T>, key: T -> K, k: K): (r: Option<T>)
    ensures r.Some? ==> r.value in s && key(r.value) == k
    ensures r.None? <==> !HasKey(s, key, k)
  {
    match IndexOf(s, key, k)
    case None => None
    case Some(i) => Some(s[i])
  }

  /** The rows whose key is `k`, in table order (`filter(key=k)`). */
  function Keep<T(==), K(==)>(s: seq<T>, key: T -> K, k: K): (r: seq<T>)
    ensures forall x :: x in r ==> x in s && key(x) == k
    ensures forall x :: x in s && key(x) == k ==> x in r
  {
    if |s| == 0 then []
    else
      assert forall x :: x in s ==> x == s[0] || x in s[1..];
      if key(s[0]) == k then [s[0]] + Keep(s[1..], key, k) else Keep(s[1..], key, k)
  }

  /** The rows whose key is not `k`, in table order (`filter(key=k).delete()` leaves these). */
  function Drop<T(==), K(==)>(s: seq<T>, key: T -> K, k: K): (r: seq<T>)
    ensures forall x :: x in r ==> x in s && key(x) != k
    ensures forall x :: x in s && key(x) != k ==> x in r
  {
    if |s| == 0 then []
    else
      assert forall x :: x in s ==> x == s[0] || x in s[1..];
      if key(s[0]) != k then [s[0]] + Drop(s[1..], key, k) else Drop(s[1..], key, k)
  }

  /**
   * A fresh key: one more than the largest key in use (1 for an empty table).
   * Unlike a database sequence, it can hand out a deleted largest key again.
   */
  function NextId<T>(s: seq<T>, key: T -> Id): (r: Id)
    ensures r >= 1
    ensures forall x :: x in s ==> key(x) < r
  {
    if |s| == 0 then 1
    else
      assert forall x :: x in s ==> x == s[0] || x in s[1..];
      var n := NextId(s[1..], key);
      if key(s[0]) < n then n else key(s[0]) + 1
  }

  /** Filtering distributes over concatenation. */
  lemma {:induction false} KeepAppend<T, K>(a: seq<T>, b: seq<T>, key: T -> K, k: K)
    ensures Keep(a + b, key, k) == Keep(a, key, k) + Keep(b, key, k)
  {
    if |a| == 0 {
      assert a + b == b;
    } else {
      assert (a + b)[1..] == a[1..] + b;
      KeepAppend(a[1..], b, key, k);
    }
  }

  /** Filtering by a key no row has yields nothing; filtering by a key every row has yields all. */
  lemma {:induction false} KeepNone<T, K>(s: seq<T>, key: T -> K, k: K)
    requires !HasKey(s, key, k)
    ensures Keep(s, key, k) == []
  {
    if |s| > 0 {
      assert s[0] in s;
      KeepNone(s[1..], key, k);
    }
  }

  lemma {:induction false} KeepAll<T, K>(s: seq<T>, key: T -> K, k: K)
    requires forall x :: x in s ==> key(x) == k
    ensures Keep(s, key, k) == s
  {
    if |s| > 0 {
      assert s[0] in s;
      KeepAll(s[1..], key, k);
      assert s == [s[0]] + s[1..];
    }
  }

  /** In a table with distinct keys, looking a row up by its own key finds that row. */
  lemma {:induction false} FindDistinct<T, K>(s: seq<T>, key: T -> K, x: T)
    requires Distinct(s, key) && x in s
    ensures Find(s, key, key(x)) == Some(x)
  {
    if s[0] != x {
      assert x in s[1..];
      FindDistinct(s[1..], key, x);
    }
  }

  /** Deleting rows keeps a unique constraint. */
  lemma {:induction false} DropDistinct<T, K, L>(s: seq<T>, key: T -> K, sel: T -> L, k: L)
    requires Distinct(s, key)
    ensures Distinct(Drop(s, sel, k), key)
  {
    if |s| > 0 {
      DropDistinct(s[1..], key, sel, k);
    }
  }

  /** Appending a row whose key is not yet in use keeps a unique constraint. */
  lemma {:induction false} SnocDistinct<T, K>(s: seq<T>, x: T, key: T -> K)
    requires Distinct(s, key) && !HasKey(s, key, key(x))
    ensures Distinct(s + [x], key)
  {
    if |s| == 0 {
      assert [x][1..] == [];
    } else {
      assert (s + [x])[1..] == s[1..] + [x];
      assert s[0] in s;
      SnocDistinct(s[1..], x, key);
    }
  }

  /** Concatenating two tables whose keys do not overlap keeps a unique constraint. */
  lemma {:induction false} AppendDistinct<T, K>(a: seq<T>, b: seq<T>, key: T -> K)
    requires Distinct(a, key) && Distinct(b, key)
    requires forall y :: y in b ==> !HasKey(a, key, key(y))
    ensures Distinct(a + b, key)
  {
    if |a| == 0 {
      assert a + b == b;
    } else {
      assert (a + b)[1..] == a[1..] + b;
      assert a[0] in a;
      AppendDistinct(a[1..], b, key);
    }
  }

  /** In a table with distinct keys, the position found for a row's own key is that row's position. */
  lemma {:induction false} IndexOfDistinct<T, K>(s: seq<T>, key: T -> K, i: nat)
    requires Distinct(s, key) && i < |s|
    ensures IndexOf(s, key, key(s[i])) == Some(i)
  {
    if i > 0 {
      assert s[i] == s[1..][i - 1];
      assert key(s[0]) != key(s[i]);
      IndexOfDistinct(s[1..], key, i - 1);
    }
  }

  /** Keys that grow strictly along the table are distinct. */
  lemma {:induction false} IncreasingDistinct<T>(s: seq<T>, key: T -> Id)
    requires forall i, j :: 0 <= i < j < |s| ==> key(s[i]) < key(s[j])
    ensures Distinct(s, key)
  {
    if |s| > 0 {
      forall x | x in s[1..] ensures key(x) != key(s[0]) {
        var j :| 0 <= j < |s[1..]| && s[1..][j] == x;
        assert s[1..][j] == s[j + 1];
      }
      IncreasingDistinct(s[1..], key);
    }
  }

  /** Two tables of the same length with the same key at every position answer every key lookup alike. */
  lemma SameKeysHasKey<T, U, K>(s: seq<T>, t: seq<U>, ks: T -> K, kt: U -> K, k: K)
    requires |s| == |t| && forall i :: 0 <= i < |s| ==> ks(s[i]) == kt(t[i])
    ensures HasKey(s, ks, k) <==> HasKey(t, kt, k)
  {
    if HasKey(s, ks, k) {
      var x :| x in s && ks(x) == k;
      var j :| 0 <= j < |s| && s[j] == x;
      assert t[j] in t;
    }
    if HasKey(t, kt, k) {
      var x :| x in t && kt(x) == k;
      var j :| 0 <= j < |t| && t[j] == x;
      assert s[j] in s;
    }
  }

  /** ... and satisfy the same unique constraint. */
  lemma {:induction false} SameKeysDistinct<T, U, K>(s: seq<T>, t: seq<U>, ks: T -> K, kt: U -> K)
    requires |s| == |t| && forall i :: 0 <= i < |s| ==> ks(s[i]) == kt(t[i])
    requires Distinct(s, ks)
    ensures Distinct(t, kt)
  {
    if |s| > 0 {
      SameKeysHasKey(s[1..], t[1..], ks, kt, ks(s[0]));
      SameKeysDistinct(s[1..], t[1..], ks, kt);
    }
  }

  /** Deleting from the referenced table keeps the references of rows that do not point at the deleted key. */
  lemma RefsAfterDrop<A, B>(s: seq<A>, ref: A -> Id, t: seq<B>, key: B -> Id, k: Id)
    requires RefsIn(s, ref, t, key)
    requires forall x :: x in s ==> ref(x) != k
    ensures RefsIn(s, ref, Drop(t, key, k), key)
  {
    forall x | x in s ensures HasKey(Drop(t, key, k), key, ref(x)) {
      var y :| y in t && key(y) == ref(x);
      assert y in Drop(t, key, k);
    }
  }

  /** Adding rows to the referenced table keeps every reference resolved. */
  lemma RefsAfterGrow<A, B>(s: seq<A>, ref: A -> Id, t: seq<B>, key: B -> Id, extra: seq<B>)
    requires RefsIn(s, ref, t, key)
    ensures RefsIn(s, ref, t + extra, key)
  {
    forall x | x in s ensures HasKey(t + extra, key, ref(x)) {
      var y :| y in t && key(y) == ref(x);
      assert y in t + extra;
    }
  }
}
