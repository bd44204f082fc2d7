/** Sums over the distinct keys of a table. */
module Sums {
  ghost predicate Distinct<T(!new)>(keys: seq<T>) {
    forall i, j | 0 <= i < j < |keys| :: keys[i] != keys[j]
  }

  lemma {:induction false} DistinctCount(keys: seq<string>)
    requires Distinct(keys)
    ensures |set k | k in keys| == |keys|
    decreases |keys|
  {
    if keys != [] {
      var front, last := keys[..|keys| - 1], keys[|keys| - 1];
      DistinctCount(front);
      assert keys == front + [last];
      assert (set k | k in keys) == (set k | k in front) + {last};
    }
  }

  lemma DistinctConcat(a: seq<string>, b: seq<string>)
    requires Distinct(a) && Distinct(b) && forall x | x in a :: x !in b
    ensures Distinct(a + b)
  {
    forall i, j | 0 <= i < j < |a + b| ensures (a + b)[i] != (a + b)[j] {
      if i < |a| <= j { assert a[i] in a && b[j - |a|] in b; }
    }
  }

  ghost function Sum(keys: seq<string>, f: string -> int): int {
    if keys == [] then 0 else Sum(keys[..|keys| - 1], f) + f(keys[|keys| - 1])
  }

  lemma {:induction false} SumSame(keys: seq<string>, f: string -> int, g: string -> int)
    requires forall i | 0 <= i < |keys| :: f(keys[i]) == g(keys[i])
    ensures Sum(keys, f) == Sum(keys, g)
    decreases |keys|
  {
    if keys != [] {
      SumSame(keys[..|keys| - 1], f, g);
    }
  }

  /** Changing one summand of distinct keys changes the sum by as much. */
  lemma {:induction false} SumChangesAt(keys: seq<string>, f: string -> int, g: string -> int, k: string, d: int)
    requires Distinct(keys) && k in keys
    requires g(k) == f(k) + d
    requires forall x | x != k :: g(x) == f(x)
    ensures Sum(keys, g) == Sum(keys, f) + d
    decreases |keys|
  {
    var n := |keys| - 1;
    if keys[n] == k {
      SumSame(keys[..n], f, g);
    } else {
      assert keys == keys[..n] + [keys[n]];
      SumChangesAt(keys[..n], f, g, k, d);
    }
  }

  lemma {:induction false} SumZero(keys: seq<string>, f: string -> int)
    requires forall i | 0 <= i < |keys| :: f(keys[i]) == 0
    ensures Sum(keys, f) == 0
    decreases |keys|
  {
    if keys != [] {
      SumZero(keys[..|keys| - 1], f);
    }
  }

  // ---------------------------------------------------------------------------------------
  // The same with multisets
  // ---------------------------------------------------------------------------------------

  ghost function Union<E>(keys: seq<string>, f: string -> multiset<E>): multiset<E> {
    if keys == [] then multiset{} else Union(keys[..|keys| - 1], f) + f(keys[|keys| - 1])
  }

  lemma {:induction false} UnionSame<E>(keys: seq<string>, f: string -> multiset<E>, g: string -> multiset<E>)
    requires forall i | 0 <= i < |keys| :: f(keys[i]) == g(keys[i])
    ensures Union(keys, f) == Union(keys, g)
    decreases |keys|
  {
    if keys != [] {
      UnionSame(keys[..|keys| - 1], f, g);
    }
  }

  /** Adding to one part of distinct keys adds as much to the union. */
  lemma {:induction false} UnionGrowsAt<E>(
    keys: seq<string>, f: string -> multiset<E>, g: string -> multiset<E>, k: string, d: multiset<E>)
    requires Distinct(keys) && k in keys
    requires g(k) == f(k) + d
    requires forall x | x != k :: g(x) == f(x)
    ensures Union(keys, g) == Union(keys, f) + d
    decreases |keys|
  {
    var n := |keys| - 1;
    if keys[n] == k {
      UnionSame(keys[..n], f, g);
    } else {
      assert keys == keys[..n] + [keys[n]];
      UnionGrowsAt(keys[..n], f, g, k, d);
    }
  }

  lemma UnionSnoc<E>(keys: seq<string>, x: string, f: string -> multiset<E>)
    ensures Union(keys + [x], f) == Union(keys, f) + f(x)
  {
    assert (keys + [x])[..|keys|] == keys;
  }

  lemma {:induction false} UnionConcat<E>(a: seq<string>, b: seq<string>, f: string -> multiset<E>)
    ensures Union(a + b, f) == Union(a, f) + Union(b, f)
    decreases |b|
  {
    if b == [] {
      assert a + b == a;
    } else {
      var n := |b| - 1;
      UnionConcat(a, b[..n], f);
      assert a + b == a + b[..n] + [b[n]];
      UnionSnoc(a + b[..n], b[n], f);
    }
  }

  /** One key may be taken out of the union. */
  lemma UnionWithout<E>(keys: seq<string>, i: nat, f: string -> multiset<E>)
    requires i < |keys|
    ensures Union(keys, f) == Union(keys[..i] + keys[i + 1..], f) + f(keys[i])
  {
    hide Union;
    var front, back := keys[..i], keys[i + 1..];
    assert keys == front + [keys[i]] + back;
    UnionConcat(front + [keys[i]], back, f);
    UnionSnoc(front, keys[i], f);
    UnionConcat(front, back, f);
  }

  /** Lists of distinct keys give the same union when they agree on the keys with something to add. */
  lemma {:induction false} UnionOfSameKeys<E>(a: seq<string>, b: seq<string>, f: string -> multiset<E>)
    requires Distinct(a) && Distinct(b)
    requires forall x | f(x) != multiset{} :: x in a <==> x in b
    ensures Union(a, f) == Union(b, f)
    decreases |a|
  {
    if a == [] {
      UnionOfNothing(b, f);
    } else {
      var n := |a| - 1;
      var x := a[n];
      assert a == a[..n] + [x];
      if i :| 0 <= i < |b| && b[i] == x {
        var rest := b[..i] + b[i + 1..];
        forall y ensures y in rest <==> y in b && y != x {
          KeysWithout(b, i, y);
        }
        UnionWithout(b, i, f);
        UnionOfSameKeys(a[..n], rest, f);
      } else {
        UnionOfSameKeys(a[..n], b, f);
      }
    }
  }

  lemma KeysWithout(keys: seq<string>, i: nat, y: string)
    requires Distinct(keys) && i < |keys|
    ensures y in keys[..i] + keys[i + 1..] <==> y in keys && y != keys[i]
  {
    if y in keys && y != keys[i] {
      var j :| 0 <= j < |keys| && keys[j] == y;
      assert if j < i then y == keys[..i][j] else y == keys[i + 1..][j - i - 1];
    }
  }

  lemma {:induction false} UnionOfNothing<E>(keys: seq<string>, f: string -> multiset<E>)
    requires forall x | x in keys :: f(x) == multiset{}
    ensures Union(keys, f) == multiset{}
    decreases |keys|
  {
    if keys != [] {
      UnionOfNothing(keys[..|keys| - 1], f);
    }
  }
}
