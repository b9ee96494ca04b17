/** A table is a sequence of rows with a primary key. These are the row-level
    operations the repositories are built from: lookup by key, filtering
    (`Where`), and the effect of SQL `UPDATE ... WHERE id = k` and
    `DELETE ... WHERE id = k` on the rows. */
module Tables {
  import opened Wrappers
  import opened Models

  /** Some row of `s` has key `k`. */
  predicate HasKey<T(==)>(s: seq<T>, key: T -> Guid, k: Guid)
  {
    exists x :: x in s && key(x) == k
  }

  /** No two rows of `s` share a key (the primary-key constraint). */
  predicate UniqueKeys<T>(s: seq<T>, key: T -> Guid)
  {
    forall i, j :: 0 <= i < |s| && 0 <= j < |s| && i != j ==> key(s[i]) != key(s[j])
  }

  /** `FirstOrDefault(x => x.Id == k)`: the first row with key `k`. */
  function Find<T(==,!new)>(s: seq<T>, key: T -> Guid, k: Guid): (r: Option<T>)
    ensures r.Some? <==> HasKey(s, key, k)
    ensures r.Some? ==> r.value in s && key(r.value) == k
  {
    if s == [] then None
    else if key(s[0]) == k then Some(s[0])
    else
      assert forall x :: x in s <==> x == s[0] || x in s[1..] by {
        assert s == [s[0]] + s[1..];
      }
      Find(s[1..], key, k)
  }

  /** `Where(f)`: the rows satisfying `f`, each as often as it occurs in `s`. */
  function Where<T(==,!new)>(s: seq<T>, f: T -> bool): (r: seq<T>)
    ensures forall x :: multiset(r)[x] == if f(x) then multiset(s)[x] else 0
  {
    if s == [] then []
    else
      assert s == [s[0]] + s[1..];
      if f(s[0]) then [s[0]] + Where(s[1..], f) else Where(s[1..], f)
  }

  /** The table after `UPDATE ... SET <all columns of x> WHERE id = key(x)`:
      every row with that key now reads as `x`, every other row is untouched,
      and no row is added or dropped. */
  function Replace<T>(s: seq<T>, key: T -> Guid, x: T): (r: seq<T>)
    ensures |r| == |s|
    ensures forall i :: 0 <= i < |s| && key(s[i]) != key(x) ==> r[i] == s[i]
    ensures forall i :: 0 <= i < |s| && key(s[i]) == key(x) ==> r[i] == x
  {
    seq(|s|, i requires 0 <= i < |s| => if key(s[i]) == key(x) then x else s[i])
  }

  /** The table after `DELETE ... WHERE id = k`: every row with key `k` is
      gone and every other row stays, as often as it was stored. */
  function Remove<T(==,!new)>(s: seq<T>, key: T -> Guid, k: Guid): (r: seq<T>)
    ensures forall y :: multiset(r)[y] == if key(y) == k then 0 else multiset(s)[y]
  {
    Where(s, (y: T) => key(y) != k)
  }

  /** A key used by no row: a stand-in for `Guid.NewGuid()`, whose result is
      assumed never to collide with a stored key nor to be `Guid.Empty`. */
  function FreshKey<T(==,!new)>(s: seq<T>, key: T -> Guid): (k: Guid)
    ensures k != EmptyGuid
    ensures forall x :: x in s ==> key(x) < k
    ensures !HasKey(s, key, k)
  {
    if s == [] then 1
    else
      var rest := FreshKey(s[1..], key);
      assert forall x :: x in s ==> x == s[0] || x in s[1..] by {
        assert s == [s[0]] + s[1..];
      }
      if key(s[0]) < rest then rest else key(s[0]) + 1
  }

  /** With unique keys, lookup finds exactly the row that has the key. */
  lemma {:induction false} FindUnique<T(!new)>(s: seq<T>, key: T -> Guid, x: T)
    requires UniqueKeys(s, key) && x in s
    ensures Find(s, key, key(x)) == Some(x)
  {
    if s[0] != x {
      var j :| 0 <= j < |s| && s[j] == x;
      assert key(s[0]) != key(s[j]);
      assert x in s[1..] && UniqueKeys(s[1..], key) by {
        assert s[1..][j - 1] == x;
        forall i, i' | 0 <= i < |s| - 1 && 0 <= i' < |s| - 1 && i != i'
          ensures key(s[1..][i]) != key(s[1..][i'])
        {
          assert s[1..][i] == s[i + 1] && s[1..][i'] == s[i' + 1];
        }
      }
      FindUnique(s[1..], key, x);
    }
  }

  /** Appending a row with a new key: the new row is found by its key and
      every other key finds what it found before. */
  lemma {:induction false} FindAppend<T(!new)>(s: seq<T>, key: T -> Guid, x: T, k: Guid)
    requires !HasKey(s, key, key(x))
    ensures Find(s + [x], key, k) == if k == key(x) then Some(x) else Find(s, key, k)
  {
    if s != [] {
      assert (s + [x])[1..] == s[1..] + [x];
      assert !HasKey(s[1..], key, key(x)) by {
        forall y | y in s[1..] ensures key(y) != key(x) {
          assert y in s;
        }
      }
      FindAppend(s[1..], key, x, k);
    }
  }

  /** Replacing by key: the key of `x` now finds `x` when it was stored, and
      every other key finds what it found before. */
  lemma {:induction false} FindReplace<T(!new)>(s: seq<T>, key: T -> Guid, x: T, k: Guid)
    ensures Find(Replace(s, key, x), key, k) ==
            if k != key(x) then Find(s, key, k)
            else if HasKey(s, key, k) then Some(x) else None
  {
    if s != [] {
      assert Replace(s, key, x)[1..] == Replace(s[1..], key, x);
      assert forall y :: y in s <==> y == s[0] || y in s[1..] by {
        assert s == [s[0]] + s[1..];
      }
      FindReplace(s[1..], key, x, k);
    }
  }

  /** Removing by key: that key finds nothing any more, and every other key
      finds what it found before. */
  lemma {:induction false} FindRemove<T(!new)>(s: seq<T>, key: T -> Guid, k: Guid, k': Guid)
    ensures Find(Remove(s, key, k), key, k') == if k' == k then None else Find(s, key, k')
  {
    if s != [] {
      FindRemove(s[1..], key, k, k');
    }
  }

  /** A table with unique keys holds each row at most once. */
  lemma {:induction false} UniqueKeysNoDuplicates<T(!new)>(s: seq<T>, key: T -> Guid, x: T)
    requires UniqueKeys(s, key)
    ensures multiset(s)[x] <= 1
  {
    if s != [] {
      assert s == [s[0]] + s[1..];
      assert UniqueKeys(s[1..], key) by {
        forall i, j | 0 <= i < |s| - 1 && 0 <= j < |s| - 1 && i != j
          ensures key(s[1..][i]) != key(s[1..][j])
        {
          assert s[1..][i] == s[i + 1] && s[1..][j] == s[j + 1];
        }
      }
      UniqueKeysNoDuplicates(s[1..], key, x);
      if s[0] == x {
        assert x !in s[1..] by {
          forall j | 0 <= j < |s| - 1 ensures s[1..][j] != x {
            assert key(s[j + 1]) != key(s[0]);
          }
        }
      }
    }
  }

  /** A row occurring at two positions occurs at least twice. */
  lemma TwoPositions<T>(s: seq<T>, i: int, j: int)
    requires 0 <= i < j < |s| && s[i] == s[j]
    ensures multiset(s)[s[i]] >= 2
  {
    assert s == s[..j] + [s[j]] + s[j + 1..];
    assert s[i] in s[..j];
  }

  /** Any selection of rows from a table with unique keys has unique keys:
      filtering, slicing and reordering cannot create a duplicate key. */
  lemma UniqueKeysSubBag<T(!new)>(s: seq<T>, r: seq<T>, key: T -> Guid)
    requires multiset(r) <= multiset(s)
    ensures UniqueKeys(s, key) ==> UniqueKeys(r, key)
  {
    if UniqueKeys(s, key) {
      forall i, j | 0 <= i < |r| && 0 <= j < |r| && i != j
        ensures key(r[i]) != key(r[j])
      {
        if r[i] == r[j] {
          if i < j { TwoPositions(r, i, j); } else { TwoPositions(r, j, i); }
          UniqueKeysNoDuplicates(s, key, r[i]);
          assert false;
        } else {
          assert r[i] in multiset(s) && r[j] in multiset(s);
          var p :| 0 <= p < |s| && s[p] == r[i];
          var q :| 0 <= q < |s| && s[q] == r[j];
        }
      }
    }
  }

  lemma UniqueKeysAppend<T(!new)>(s: seq<T>, key: T -> Guid, x: T)
    requires UniqueKeys(s, key) && !HasKey(s, key, key(x))
    ensures UniqueKeys(s + [x], key)
  {
    forall i, j | 0 <= i < |s| + 1 && 0 <= j < |s| + 1 && i != j
      ensures key((s + [x])[i]) != key((s + [x])[j])
    {
      if i < |s| { assert s[i] in s; }
      if j < |s| { assert s[j] in s; }
    }
  }

  /** Replacing a row by key keeps every key where it was. */
  lemma ReplaceKeepsKeys<T(!new)>(s: seq<T>, key: T -> Guid, x: T)
    ensures forall i :: 0 <= i < |s| ==> key(Replace(s, key, x)[i]) == key(s[i])
    ensures UniqueKeys(s, key) ==> UniqueKeys(Replace(s, key, x), key)
    ensures forall k :: HasKey(Replace(s, key, x), key, k) <==> HasKey(s, key, k)
  {
    var r := Replace(s, key, x);
    forall k ensures HasKey(r, key, k) <==> HasKey(s, key, k) {
      if HasKey(r, key, k) {
        var y :| y in r && key(y) == k;
        var i :| 0 <= i < |r| && r[i] == y;
        assert s[i] in s;
      }
      if HasKey(s, key, k) {
        var y :| y in s && key(y) == k;
        var i :| 0 <= i < |s| && s[i] == y;
        assert r[i] in r;
      }
    }
  }

  /** After removing key `k`, exactly the other keys remain. */
  lemma RemoveKeys<T(!new)>(s: seq<T>, key: T -> Guid, k: Guid)
    ensures UniqueKeys(s, key) ==> UniqueKeys(Remove(s, key, k), key)
    ensures forall k' :: HasKey(Remove(s, key, k), key, k') <==> HasKey(s, key, k') && k' != k
  {
    var r := Remove(s, key, k);
    UniqueKeysSubBag(s, r, key);
    forall k' ensures HasKey(r, key, k') <==> HasKey(s, key, k') && k' != k {
      if HasKey(s, key, k') && k' != k {
        var y :| y in s && key(y) == k';
        assert y in multiset(r);
      }
      if HasKey(r, key, k') {
        var y :| y in r && key(y) == k';
        assert y in multiset(r);
      }
    }
  }

  /** With unique keys, removing the key of a stored row removes exactly that
      row and leaves every other row in place. */
  lemma RemoveOne<T(!new)>(s: seq<T>, key: T -> Guid, x: T)
    requires UniqueKeys(s, key) && x in s
    ensures multiset(Remove(s, key, key(x))) == multiset(s) - multiset{x}
    ensures |Remove(s, key, key(x))| == |s| - 1
  {
    var r := Remove(s, key, key(x));
    UniqueKeysNoDuplicates(s, key, x);
    forall y ensures multiset(r)[y] == (multiset(s) - multiset{x})[y] {
      if key(y) == key(x) && y != x && y in s {
        FindUnique(s, key, x);
        FindUnique(s, key, y);
      }
    }
    assert multiset(r) == multiset(s) - multiset{x};
    assert |multiset(r)| == |multiset(s)| - 1;
  }
}
