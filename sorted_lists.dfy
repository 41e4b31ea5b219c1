/** The priority-ordered lists of the network: `List<T>.BinarySearch` with
    the comparer `(a, b) => b.Priority.CompareTo(a.Priority)` (higher
    priority first), insertion at the position it reports, and
    `List<T>.Remove` of one element. */
module SortedLists {

  /** Keys in descending order (ties allowed). */
  ghost predicate Descending(keys: seq<int>)
  {
    forall i, j :: 0 <= i < j < |keys| ==> keys[i] >= keys[j]
  }

  /** `k` is a place where `key` can go without breaking the order. */
  ghost predicate FitsAt(keys: seq<int>, k: int, key: int)
  {
    0 <= k <= |keys| &&
    (forall j :: 0 <= j < k ==> keys[j] >= key) &&
    (forall j :: k <= j < |keys| ==> keys[j] <= key)
  }

  function InsertAt<T>(s: seq<T>, k: int, x: T): (r: seq<T>)
    requires 0 <= k <= |s|
    ensures |r| == |s| + 1 && r[k] == x
    ensures forall j :: 0 <= j < k ==> r[j] == s[j]
    ensures forall j :: k < j < |r| ==> r[j] == s[j - 1]
  {
    s[..k] + [x] + s[k..]
  }

  /** Inserting keeps every element that was there. */
  lemma InsertAtMembers<T>(s: seq<T>, k: int, x: T)
    requires 0 <= k <= |s|
    ensures forall y :: y in InsertAt(s, k, x) <==> y == x || y in s
  {
    assert InsertAt(s, k, x) == s[..k] + [x] + s[k..];
    assert s == s[..k] + s[k..];
  }

  function RemoveAt<T>(s: seq<T>, k: int): (r: seq<T>)
    requires 0 <= k < |s|
    ensures |r| == |s| - 1
    ensures forall j :: 0 <= j < k ==> r[j] == s[j]
    ensures forall j :: k <= j < |r| ==> r[j] == s[j + 1]
  {
    s[..k] + s[k + 1..]
  }

  /** Removing what was just inserted gives the list back. */
  lemma RemoveInserted<T>(s: seq<T>, k: int, x: T)
    requires 0 <= k <= |s|
    ensures RemoveAt(InsertAt(s, k, x), k) == s
  {
    assert RemoveAt(InsertAt(s, k, x), k) == s[..k] + s[k..];
  }

  /** `s[i]` under a name of its own: the quantifier of `Distinct` is
      instantiated only where a proof mentions `At`, not at every pair of
      indexings of a list in scope. */
  function At<T>(s: seq<T>, i: int): T
    requires 0 <= i < |s|
  {
    s[i]
  }

  /** No element occurs twice. */
  ghost predicate Distinct<T>(s: seq<T>)
  {
    forall i, j :: 0 <= i < j < |s| ==> At(s, i) != At(s, j)
  }

  lemma DistinctAt<T>(s: seq<T>, i: int, j: int)
    requires Distinct(s) && 0 <= i < |s| && 0 <= j < |s| && i != j
    ensures s[i] != s[j]
  {
    if i < j {
      assert At(s, i) != At(s, j);
    } else {
      assert At(s, j) != At(s, i);
    }
  }

  lemma DistinctPrefix<T>(s: seq<T>, n: int)
    requires Distinct(s) && 0 <= n <= |s|
    ensures Distinct(s[..n])
  {
    forall i, j | 0 <= i < j < n ensures At(s[..n], i) != At(s[..n], j) {
      DistinctAt(s, i, j);
    }
  }

  lemma PrefixOfPrefix<T>(s: seq<T>, m: int, n: int)
    requires 0 <= n <= m <= |s|
    ensures s[..m][..n] == s[..n]
  {
  }

  /** Position of the first occurrence of `x`. */
  function IndexOf<T(==)>(s: seq<T>, x: T): (k: int)
    requires x in s
    ensures 0 <= k < |s| && s[k] == x
    ensures forall j :: 0 <= j < k ==> s[j] != x
  {
    if s[0] == x then 0 else 1 + IndexOf(s[1..], x)
  }

  /** `List<T>.Remove(x)`: drops the first occurrence, if any. */
  function RemoveFirst<T(==)>(s: seq<T>, x: T): (r: seq<T>)
    ensures x !in s ==> r == s
    ensures x in s ==> r == RemoveAt(s, IndexOf(s, x))
  {
    if x in s then RemoveAt(s, IndexOf(s, x)) else s
  }

  lemma RemoveAtMembers<T>(s: seq<T>, k: int, y: T)
    requires 0 <= k < |s|
    ensures y in RemoveAt(s, k) <==> exists j :: 0 <= j < |s| && j != k && s[j] == y
  {
    var r := RemoveAt(s, k);
    if y in r {
      var j :| 0 <= j < |r| && r[j] == y;
      if j < k { assert s[j] == y; } else { assert s[j + 1] == y; }
    }
    if exists j :: 0 <= j < |s| && j != k && s[j] == y {
      var j :| 0 <= j < |s| && j != k && s[j] == y;
      if j < k { assert r[j] == y; } else { assert r[j - 1] == y; }
    }
  }

  lemma RemoveFirstDistinct<T>(s: seq<T>, x: T)
    requires Distinct(s)
    ensures Distinct(RemoveFirst(s, x))
    ensures forall y :: y in RemoveFirst(s, x) <==> y in s && y != x
  {
    if x in s {
      var k := IndexOf(s, x);
      var r := RemoveAt(s, k);
      forall i, j | 0 <= i < j < |r| ensures At(r, i) != At(r, j) {
        var i' := if i < k then i else i + 1;
        var j' := if j < k then j else j + 1;
        assert r[i] == At(s, i') && r[j] == At(s, j');
      }
      forall y ensures y in r <==> y in s && y != x {
        RemoveAtMembers(s, k, y);
        if y == x && y in r {
          var j :| 0 <= j < |s| && j != k && s[j] == y;
          DistinctAt(s, j, k);
        }
      }
    }
  }

  /** In a list without repeats, removing the last element's value removes
      the last element. */
  lemma RemoveFirstLast<T>(s: seq<T>)
    requires Distinct(s) && |s| > 0
    ensures IndexOf(s, s[|s| - 1]) == |s| - 1
    ensures RemoveFirst(s, s[|s| - 1]) == s[..|s| - 1]
  {
    var k := IndexOf(s, s[|s| - 1]);
    assert k < |s| - 1 ==> At(s, k) != At(s, |s| - 1);
  }

  /** The result of `List<T>.BinarySearch` is a position at which the key
      may be inserted: the found index when it is non-negative, its
      complement otherwise. */
  function InsertionIndex(r: int): int
  {
    if r < 0 then -r - 1 else r
  }

  /** `List<T>.BinarySearch(item, comparer)` over the priorities of a list
      kept in descending order, as the runtime's array search does it: the
      comparer yields `key.CompareTo(keys[mid])`; zero returns `mid`, a
      negative result searches right (the middle element ranks higher), a
      positive one searches left; failure returns the complement of the
      insertion point. */
  method BinarySearch(keys: seq<int>, key: int) returns (r: int)
    requires Descending(keys)
    ensures r >= 0 ==> r < |keys| && keys[r] == key
    ensures r < 0 ==> key !in keys
    ensures FitsAt(keys, InsertionIndex(r), key)
  {
    var lo, hi := 0, |keys| - 1;
    while lo <= hi
      invariant 0 <= lo <= hi + 1 <= |keys|
      invariant forall j :: 0 <= j < lo ==> keys[j] > key
      invariant forall j :: hi < j < |keys| ==> keys[j] < key
    {
      var mid := lo + (hi - lo) / 2;
      if key == keys[mid] {
        return mid;
      } else if key < keys[mid] {
        lo := mid + 1;
      } else {
        hi := mid - 1;
      }
    }
    r := -lo - 1;
  }

  lemma InsertKeepsDescending(keys: seq<int>, k: int, key: int)
    requires Descending(keys) && FitsAt(keys, k, key)
    ensures Descending(InsertAt(keys, k, key))
  {
  }

  lemma RemoveKeepsDescending(keys: seq<int>, k: int)
    requires Descending(keys) && 0 <= k < |keys|
    ensures Descending(RemoveAt(keys, k))
  {
    var r := RemoveAt(keys, k);
    forall i, j | 0 <= i < j < |r| ensures r[i] >= r[j] {
      var i' := if i < k then i else i + 1;
      var j' := if j < k then j else j + 1;
      assert r[i] == keys[i'] && r[j] == keys[j'];
    }
  }

  /** Sum of a list of integers. */
  function Sum(s: seq<int>): int
  {
    if s == [] then 0 else Sum(s[..|s| - 1]) + s[|s| - 1]
  }

  lemma {:induction false} SumAppend(s: seq<int>, t: seq<int>)
    ensures Sum(s + t) == Sum(s) + Sum(t)
  {
    if t == [] {
      assert s + t == s;
    } else {
      assert (s + t)[..|s + t| - 1] == s + t[..|t| - 1];
      SumAppend(s, t[..|t| - 1]);
    }
  }

  lemma SplitAround<T>(s: seq<T>, k: int)
    requires 0 <= k < |s|
    ensures s == s[..k] + [s[k]] + s[k + 1..]
  {
  }

  /** A list split around one element sums to its three parts. */
  lemma SumSplit(a: seq<int>, x: int, b: seq<int>)
    ensures Sum(a + [x] + b) == Sum(a) + x + Sum(b)
  {
    SumAppend(a + [x], b);
    assert (a + [x])[..|a|] == a;
  }

  lemma SumInsert(s: seq<int>, k: int, x: int)
    requires 0 <= k <= |s|
    ensures Sum(InsertAt(s, k, x)) == Sum(s) + x
  {
    SumSplit(s[..k], x, s[k..]);
    SumPrefix(s, k);
  }

  lemma SumRemove(s: seq<int>, k: int)
    requires 0 <= k < |s|
    ensures Sum(RemoveAt(s, k)) == Sum(s) - s[k]
  {
    SumSplit(s[..k], s[k], s[k + 1..]);
    SplitAround(s, k);
    SumAppend(s[..k], s[k + 1..]);
  }

  lemma SumUpdate(s: seq<int>, k: int, x: int)
    requires 0 <= k < |s|
    ensures Sum(s[k := x]) == Sum(s) - s[k] + x
  {
    SumRemove(s, k);
    SumRemove(s[k := x], k);
    assert RemoveAt(s, k) == RemoveAt(s[k := x], k);
  }

  /** Sum of the first `n` elements, counted by index. */
  function SumTo(s: seq<int>, n: int): int
    requires 0 <= n <= |s|
  {
    if n == 0 then 0 else SumTo(s, n - 1) + s[n - 1]
  }

  lemma SumToStep(s: seq<int>, n: int)
    requires 0 <= n < |s|
    ensures SumTo(s, n + 1) == SumTo(s, n) + s[n]
  {
  }

  /** Counting by index sums the prefix. */
  lemma {:induction false} SumToPrefix(s: seq<int>, n: int)
    requires 0 <= n <= |s|
    ensures SumTo(s, n) == Sum(s[..n])
  {
    if n > 0 {
      SumToPrefix(s, n - 1);
      assert s[..n][..n - 1] == s[..n - 1];
    }
  }

  lemma SumToAll(s: seq<int>)
    ensures SumTo(s, |s|) == Sum(s)
  {
    SumToPrefix(s, |s|);
    assert s[..|s|] == s;
  }

  lemma SumPrefix(s: seq<int>, n: int)
    requires 0 <= n <= |s|
    ensures Sum(s) == Sum(s[..n]) + Sum(s[n..])
  {
    assert s == s[..n] + s[n..];
    SumAppend(s[..n], s[n..]);
  }
}
