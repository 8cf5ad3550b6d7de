/**
 * How both routers use the numeric key of their table: `findOne().sort('-key')`
 * to find the largest key, `max ? max + 1 : 1` to number a new record,
 * `findOne({ key })` to address one record, and
 * `find().sort('-key')` to list the table newest first.
 */
module Keys {
  import opened Outcome

  /** The largest key, as `findOne().sort('-key')` returns it. */
  function Max(keys: seq<int>): (m: int)
    requires keys != []
    ensures m in keys
    ensures forall i :: 0 <= i < |keys| ==> keys[i] <= m
  {
    if |keys| == 1 then keys[0]
    else
      var rest := Max(keys[1..]);
      if keys[0] >= rest then keys[0] else rest
  }

  /** The key given to a new record: 1 in an empty table, otherwise one more than the largest key. */
  function NextKey(keys: seq<int>): (k: int)
    ensures keys == [] ==> k == 1
    ensures keys != [] ==> k - 1 in keys
    ensures forall i :: 0 <= i < |keys| ==> keys[i] < k
  {
    if keys == [] then 1 else Max(keys) + 1
  }

  /**
   * Numbering after the largest key `m` is dropped: the next key is at most
   * `m`, and equals `m` exactly when `m - 1` remains, or nothing remains and
   * `m` was 1.
   */
  lemma {:induction false} NextKeyWithoutMax(keys: seq<int>, rest: seq<int>)
    requires keys != [] && forall i :: 0 <= i < |keys| ==> keys[i] >= 1
    requires forall j :: 0 <= j < |rest| ==> rest[j] in keys && rest[j] != Max(keys)
    ensures NextKey(rest) <= Max(keys)
    ensures NextKey(rest) == Max(keys) <==> (Max(keys) - 1 in rest || (rest == [] && Max(keys) == 1))
  {
    var m, k := Max(keys), NextKey(rest);
    if rest == [] {
      assert m >= 1;
    } else {
      assert k - 1 in rest;
      assert k <= m;
      if m - 1 in rest {
        assert m - 1 < k;
      }
    }
  }

  /** With keys 1..n in creation order, the next key is n + 1. */
  lemma {:induction false} NextKeyOfSequence(keys: seq<int>)
    requires forall i :: 0 <= i < |keys| ==> keys[i] == i + 1
    ensures NextKey(keys) == |keys| + 1
  {
    if keys != [] {
      assert keys[|keys| - 1] == |keys|;
      var j :| 0 <= j < |keys| && keys[j] == NextKey(keys) - 1;
    }
  }

  /** Position of the record whose key is `k`, as `findOne({ key: k })` locates it. */
  function IndexOfKey<T>(s: seq<T>, key: T -> int, k: int): (r: Option<nat>)
    ensures r.Some? ==> r.value < |s| && key(s[r.value]) == k
    ensures r.None? <==> forall i :: 0 <= i < |s| ==> key(s[i]) != k
  {
    if s == [] then None
    else if key(s[0]) == k then Some(0)
    else
      match IndexOfKey(s[1..], key, k)
      case None => None
      case Some(j) => Some(j + 1)
  }

  /** No two records of `s` agree on `f` (a unique index on the field `f`). */
  predicate Unique<T, K(==)>(s: seq<T>, f: T -> K) {
    forall i, j :: 0 <= i < j < |s| ==> f(s[i]) != f(s[j])
  }

  /** Dropping one record keeps a unique field unique. */
  lemma UniqueWithout<T, K>(s: seq<T>, i: nat, f: T -> K)
    requires i < |s| && Unique(s, f)
    ensures Unique(s[..i] + s[i + 1..], f)
  {
    var r := s[..i] + s[i + 1..];
    forall a, b | 0 <= a < b < |r| ensures f(r[a]) != f(r[b]) {
      var a', b' := if a < i then a else a + 1, if b < i then b else b + 1;
      assert r[a] == s[a'] && r[b] == s[b'];
    }
  }

  /** Keys never increase along `s`. */
  predicate Descending<T>(s: seq<T>, key: T -> int) {
    forall i, j :: 0 <= i < j < |s| ==> key(s[i]) >= key(s[j])
  }

  /** Keys strictly decrease along `s`. */
  predicate StrictlyDescending<T>(s: seq<T>, key: T -> int) {
    forall i, j :: 0 <= i < j < |s| ==> key(s[i]) > key(s[j])
  }

  /** Putting a record with a key no smaller than the head in front keeps the order. */
  lemma DescendingCons<T>(y: T, t: seq<T>, key: T -> int)
    requires Descending(t, key) && (t == [] || key(y) >= key(t[0]))
    ensures Descending([y] + t, key)
    ensures StrictlyDescending(t, key) && (t == [] || key(y) > key(t[0])) ==> StrictlyDescending([y] + t, key)
  {
    var r := [y] + t;
    forall i, j | 0 <= i < j < |r| ensures key(r[i]) >= key(r[j]) {
      if i == 0 && j > 1 { assert key(t[0]) >= key(t[j - 1]); }
    }
    if StrictlyDescending(t, key) && (t == [] || key(y) > key(t[0])) {
      forall i, j | 0 <= i < j < |r| ensures key(r[i]) > key(r[j]) {
        if i == 0 && j > 1 { assert key(t[0]) > key(t[j - 1]); }
      }
    }
  }

  /** `x` placed into the descending sequence `s` in front of the first record with a smaller key. */
  function InsertDesc<T>(x: T, s: seq<T>, key: T -> int): (r: seq<T>)
    requires Descending(s, key)
    ensures multiset(r) == multiset(s) + multiset{x}
    ensures |r| == |s| + 1 && (r[0] == x || (s != [] && r[0] == s[0]))
    ensures Descending(r, key)
  {
    if s == [] || key(x) >= key(s[0]) then
      DescendingCons(x, s, key);
      [x] + s
    else
      assert s == [s[0]] + s[1..];
      var tail := InsertDesc(x, s[1..], key);
      assert key(s[0]) >= key(tail[0]) by {
        if tail[0] != x { assert key(s[0]) >= key(s[1]); }
      }
      DescendingCons(s[0], tail, key);
      assert multiset(s) == multiset{s[0]} + multiset(s[1..]);
      assert multiset([s[0]] + tail) == multiset{s[0]} + multiset(tail);
      [s[0]] + tail
  }

  /** Inserting a record whose key is new into a strictly descending sequence keeps it strictly descending. */
  lemma {:induction false} InsertDescStrict<T>(x: T, s: seq<T>, key: T -> int)
    requires StrictlyDescending(s, key)
    requires forall i :: 0 <= i < |s| ==> key(s[i]) != key(x)
    ensures StrictlyDescending(InsertDesc(x, s, key), key)
  {
    if s == [] || key(x) >= key(s[0]) {
      DescendingCons(x, s, key);
    } else {
      var tail := InsertDesc(x, s[1..], key);
      assert StrictlyDescending(s[1..], key);
      InsertDescStrict(x, s[1..], key);
      assert key(s[0]) > key(tail[0]) by {
        if tail[0] != x { assert key(s[0]) > key(s[1]); }
      }
      DescendingCons(s[0], tail, key);
    }
  }

  /** The table as `find().sort('-key')` returns it: the same records, largest key first. */
  function SortDesc<T>(s: seq<T>, key: T -> int): (r: seq<T>)
    ensures multiset(r) == multiset(s)
    ensures Descending(r, key)
    ensures Unique(s, key) ==> StrictlyDescending(r, key)
  {
    if s == [] then []
    else
      var tail := SortDesc(s[1..], key);
      assert s == [s[0]] + s[1..];
      assert Unique(s, key) ==> StrictlyDescending(InsertDesc(s[0], tail, key), key) by {
        if Unique(s, key) {
          forall i | 0 <= i < |tail| ensures key(tail[i]) != key(s[0]) {
            assert tail[i] in multiset(s[1..]);
          }
          InsertDescStrict(s[0], tail, key);
        }
      }
      InsertDesc(s[0], tail, key)
  }
}
