/**
 * Sorted lists of key-value pairs: the meaning both ordered trees of tree/src are proved
 * against. A B-tree node and a red-black tree each stand for the pairs they hold in key
 * order, and their insertion and removal are the operations below.
 */
module SortedPairs {
  import opened Wrappers

  type Pair<V> = (int, V)

  /** Keys strictly increase. */
  ghost predicate Sorted<V>(s: seq<Pair<V>>)
  {
    forall i, j :: 0 <= i < j < |s| ==> s[i].0 < s[j].0
  }

  /** The value of the first pair with `key`. */
  ghost function Get<V>(s: seq<Pair<V>>, key: int): Option<V>
  {
    if s == [] then None
    else if s[0].0 == key then Some(s[0].1)
    else Get(s[1..], key)
  }

  /** `p` put in its place among sorted pairs, replacing a pair with its key. */
  ghost function InsertSorted<V>(s: seq<Pair<V>>, p: Pair<V>): seq<Pair<V>>
  {
    if s == [] then [p]
    else if p.0 < s[0].0 then [p] + s
    else if p.0 == s[0].0 then [p] + s[1..]
    else [s[0]] + InsertSorted(s[1..], p)
  }

  /** The pairs without the first one with `key`. */
  ghost function Delete<V>(s: seq<Pair<V>>, key: int): seq<Pair<V>>
  {
    if s == [] then []
    else if s[0].0 == key then s[1..]
    else [s[0]] + Delete(s[1..], key)
  }

  /** All keys in `s` are below `key`. */
  ghost predicate Below<V>(s: seq<Pair<V>>, key: int)
  {
    forall i :: 0 <= i < |s| ==> s[i].0 < key
  }

  /** All keys in `s` are above `key`. */
  ghost predicate Above<V>(s: seq<Pair<V>>, key: int)
  {
    forall i :: 0 <= i < |s| ==> s[i].0 > key
  }

  lemma {:induction false} GetAbsent<V>(s: seq<Pair<V>>, key: int)
    requires forall i :: 0 <= i < |s| ==> s[i].0 != key
    ensures Get(s, key) == None
  {
    if s != [] {
      GetAbsent(s[1..], key);
    }
  }

  lemma {:induction false} GetAt<V>(s: seq<Pair<V>>, j: nat)
    requires Sorted(s) && j < |s|
    ensures Get(s, s[j].0) == Some(s[j].1)
  {
    if j > 0 {
      GetAt(s[1..], j - 1);
    }
  }

  /** Inserting a key that is present replaces its pair. */
  lemma {:induction false} InsertSortedAt<V>(s: seq<Pair<V>>, j: nat, p: Pair<V>)
    requires Sorted(s) && j < |s| && s[j].0 == p.0
    ensures InsertSorted(s, p) == s[j := p]
  {
    if j > 0 {
      InsertSortedAt(s[1..], j - 1, p);
      assert s[j := p] == [s[0]] + s[1..][j - 1 := p];
    }
  }

  /** Inserting an absent key puts it at the place where the keys go from below to above it. */
  lemma {:induction false} InsertSortedPos<V>(s: seq<Pair<V>>, i: nat, p: Pair<V>)
    requires i <= |s| && Below(s[..i], p.0) && Above(s[i..], p.0)
    ensures InsertSorted(s, p) == s[..i] + [p] + s[i..]
  {
    if i > 0 {
      assert s[1..][..i - 1] == s[1..i] && s[1..][i - 1..] == s[i..];
      assert s[0] == s[..i][0];
      InsertSortedPos(s[1..], i - 1, p);
      assert s[..i] == [s[0]] + s[1..i];
    } else if s != [] {
      assert s[0] == s[i..][0];
    }
  }

  /** Pairs below and above the key pass through an insertion untouched. */
  lemma InsertSortedMiddle<V>(a: seq<Pair<V>>, x: seq<Pair<V>>, r: seq<Pair<V>>, p: Pair<V>)
    requires Below(a, p.0) && Above(r, p.0)
    ensures InsertSorted(a + x + r, p) == a + InsertSorted(x, p) + r
  {
    assert a + x + r == a + (x + r);
    InsertSortedPrefix(a, x + r, p);
    InsertSortedSuffix(x, r, p);
  }

  /** Pairs below the new key pass through an insertion untouched. */
  lemma {:induction false} InsertSortedPrefix<V>(a: seq<Pair<V>>, s: seq<Pair<V>>, p: Pair<V>)
    requires Below(a, p.0)
    ensures InsertSorted(a + s, p) == a + InsertSorted(s, p)
  {
    if a != [] {
      assert (a + s)[0] == a[0] && (a + s)[1..] == a[1..] + s;
      assert Below(a[1..], p.0) by {
        forall i | 0 <= i < |a| - 1
          ensures a[1..][i].0 < p.0
        {
          assert a[1..][i] == a[i + 1];
        }
      }
      InsertSortedPrefix(a[1..], s, p);
      assert a == [a[0]] + a[1..];
    } else {
      assert a + s == s;
    }
  }

  /** Pairs above the new key pass through an insertion untouched. */
  lemma {:induction false} InsertSortedSuffix<V>(x: seq<Pair<V>>, r: seq<Pair<V>>, p: Pair<V>)
    requires Above(r, p.0)
    ensures InsertSorted(x + r, p) == InsertSorted(x, p) + r
  {
    if x != [] {
      assert (x + r)[0] == x[0] && (x + r)[1..] == x[1..] + r;
      if p.0 > x[0].0 {
        InsertSortedSuffix(x[1..], r, p);
      }
    } else {
      assert x + r == r;
      if r != [] {
        assert r[0].0 > p.0;
      }
    }
  }

  /** Lookups of a key pass over the pairs below and above it. */
  lemma {:induction false} GetMiddle<V>(a: seq<Pair<V>>, x: seq<Pair<V>>, r: seq<Pair<V>>, key: int)
    requires Below(a, key) && Above(r, key)
    ensures Get(a + x + r, key) == Get(x, key)
    decreases |a| + |x|
  {
    if a != [] {
      assert (a + x + r)[0] == a[0];
      assert (a + x + r)[1..] == a[1..] + x + r;
      GetMiddle(a[1..], x, r, key);
    } else if x != [] {
      assert a + x + r == x + r && [] + x[1..] + r == x[1..] + r;
      assert (x + r)[0] == x[0] && (x + r)[1..] == x[1..] + r;
      GetMiddle([], x[1..], r, key);
    } else {
      assert a + x + r == r;
      GetAbsent(r, key);
    }
  }

  /** Removing a present key drops its pair. */
  lemma DeleteAt<V>(s: seq<Pair<V>>, j: nat)
    requires Sorted(s) && j < |s|
    ensures Delete(s, s[j].0) == s[..j] + s[j + 1..]
  {
    var key := s[j].0;
    assert s == s[..j] + [s[j]] + s[j + 1..];
    assert Below(s[..j], key) by {
      forall i | 0 <= i < j
        ensures s[..j][i].0 < key
      {
        assert s[..j][i] == s[i];
      }
    }
    var after := s[j + 1..];
    assert Above(after, key) by {
      forall i | 0 <= i < |after|
        ensures after[i].0 > key
      {
        assert after[i] == s[j + 1 + i];
      }
    }
    DeleteMiddle(s[..j], [s[j]], s[j + 1..], key);
    assert Delete([s[j]], key) == [];
  }

  lemma {:induction false} DeleteAbsent<V>(s: seq<Pair<V>>, key: int)
    requires Get(s, key) == None
    ensures Delete(s, key) == s
  {
    if s != [] {
      DeleteAbsent(s[1..], key);
    }
  }

  /** Pairs below and above the key pass through a removal untouched. */
  lemma DeleteMiddle<V>(a: seq<Pair<V>>, x: seq<Pair<V>>, r: seq<Pair<V>>, key: int)
    requires Below(a, key) && Above(r, key)
    ensures Delete(a + x + r, key) == a + Delete(x, key) + r
  {
    assert a + x + r == a + (x + r);
    DeletePrefix(a, x + r, key);
    DeleteSuffix(x, r, key);
  }

  /** Pairs below the key pass through a removal untouched. */
  lemma {:induction false} DeletePrefix<V>(a: seq<Pair<V>>, s: seq<Pair<V>>, key: int)
    requires Below(a, key)
    ensures Delete(a + s, key) == a + Delete(s, key)
  {
    if a != [] {
      assert (a + s)[0] == a[0] && (a + s)[1..] == a[1..] + s;
      assert Below(a[1..], key) by {
        forall i | 0 <= i < |a| - 1
          ensures a[1..][i].0 < key
        {
          assert a[1..][i] == a[i + 1];
        }
      }
      DeletePrefix(a[1..], s, key);
      assert a == [a[0]] + a[1..];
    } else {
      assert a + s == s;
    }
  }

  /** Pairs above the key pass through a removal untouched. */
  lemma {:induction false} DeleteSuffix<V>(x: seq<Pair<V>>, r: seq<Pair<V>>, key: int)
    requires Above(r, key)
    ensures Delete(x + r, key) == Delete(x, key) + r
  {
    if x != [] {
      assert (x + r)[0] == x[0] && (x + r)[1..] == x[1..] + r;
      DeleteSuffix(x[1..], r, key);
    } else {
      assert x + r == r;
      GetAbsent(r, key);
      DeleteAbsent(r, key);
    }
  }

  /** Insertion keeps the pairs sorted and adds one pair exactly when the key was absent. */
  lemma {:induction false} InsertSortedKeeps<V>(s: seq<Pair<V>>, p: Pair<V>)
    requires Sorted(s)
    ensures Sorted(InsertSorted(s, p))
    ensures |InsertSorted(s, p)| == |s| + (if Get(s, p.0).None? then 1 else 0)
  {
    if s == [] {
    } else if p.0 < s[0].0 {
      GetAbsent(s, p.0);
    } else if p.0 == s[0].0 {
    } else {
      assert Sorted(s[1..]) && Above(s[1..], s[0].0);
      InsertSortedKeeps(s[1..], p);
      InsertSortedAbove(s[1..], p, s[0].0);
    }
  }

  /** After an insertion, the key finds the new value and every other key what it found before. */
  lemma {:induction false} InsertSortedGet<V>(s: seq<Pair<V>>, p: Pair<V>, key: int)
    ensures Get(InsertSorted(s, p), key) == if key == p.0 then Some(p.1) else Get(s, key)
  {
    if s != [] && p.0 > s[0].0 {
      InsertSortedGet(s[1..], p, key);
    }
  }

  /** After a removal from sorted pairs, the key finds nothing and every other key what it found before. */
  lemma {:induction false} DeleteGet<V>(s: seq<Pair<V>>, key: int, other: int)
    requires Sorted(s)
    ensures Get(Delete(s, key), other) == if other == key then None else Get(s, other)
  {
    if s != [] {
      if s[0].0 == key {
        if other == key {
          GetAbsent(s[1..], key);
        }
      } else {
        assert Sorted(s[1..]);
        DeleteGet(s[1..], key, other);
      }
    }
  }

  /** A lower bound of the pairs and of the new key bounds the insertion result. */
  lemma {:induction false} InsertSortedAbove<V>(s: seq<Pair<V>>, p: Pair<V>, b: int)
    requires Above(s, b) && p.0 > b
    ensures Above(InsertSorted(s, p), b)
  {
    if s != [] && p.0 > s[0].0 {
      InsertSortedAbove(s[1..], p, b);
    }
  }

  /** Removal keeps the pairs sorted, drops one pair exactly when the key was present, and invents none. */
  lemma {:induction false} DeleteKeeps<V>(s: seq<Pair<V>>, key: int)
    requires Sorted(s)
    ensures Sorted(Delete(s, key))
    ensures |Delete(s, key)| == |s| - (if Get(s, key).Some? then 1 else 0)
    ensures multiset(Delete(s, key)) <= multiset(s)
  {
    if s != [] {
      assert s == [s[0]] + s[1..];
      assert Sorted(s[1..]) by {
        forall i, j | 0 <= i < j < |s| - 1
          ensures s[1..][i].0 < s[1..][j].0
        {
          assert s[1..][i] == s[i + 1] && s[1..][j] == s[j + 1];
        }
      }
      if s[0].0 != key {
        DeleteKeeps(s[1..], key);
        assert Above(s[1..], s[0].0) by {
          forall i | 0 <= i < |s| - 1
            ensures s[1..][i].0 > s[0].0
          {
            assert s[1..][i] == s[i + 1];
          }
        }
        DeleteAbove(s[1..], key, s[0].0);
        ConsSorted(s[0], Delete(s[1..], key));
      }
    }
  }

  /** Removal keeps every key above a bound. */
  lemma {:induction false} DeleteAbove<V>(s: seq<Pair<V>>, key: int, b: int)
    requires Above(s, b)
    ensures Above(Delete(s, key), b)
  {
    if s != [] && s[0].0 != key {
      assert Above(s[1..], b) by {
        forall i | 0 <= i < |s| - 1
          ensures s[1..][i].0 > b
        {
          assert s[1..][i] == s[i + 1];
        }
      }
      DeleteAbove(s[1..], key, b);
    }
  }

  /** A pair below every key of sorted pairs, put in front of them, keeps them sorted. */
  lemma ConsSorted<V>(p: Pair<V>, t: seq<Pair<V>>)
    requires Sorted(t) && Above(t, p.0)
    ensures Sorted([p] + t)
  {
    forall i, j | 0 <= i < j < |t| + 1
      ensures ([p] + t)[i].0 < ([p] + t)[j].0
    {
      assert ([p] + t)[j] == t[j - 1];
      if i > 0 {
        assert ([p] + t)[i] == t[i - 1];
      }
    }
  }

  /** A key smaller than a middle element goes into the part before it. */
  lemma InsertBefore<V>(a: seq<Pair<V>>, x: Pair<V>, b: seq<Pair<V>>, p: Pair<V>)
    requires Sorted(a + [x] + b) && p.0 < x.0
    ensures InsertSorted(a + [x] + b, p) == InsertSorted(a, p) + [x] + b
    ensures Get(a + [x] + b, p.0) == Get(a, p.0)
  {
    var s := a + [x] + b;
    forall i | 0 <= i < |[x] + b|
      ensures ([x] + b)[i].0 > p.0
    {
      assert ([x] + b)[i] == s[|a| + i] && x == s[|a|];
    }
    assert s == [] + a + ([x] + b);
    InsertSortedMiddle([], a, [x] + b, p);
    GetMiddle([], a, [x] + b, p.0);
  }

  /** A key larger than a middle element goes into the part after it. */
  lemma InsertAfter<V>(a: seq<Pair<V>>, x: Pair<V>, b: seq<Pair<V>>, p: Pair<V>)
    requires Sorted(a + [x] + b) && p.0 > x.0
    ensures InsertSorted(a + [x] + b, p) == a + [x] + InsertSorted(b, p)
    ensures Get(a + [x] + b, p.0) == Get(b, p.0)
  {
    var s := a + [x] + b;
    forall i | 0 <= i < |a + [x]|
      ensures (a + [x])[i].0 < p.0
    {
      assert (a + [x])[i] == s[i] && x == s[|a|];
    }
    assert s == (a + [x]) + b + [];
    InsertSortedMiddle(a + [x], b, [], p);
    GetMiddle(a + [x], b, [], p.0);
  }
}
