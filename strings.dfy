/** The key order of `std::map<std::string, T>`: lexicographic comparison of
    character codes, a proper prefix coming first.  Used wherever the source
    iterates a map in order or takes `begin()`. */
module Strings {

  predicate LessEq(a: string, b: string)
    decreases |a|
  {
    a == [] || (b != [] && (a[0] < b[0] || (a[0] == b[0] && LessEq(a[1..], b[1..]))))
  }

  /** `k` is the first key of `keys` in map order. */
  ghost predicate IsLeast(k: string, keys: set<string>) {
    k in keys && forall j :: j in keys ==> LessEq(k, j)
  }

  lemma {:induction false} LessEqReflexive(a: string)
    ensures LessEq(a, a)
    decreases |a|
  {
    if a != [] {
      LessEqReflexive(a[1..]);
    }
  }

  lemma {:induction false} LessEqTotal(a: string, b: string)
    ensures LessEq(a, b) || LessEq(b, a)
    decreases |a|
  {
    if a != [] && b != [] && a[0] == b[0] {
      LessEqTotal(a[1..], b[1..]);
    }
  }

  lemma {:induction false} LessEqTransitive(a: string, b: string, c: string)
    requires LessEq(a, b) && LessEq(b, c)
    ensures LessEq(a, c)
    decreases |a|
  {
    if a != [] && b != [] && c != [] && a[0] == b[0] && b[0] == c[0] {
      LessEqTransitive(a[1..], b[1..], c[1..]);
    }
  }

  lemma {:induction false} LessEqAntisymmetric(a: string, b: string)
    requires LessEq(a, b) && LessEq(b, a)
    ensures a == b
    decreases |a|
  {
    if a != [] && b != [] {
      LessEqAntisymmetric(a[1..], b[1..]);
      assert a == [a[0]] + a[1..] && b == [b[0]] + b[1..];
    }
  }

  /** A set of keys has at most one first key. */
  lemma LeastUnique(k1: string, k2: string, keys: set<string>)
    requires IsLeast(k1, keys) && IsLeast(k2, keys)
    ensures k1 == k2
  {
    LessEqAntisymmetric(k1, k2);
  }

  /** The first key of a non-empty key set, found by a linear scan. */
  method LeastKey(keys: set<string>) returns (k: string)
    requires keys != {}
    ensures IsLeast(k, keys)
  {
    k :| k in keys;
    LessEqReflexive(k);
    var seen := {k};
    var todo := keys - {k};
    while todo != {}
      invariant seen + todo == keys && k in seen
      invariant forall j :: j in seen ==> LessEq(k, j)
      decreases todo
    {
      var x :| x in todo;
      if !LessEq(k, x) {
        LessEqTotal(k, x);
        forall j | j in seen
          ensures LessEq(x, j)
        {
          LessEqTransitive(x, k, j);
        }
        k := x;
        LessEqReflexive(k);
      }
      seen := seen + {x};
      todo := todo - {x};
    }
  }

  /** Every non-empty key set has a first key. */
  lemma {:induction false} LeastExists(keys: set<string>)
    requires keys != {}
    ensures exists k :: IsLeast(k, keys)
    decreases |keys|
  {
    var x :| x in keys;
    LessEqReflexive(x);
    if keys - {x} == {} {
      assert keys == {x};
      assert IsLeast(x, keys);
    } else {
      LeastExists(keys - {x});
      var k :| IsLeast(k, keys - {x});
      if LessEq(k, x) {
        assert IsLeast(k, keys);
      } else {
        LessEqTotal(k, x);
        forall j | j in keys
          ensures LessEq(x, j)
        {
          if j != x {
            LessEqTransitive(x, k, j);
          }
        }
        assert IsLeast(x, keys);
      }
    }
  }

  /** The keys of a map in the order a std::map visits them. */
  ghost function SortedKeys(keys: set<string>): (r: seq<string>)
    decreases |keys|
  {
    if keys == {} then []
    else
      LeastExists(keys);
      var k :| IsLeast(k, keys);
      [k] + SortedKeys(keys - {k})
  }

  /** Visiting the first key leaves the rest in order. */
  lemma SortedKeysStep(keys: set<string>, k: string)
    requires IsLeast(k, keys)
    ensures SortedKeys(keys) == [k] + SortedKeys(keys - {k})
  {
    LeastExists(keys);
    var r := SortedKeys(keys);
    assert IsLeast(r[0], keys) && r == [r[0]] + SortedKeys(keys - {r[0]});
    LeastUnique(k, r[0], keys);
  }

  /** Each key is visited exactly once. */
  lemma {:induction false} SortedKeysContents(keys: set<string>)
    ensures |SortedKeys(keys)| == |keys|
    ensures forall k :: k in SortedKeys(keys) <==> k in keys
    ensures forall i, j :: 0 <= i < j < |SortedKeys(keys)| ==> SortedKeys(keys)[i] != SortedKeys(keys)[j]
    decreases |keys|
  {
    if keys != {} {
      LeastExists(keys);
      var k :| IsLeast(k, keys);
      SortedKeysStep(keys, k);
      SortedKeysContents(keys - {k});
      var r := SortedKeys(keys);
      forall i, j | 0 <= i < j < |r|
        ensures r[i] != r[j]
      {
        if i == 0 {
          assert r[j] in SortedKeys(keys - {k});
        } else {
          assert r[i] == SortedKeys(keys - {k})[i - 1];
          assert r[j] == SortedKeys(keys - {k})[j - 1];
        }
      }
    }
  }

  /** Ordered iteration visits keys in non-decreasing order. */
  lemma {:induction false} SortedKeysOrdered(keys: set<string>, i: int)
    requires 0 <= i < |SortedKeys(keys)|
    ensures forall j :: i <= j < |SortedKeys(keys)| ==> LessEq(SortedKeys(keys)[i], SortedKeys(keys)[j])
    decreases |keys|
  {
    LeastExists(keys);
    var k :| IsLeast(k, keys);
    SortedKeysStep(keys, k);
    var r := SortedKeys(keys);
    if i == 0 {
      SortedKeysContents(keys);
      forall j | 0 <= j < |r|
        ensures LessEq(r[0], r[j])
      {
        assert r[j] in keys;
      }
    } else {
      SortedKeysOrdered(keys - {k}, i - 1);
      forall j | i <= j < |r|
        ensures LessEq(r[i], r[j])
      {
        assert r[j] == SortedKeys(keys - {k})[j - 1];
      }
    }
  }
}
