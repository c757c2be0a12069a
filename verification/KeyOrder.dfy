/** Memory keys in the order Python's `sorted` and SQLite's `ORDER BY key` give them. */
module KeyOrder {

  // Strict code-point order; Dafny's own `<` on strings is the prefix order.
  predicate Less(a: string, b: string) {
    b != "" && (a == "" || a[0] < b[0] || (a[0] == b[0] && Less(a[1..], b[1..])))
  }

  lemma {:induction false} PrefixIsLess(a: string, b: string)
    requires a < b
    ensures Less(a, b)
  {
    if a != "" {
      PrefixIsLess(a[1..], b[1..]);
    }
  }

  lemma {:induction false} SmallerAtFirstDifferenceIsLess(a: string, b: string, i: nat)
    requires i < |a| && i < |b| && a[..i] == b[..i] && a[i] < b[i]
    ensures Less(a, b)
  {
    if i > 0 {
      assert a[..i][0] == b[..i][0] && a[1..][..i - 1] == a[..i][1..] == b[..i][1..] == b[1..][..i - 1];
      SmallerAtFirstDifferenceIsLess(a[1..], b[1..], i - 1);
    }
  }

  lemma {:induction false} LessHasFirstDifference(a: string, b: string)
    requires Less(a, b)
    ensures a < b || exists i :: 0 <= i < |a| && i < |b| && a[..i] == b[..i] && a[i] < b[i]
  {
    if a != "" && a[0] == b[0] {
      var x, y := a[1..], b[1..];
      LessHasFirstDifference(x, y);
      if i :| 0 <= i < |x| && i < |y| && x[..i] == y[..i] && x[i] < y[i] {
        assert a[..i + 1] == [a[0]] + x[..i] == [b[0]] + y[..i] == b[..i + 1];
        assert a[i + 1] < b[i + 1];
      } else {
        assert a == [a[0]] + x && b == [b[0]] + y;
      }
    } else if a != "" {
      assert a[..0] == b[..0];
    }
  }

  /** The order of the text columns and of `sorted`: a proper prefix first, else by the first code point that differs. */
  lemma LessIsLexicographic(a: string, b: string)
    ensures Less(a, b) <==> a < b || exists i :: 0 <= i < |a| && i < |b| && a[..i] == b[..i] && a[i] < b[i]
  {
    if Less(a, b) {
      LessHasFirstDifference(a, b);
    }
    if a < b {
      PrefixIsLess(a, b);
    }
    if i :| 0 <= i < |a| && i < |b| && a[..i] == b[..i] && a[i] < b[i] {
      SmallerAtFirstDifferenceIsLess(a, b, i);
    }
  }

  lemma LessTrichotomy(a: string, b: string)
    ensures Less(a, b) || a == b || Less(b, a)
    ensures !(Less(a, b) && Less(b, a))
    ensures Less(a, b) ==> a != b
  {
    if a != "" && b != "" && a[0] == b[0] {
      LessTrichotomy(a[1..], b[1..]);
      assert a == [a[0]] + a[1..] && b == [b[0]] + b[1..];
    }
  }

  lemma LessTransitive(a: string, b: string, c: string)
    requires Less(a, b) && Less(b, c)
    ensures Less(a, c)
  {
    if a != "" && a[0] == b[0] && b[0] == c[0] {
      LessTransitive(a[1..], b[1..], c[1..]);
    }
  }

  ghost predicate Sorted(s: seq<string>) {
    forall i, j :: 0 <= i < j < |s| ==> Less(s[i], s[j])
  }

  function Elements(s: seq<string>): set<string> {
    set k | k in s
  }

  lemma FrontElements(s: seq<string>, i: nat)
    requires i < |s|
    ensures Elements(s[..i + 1]) == Elements(s[..i]) + {s[i]}
  {
    assert s[..i + 1] == s[..i] + [s[i]];
  }

  lemma SubsetSize(a: set<string>, b: set<string>)
    requires a <= b
    ensures |b - a| == |b| - |a|
  {
    assert b == a + (b - a);
  }

  predicate IsLeast(keys: set<string>, m: string) {
    m in keys && forall k :: k in keys ==> k == m || Less(m, k)
  }

  lemma HasLeast(keys: set<string>)
    requires keys != {}
    ensures exists m :: IsLeast(keys, m)
  {
    var x :| x in keys;
    var rest := keys - {x};
    if rest == {} {
      forall k | k in keys ensures k == x {
        assert k == x || k in rest;
      }
      assert IsLeast(keys, x);
    } else {
      HasLeast(rest);
      var m :| IsLeast(rest, m);
      LessTrichotomy(x, m);
      if Less(x, m) {
        forall k | k in keys ensures k == x || Less(x, k) {
          if k != x && k != m {
            LessTransitive(x, m, k);
          }
        }
        assert IsLeast(keys, x);
      } else {
        assert IsLeast(keys, m);
      }
    }
  }

  function Least(keys: set<string>): (m: string)
    requires keys != {}
    ensures IsLeast(keys, m)
  {
    HasLeast(keys);
    assert forall m, n :: IsLeast(keys, m) && IsLeast(keys, n) ==> m == n by {
      forall m, n | IsLeast(keys, m) && IsLeast(keys, n)
        ensures m == n
      {
        LessTrichotomy(m, n);
      }
    }
    var m :| m in keys && IsLeast(keys, m);
    m
  }

  /** An ascending list is determined by its elements. */
  lemma {:induction false} SortedUnique(s: seq<string>, t: seq<string>)
    requires Sorted(s) && Sorted(t)
    requires forall k :: k in s <==> k in t
    ensures s == t
  {
    assert (s != [] ==> s[0] in s) && (t != [] ==> t[0] in t);
    if s != [] && t != [] {
      assert s[0] in t && t[0] in s;
      var i :| 0 <= i < |t| && t[i] == s[0];
      var j :| 0 <= j < |s| && s[j] == t[0];
      if i != 0 && j != 0 {
        LessTrichotomy(s[0], t[0]);
        assert false;
      }
      LessTrichotomy(s[0], s[0]);
      assert s[0] == t[0];
      forall k | true
        ensures k in s[1..] <==> k in t[1..]
      {
        if k in s[1..] {
          var a :| 1 <= a < |s| && s[a] == k;
          assert Less(s[0], k) && k in t;
          assert k != t[0];
        }
        if k in t[1..] {
          var a :| 1 <= a < |t| && t[a] == k;
          assert Less(t[0], k) && k in s;
          assert k != s[0];
        }
      }
      SortedUnique(s[1..], t[1..]);
      assert s == [s[0]] + s[1..] && t == [t[0]] + t[1..];
    }
  }

  function Arrange(keys: set<string>): (s: seq<string>)
    ensures forall k :: k in s <==> k in keys
    ensures |s| == |keys|
  {
    if keys == {} then [] else
      var m := Least(keys);
      [m] + Arrange(keys - {m})
  }

  lemma ArrangedElements(keys: set<string>)
    ensures var s := Arrange(keys); Elements(s) == keys && Elements(s[..|s|]) == keys && Elements(s[..0]) == {}
  {
    var s := Arrange(keys);
    assert s[..|s|] == s;
  }

  lemma {:induction false} ArrangeSorts(keys: set<string>)
    ensures Sorted(Arrange(keys))
  {
    if keys != {} {
      var m := Least(keys);
      var rest := Arrange(keys - {m});
      ArrangeSorts(keys - {m});
      assert Arrange(keys) == [m] + rest;
      forall j | 0 <= j < |rest|
        ensures Less(m, rest[j])
      {
        assert rest[j] in rest;
      }
    }
  }

  ghost predicate IsSortOf(s: seq<string>, keys: set<string>) {
    Sorted(s) && |s| == |keys| && forall k :: k in s <==> k in keys
  }

  /** `sorted(keys)`: every key once, ascending. */
  ghost function Sort(keys: set<string>): (s: seq<string>)
    ensures |s| == |keys| && forall k :: k in s <==> k in keys
  {
    ArrangeSorts(keys);
    assert IsSortOf(Arrange(keys), keys);
    var s :| IsSortOf(s, keys);
    s
  }

  lemma SortSorts(keys: set<string>)
    ensures IsSortOf(Sort(keys), keys)
    ensures var s := Sort(keys); forall i, j :: 0 <= i < j < |s| ==> Less(s[i], s[j])
  {
    ArrangeSorts(keys);
    assert IsSortOf(Arrange(keys), keys);
  }

  method SortKeys(keys: set<string>) returns (s: seq<string>)
    ensures s == Sort(keys)
  {
    s := Arrange(keys);
    ArrangeSorts(keys);
    SortSorts(keys);
    SortedUnique(s, Sort(keys));
  }

  /** Positions in a sorted key list are distinct keys. */
  lemma SortDistinct(keys: set<string>, i: nat)
    requires i < |keys|
    ensures var s := Sort(keys); forall j :: 0 <= j < |s| && j != i ==> s[j] != s[i]
  {
    SortSorts(keys);
    var s := Sort(keys);
    forall j | 0 <= j < |s| && j != i
      ensures s[j] != s[i]
    {
      LessTrichotomy(s[i], s[j]);
    }
  }

  /** `sorted(m.items())`. */
  ghost function SortedItems<T>(m: map<string, T>): (items: seq<(string, T)>)
    ensures |items| == |m.Keys|
  {
    var keys := Sort(m.Keys);
    seq(|keys|, i requires 0 <= i < |keys| => assert keys[i] in keys; (keys[i], m[keys[i]]))
  }

  lemma SortedItem<T>(m: map<string, T>, i: nat)
    requires i < |m.Keys|
    ensures var item := SortedItems(m)[i];
      item.0 == Sort(m.Keys)[i] && item.0 in m && item.1 == m[item.0]
  {
    assert Sort(m.Keys)[i] in Sort(m.Keys);
  }

  method ItemsSorted<T>(m: map<string, T>) returns (items: seq<(string, T)>)
    ensures items == SortedItems(m)
  {
    var keys := SortKeys(m.Keys);
    items := seq(|keys|, i requires 0 <= i < |keys| => assert keys[i] in keys; (keys[i], m[keys[i]]));
  }
}
