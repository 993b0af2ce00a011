/**
 * The order in which a snapshot lists map keys: the JSON encoder writes the
 * keys of a map sorted, which makes a backup a function of the store's
 * contents rather than of map iteration order. Strings compare character by
 * character, a proper prefix first.
 */
module KeyOrder {

  /** `a` sorts at or before `b`. */
  predicate Below(a: string, b: string) {
    if a == [] then true
    else if b == [] then false
    else a[0] < b[0] || (a[0] == b[0] && Below(a[1..], b[1..]))
  }

  lemma {:induction false} BelowReflexive(a: string)
    ensures Below(a, a)
  {
    if a != [] { BelowReflexive(a[1..]); }
  }

  lemma {:induction false} BelowTotal(a: string, b: string)
    ensures Below(a, b) || Below(b, a)
  {
    if a != [] && b != [] && a[0] == b[0] {
      BelowTotal(a[1..], b[1..]);
    }
  }

  lemma {:induction false} BelowAntisymmetric(a: string, b: string)
    requires Below(a, b) && Below(b, a)
    ensures a == b
  {
    if a != [] && b != [] {
      BelowAntisymmetric(a[1..], b[1..]);
      assert a == [a[0]] + a[1..] && b == [b[0]] + b[1..];
    }
  }

  lemma {:induction false} BelowTransitive(a: string, b: string, c: string)
    requires Below(a, b) && Below(b, c)
    ensures Below(a, c)
  {
    if a != [] && b != [] && c != [] && a[0] == b[0] == c[0] {
      BelowTransitive(a[1..], b[1..], c[1..]);
    }
  }

  /** `k` is the smallest element of `s`. */
  predicate IsLeast(k: string, s: set<string>) {
    k in s && forall j :: j in s ==> Below(k, j)
  }

  /** Every non-empty finite set of strings has a smallest element. */
  lemma {:induction false} LeastExists(s: set<string>)
    requires s != {}
    ensures exists k :: IsLeast(k, s)
    decreases |s|
  {
    var x :| x in s;
    if s != {x} {
      var rest := s - {x};
      LeastExists(rest);
      var y :| IsLeast(y, rest);
      BelowTotal(x, y);
      if Below(x, y) {
        forall j | j in s ensures Below(x, j) {
          if j == x { BelowReflexive(x); } else { BelowTransitive(x, y, j); }
        }
        assert IsLeast(x, s);
      } else {
        assert IsLeast(y, s);
      }
    } else {
      BelowReflexive(x);
      assert IsLeast(x, s);
    }
  }

  lemma LeastUnique(k: string, k': string, s: set<string>)
    requires IsLeast(k, s) && IsLeast(k', s)
    ensures k == k'
  {
    BelowAntisymmetric(k, k');
  }

  ghost function Least(s: set<string>): (k: string)
    requires s != {}
    ensures IsLeast(k, s)
  {
    LeastExists(s);
    var k :| IsLeast(k, s); k
  }

  /** The elements of `s` in ascending order. */
  ghost function SortedKeys(s: set<string>): (ks: seq<string>)
    ensures |ks| == |s|
    ensures forall i :: 0 <= i < |ks| ==> ks[i] in s
    decreases |s|
  {
    if s == {} then [] else var k := Least(s); [k] + SortedKeys(s - {k})
  }

  /** SortedKeys lists exactly the elements of `s`. */
  lemma {:induction false} SortedKeysMembers(s: set<string>)
    ensures forall k :: k in SortedKeys(s) <==> k in s
    decreases |s|
  {
    if s != {} {
      var k := Least(s);
      SortedKeysMembers(s - {k});
      assert SortedKeys(s) == [k] + SortedKeys(s - {k});
    }
  }

  /** SortedKeys lists no element twice and lists them in ascending order. */
  lemma {:induction false} SortedKeysAscending(s: set<string>)
    ensures forall i, j :: 0 <= i < j < |SortedKeys(s)| ==>
      SortedKeys(s)[i] != SortedKeys(s)[j] && Below(SortedKeys(s)[i], SortedKeys(s)[j])
    decreases |s|
  {
    if s != {} {
      var k := Least(s);
      var tail := SortedKeys(s - {k});
      SortedKeysAscending(s - {k});
      SortedKeysMembers(s - {k});
      var ks := SortedKeys(s);
      assert ks == [k] + tail;
      forall i, j | 0 <= i < j < |ks| ensures ks[i] != ks[j] && Below(ks[i], ks[j]) {
        if i == 0 {
          assert ks[j] == tail[j - 1] && tail[j - 1] in tail;
        } else {
          assert ks[i] == tail[i - 1] && ks[j] == tail[j - 1];
        }
      }
    }
  }

  /** Lists the elements of `s` in ascending order by repeatedly taking the least. */
  method SortKeys(s: set<string>) returns (ks: seq<string>)
    ensures ks == SortedKeys(s)
  {
    ks := [];
    var rest := s;
    while rest != {}
      invariant ks + SortedKeys(rest) == SortedKeys(s)
      decreases |rest|
    {
      LeastExists(rest);
      var k :| IsLeast(k, rest);
      SortedKeysStep(rest, k, ks);
      ks := ks + [k];
      rest := rest - {k};
    }
  }

  /** Taking the least element off `rest` moves it from the unsorted part to the sorted prefix. */
  lemma SortedKeysStep(rest: set<string>, k: string, ks: seq<string>)
    requires IsLeast(k, rest)
    ensures ks + SortedKeys(rest) == (ks + [k]) + SortedKeys(rest - {k})
  {
    LeastUnique(k, Least(rest), rest);
    assert SortedKeys(rest) == [k] + SortedKeys(rest - {k});
  }
}
