// The order in which a BTreeMap with string keys is iterated.

module SortedKeys {
  import opened Basics

  /** Lexicographic order. */
  predicate Leq(a: string, b: string) {
    a == "" || (b != "" && (a[0] < b[0] || (a[0] == b[0] && Leq(a[1..], b[1..]))))
  }

  lemma {:induction false} Total(a: string, b: string)
    ensures Leq(a, b) || Leq(b, a)
  {
    if a != "" && b != "" && a[0] == b[0] {
      Total(a[1..], b[1..]);
    }
  }

  lemma {:induction false} Antisymmetric(a: string, b: string)
    requires Leq(a, b) && Leq(b, a)
    ensures a == b
  {
    if a != "" {
      Antisymmetric(a[1..], b[1..]);
      assert a == [a[0]] + a[1..] && b == [b[0]] + b[1..];
    }
  }

  lemma {:induction false} Transitive(a: string, b: string, c: string)
    requires Leq(a, b) && Leq(b, c)
    ensures Leq(a, c)
  {
    if a != "" && a[0] == b[0] && b[0] == c[0] {
      Transitive(a[1..], b[1..], c[1..]);
    }
  }

  ghost predicate IsLeast(s: set<string>, m: string) {
    m in s && forall k :: k in s ==> Leq(m, k)
  }

  lemma {:induction false} LeastExists(s: set<string>)
    requires s != {}
    ensures exists m :: IsLeast(s, m)
  {
    hide Leq;
    var k :| k in s;
    var rest := s - {k};
    Total(k, k);
    if rest == {} {
      assert s == {k};
      assert IsLeast(s, k);
    } else {
      LeastExists(rest);
      var m :| IsLeast(rest, m);
      Total(k, m);
      if Leq(k, m) {
        forall x | x in s ensures Leq(k, x) {
          if x != k {
            Transitive(k, m, x);
          }
        }
        assert IsLeast(s, k);
      } else {
        assert IsLeast(s, m);
      }
    }
  }

  lemma LeastIsUnique(s: set<string>, m: string, n: string)
    requires IsLeast(s, m) && IsLeast(s, n)
    ensures m == n
  {
    Antisymmetric(m, n);
  }

  ghost function Least(s: set<string>): (m: string)
    requires s != {}
    ensures IsLeast(s, m)
  {
    LeastExists(s);
    var m :| IsLeast(s, m);
    m
  }

  /** The elements of `s` in increasing order. */
  ghost function Sorted(s: set<string>): (keys: seq<string>)
    ensures forall k :: k in keys <==> k in s
    ensures forall i, j :: 0 <= i < j < |keys| ==> keys[i] != keys[j]
    decreases |s|
  {
    if s == {} then []
    else
      var m := Least(s);
      assert s == {m} + (s - {m});
      var rest := Sorted(s - {m});
      assert forall k :: k in [m] + rest <==> k == m || k in rest;
      [m] + rest
  }

  lemma {:induction false} SortedIsSorted(s: set<string>)
    ensures forall i, j :: 0 <= i < j < |Sorted(s)| ==> Leq(Sorted(s)[i], Sorted(s)[j]) && Sorted(s)[i] != Sorted(s)[j]
    ensures forall k :: k in Sorted(s) <==> k in s
    decreases |s|
  {
    hide Leq;
    if s != {} {
      var rest := Sorted(s - {Least(s)});
      SortedIsSorted(s - {Least(s)});
      forall j | 0 <= j < |rest| ensures Leq(Least(s), rest[j]) {
        assert rest[j] in rest;
      }
    }
  }

  /** Removes keys in increasing order, as iterating a BTreeMap does. */
  method Keys(s: set<string>) returns (keys: seq<string>)
    ensures keys == Sorted(s)
  {
    hide Leq, Sorted;
    keys := [];
    var rest := s;
    Append(keys, Sorted(s));
    while rest != {}
      invariant keys + Sorted(rest) == Sorted(s)
      decreases |rest|
    {
      LeastExists(rest);
      var m :| m in rest && forall k :: k in rest ==> Leq(m, k);
      LeastIsUnique(rest, m, Least(rest));
      SortedStep(keys, rest);
      keys := keys + [m];
      rest := rest - {m};
    }
    Append(keys, Sorted({}));
    SortedEnd();
  }

  lemma SortedStep(keys: seq<string>, s: set<string>)
    requires s != {}
    ensures keys + Sorted(s) == keys + [Least(s)] + Sorted(s - {Least(s)})
  {
    Associate(keys, [Least(s)], Sorted(s - {Least(s)}));
  }

  lemma SortedEnd()
    ensures Sorted({}) == []
  {
  }
}
