/** Python's ordering of strings (`a < b`: code point by code point, a proper
    prefix first) and `sorted(names)` for a set of names. */
module StrOrder {

  predicate Less(a: string, b: string)
    decreases |a|
  {
    if a == [] then b != []
    else if b == [] then false
    else if a[0] != b[0] then a[0] < b[0]
    else Less(a[1..], b[1..])
  }

  lemma {:induction false} LessIrreflexive(a: string)
    ensures !Less(a, a)
    decreases |a|
  {
    if a != [] {
      LessIrreflexive(a[1..]);
    }
  }

  lemma {:induction false} LessTransitive(a: string, b: string, c: string)
    requires Less(a, b) && Less(b, c)
    ensures Less(a, c)
    decreases |a|
  {
    if a != [] && a[0] == b[0] && b[0] == c[0] {
      LessTransitive(a[1..], b[1..], c[1..]);
    }
  }

  lemma {:induction false} LessTotal(a: string, b: string)
    requires a != b
    ensures Less(a, b) || Less(b, a)
    decreases |a|
  {
    if a != [] && b != [] && a[0] == b[0] {
      LessTotal(a[1..], b[1..]);
    }
  }

  lemma LessAsymmetric(a: string, b: string)
    requires Less(a, b)
    ensures !Less(b, a)
  {
    if Less(b, a) {
      LessTransitive(a, b, a);
      LessIrreflexive(a);
    }
  }

  /** Strictly ascending: sorted and without repetitions. */
  predicate StrictlyAscending(xs: seq<string>) {
    forall i, j :: 0 <= i < j < |xs| ==> Less(xs[i], xs[j])
  }

  function Elems(xs: seq<string>): set<string> {
    set x | x in xs
  }

  /** A set of names is listed in ascending order in exactly one way. */
  lemma {:induction false} AscendingUnique(a: seq<string>, b: seq<string>)
    requires StrictlyAscending(a) && StrictlyAscending(b)
    requires Elems(a) == Elems(b)
    ensures a == b
    decreases |a|
  {
    if a == [] {
      assert forall i :: 0 <= i < |b| ==> b[i] in Elems(b);
    } else {
      assert a[0] in Elems(b);
      assert b != [];
      assert b[0] in Elems(a);
      if a[0] != b[0] {
        var i :| 0 <= i < |a| && a[i] == b[0];
        var j :| 0 <= j < |b| && b[j] == a[0];
        assert Less(a[0], b[0]);
        assert Less(b[0], a[0]);
        LessAsymmetric(a[0], b[0]);
      }
      forall i | 0 < i < |a| ensures a[i] != a[0] {
        LessIrreflexive(a[0]);
      }
      forall i | 0 < i < |b| ensures b[i] != b[0] {
        LessIrreflexive(b[0]);
      }
      assert Elems(a[1..]) == Elems(a) - {a[0]};
      assert Elems(b[1..]) == Elems(b) - {b[0]};
      AscendingUnique(a[1..], b[1..]);
      assert a == [a[0]] + a[1..] && b == [b[0]] + b[1..];
    }
  }

  /** `m` is a least name of `s`. */
  predicate IsLeast(m: string, s: set<string>) {
    m in s && forall y :: y in s ==> !Less(y, m)
  }

  /** The least name of a set is the smaller of one of its names and the
      least of the others. */
  lemma LeastOfTwo(x: string, m: string, s: set<string>)
    requires x in s && IsLeast(m, s - {x})
    ensures IsLeast(if Less(x, m) then x else m, s)
  {
    if Less(x, m) {
      forall y | y in s ensures !Less(y, x) {
        if y == x {
          LessIrreflexive(x);
        } else if Less(y, x) {
          assert y in s - {x};
          LessTransitive(y, x, m);
        }
      }
    } else {
      forall y | y in s ensures !Less(y, m) {
        if y != x {
          assert y in s - {x};
        }
      }
    }
  }

  /** Every non-empty set of names has a least element. */
  lemma {:induction false} LeastExists(s: set<string>)
    requires s != {}
    ensures exists m :: IsLeast(m, s)
    decreases |s|
  {
    var x :| x in s;
    if forall y :: y in s ==> y == x {
      LessIrreflexive(x);
      assert IsLeast(x, s);
    } else {
      var z :| z in s && z != x;
      assert z in s - {x};
      LeastExists(s - {x});
      var m :| IsLeast(m, s - {x});
      LeastOfTwo(x, m, s);
    }
  }

  /** Putting a set's least name in front of the ascending listing of the
      others lists the whole set in ascending order. */
  lemma PrependLeast(m: string, rest: seq<string>, s: set<string>)
    requires IsLeast(m, s)
    requires StrictlyAscending(rest) && Elems(rest) == s - {m}
    ensures StrictlyAscending([m] + rest) && Elems([m] + rest) == s
  {
    forall j | 0 <= j < |rest| ensures Less(m, rest[j]) {
      assert rest[j] in Elems(rest);
      LessTotal(m, rest[j]);
    }
    assert Elems([m] + rest) == {m} + Elems(rest);
  }

  /** `sorted(s)`: the ascending listing of a set of names. */
  ghost function SortedList(s: set<string>): (r: seq<string>)
    ensures StrictlyAscending(r) && Elems(r) == s
    decreases |s|
  {
    if s == {} then []
    else
      LeastExists(s);
      var m :| IsLeast(m, s);
      var rest := SortedList(s - {m});
      PrependLeast(m, rest, s);
      [m] + rest
  }

  /** Appending the least name still left to a listing of the names taken
      so far keeps that listing ascending and below the names left. */
  lemma AppendLeast(r: seq<string>, rest: set<string>, s: set<string>, m: string)
    requires rest <= s && StrictlyAscending(r) && Elems(r) == s - rest
    requires forall x, y :: x in r && y in rest ==> Less(x, y)
    requires IsLeast(m, rest)
    ensures rest - {m} <= s && StrictlyAscending(r + [m]) && Elems(r + [m]) == s - (rest - {m})
    ensures forall x, y :: x in r + [m] && y in rest - {m} ==> Less(x, y)
  {
    forall y | y in rest - {m} ensures Less(m, y) {
      LessTotal(m, y);
    }
    assert Elems(r + [m]) == Elems(r) + {m};
  }

  /** `sorted(s)` for a set of names, by repeatedly taking the least name
      still left. */
  method SortSet(s: set<string>) returns (r: seq<string>)
    ensures StrictlyAscending(r) && Elems(r) == s
    ensures r == SortedList(s)
  {
    r := [];
    var rest := s;
    while rest != {}
      invariant rest <= s
      invariant StrictlyAscending(r) && Elems(r) == s - rest
      invariant forall x, y :: x in r && y in rest ==> Less(x, y)
      decreases |rest|
    {
      LeastExists(rest);
      var m :| IsLeast(m, rest);
      AppendLeast(r, rest, s, m);
      r, rest := r + [m], rest - {m};
    }
    AscendingUnique(r, SortedList(s));
  }
}
