/**
  The order the sort engine uses on records and on the lines of run files.

  Records are modelled as their own text, so both the count map (which orders
  records) and the k-way merge (which orders serialised lines) use the same
  relation: the lexicographic order of `std::string`, comparing characters by
  code and treating a proper prefix as smaller.
 */
module LexOrder {

  /** Strict lexicographic order on strings. */
  predicate Less(a: string, b: string)
  {
    if |b| == 0 then false
    else if |a| == 0 then true
    else if a[0] != b[0] then a[0] < b[0]
    else Less(a[1..], b[1..])
  }

  /** Non-strict order: `a` does not come after `b`. */
  predicate Le(a: string, b: string)
  {
    !Less(b, a)
  }

  /** The equivalence `std::map` uses to decide that two keys are the same entry. */
  predicate Equivalent(a: string, b: string)
  {
    !Less(a, b) && !Less(b, a)
  }

  /** Non-decreasing order of a sequence of lines. */
  predicate Sorted(s: seq<string>)
  {
    forall i, j :: 0 <= i < j < |s| ==> Le(s[i], s[j])
  }

  lemma {:induction false} LessIrreflexive(a: string)
    ensures !Less(a, a)
  {
    if |a| > 0 {
      LessIrreflexive(a[1..]);
    }
  }

  lemma {:induction false} LessTransitive(a: string, b: string, c: string)
    requires Less(a, b) && Less(b, c)
    ensures Less(a, c)
  {
    if |a| > 0 && a[0] == b[0] && b[0] == c[0] {
      LessTransitive(a[1..], b[1..], c[1..]);
    }
  }

  lemma {:induction false} LessTotal(a: string, b: string)
    ensures a == b || Less(a, b) || Less(b, a)
  {
    if |a| > 0 && |b| > 0 && a[0] == b[0] {
      LessTotal(a[1..], b[1..]);
      if a[1..] == b[1..] {
        assert a == [a[0]] + a[1..];
        assert b == [b[0]] + b[1..];
      }
    }
  }

  lemma LessAsymmetric(a: string, b: string)
    requires Less(a, b)
    ensures !Less(b, a)
  {
    if Less(b, a) {
      LessTransitive(a, b, a);
      LessIrreflexive(a);
    }
  }

  /** Under a strict total order, `std::map` equivalence is plain equality. */
  lemma EquivalentIsEqual(a: string, b: string)
    ensures Equivalent(a, b) <==> a == b
  {
    LessTotal(a, b);
    LessIrreflexive(a);
  }

  lemma LeReflexive(a: string)
    ensures Le(a, a)
  {
    LessIrreflexive(a);
  }

  lemma LeTransitive(a: string, b: string, c: string)
    requires Le(a, b) && Le(b, c)
    ensures Le(a, c)
  {
    if Less(c, a) {
      LessTotal(a, b);
      if a == b {
      } else if Less(a, b) {
        LessTransitive(c, a, b);
      }
    }
  }

  lemma LessImpliesLe(a: string, b: string)
    requires Less(a, b)
    ensures Le(a, b)
  {
    LessAsymmetric(a, b);
  }

  /** Sorted sequences with the same elements are the same sequence. */
  lemma {:induction false} SortedUnique(a: seq<string>, b: seq<string>)
    requires Sorted(a) && Sorted(b)
    requires multiset(a) == multiset(b)
    ensures a == b
    decreases |a|
  {
    if |a| > 0 {
      SameLeast(a, b);
      SortedTail(a);
      SortedTail(b);
      assert a == [a[0]] + a[1..];
      assert b == [b[0]] + b[1..];
      assert multiset(a[1..]) == multiset(a) - multiset{a[0]};
      assert multiset(b[1..]) == multiset(b) - multiset{b[0]};
      SortedUnique(a[1..], b[1..]);
    } else {
      assert |b| == |multiset(b)| == 0;
    }
  }

  /** Sorted sequences with the same elements start with the same one. */
  lemma SameLeast(a: seq<string>, b: seq<string>)
    requires Sorted(a) && Sorted(b)
    requires multiset(a) == multiset(b) && |a| > 0
    ensures |b| > 0 && a[0] == b[0]
  {
    assert a[0] in multiset(b);
    assert |b| > 0;
    assert b[0] in multiset(a);
    var i :| 0 <= i < |b| && b[i] == a[0];
    var j :| 0 <= j < |a| && a[j] == b[0];
    assert Le(b[0], a[0]) by {
      if i == 0 {
        LeReflexive(a[0]);
      }
    }
    assert Le(a[0], b[0]) by {
      if j == 0 {
        LeReflexive(b[0]);
      }
    }
    LessTotal(a[0], b[0]);
  }

  /** Dropping the first line keeps a sorted sequence sorted. */
  lemma SortedTail(s: seq<string>)
    requires Sorted(s) && |s| > 0
    ensures Sorted(s[1..])
  {
    forall x, y | 0 <= x < y < |s| - 1 ensures Le(s[1..][x], s[1..][y]) {
      assert s[1..][x] == s[x + 1] && s[1..][y] == s[y + 1];
    }
  }
}
