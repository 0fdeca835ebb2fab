/** Object identifiers: sequences of sub-identifiers under lexicographic order, in which a
    proper prefix is smaller than its extensions. */
module Oids {
  type Oid = seq<nat>

  predicate Less(a: Oid, b: Oid) {
    b != [] && (a == [] || a[0] < b[0] || (a[0] == b[0] && Less(a[1..], b[1..])))
  }

  predicate AtMost(a: Oid, b: Oid) {
    a == b || Less(a, b)
  }

  /** `k` is the least key above `oid`. */
  ghost predicate IsLeastAbove<T>(m: map<Oid, T>, oid: Oid, k: Oid) {
    k in m && Less(oid, k) && forall j :: j in m && Less(oid, j) ==> AtMost(k, j)
  }

  /** pyasn1's `isPrefixOf`: every OID is a prefix of itself. */
  predicate IsPrefixOf(a: Oid, b: Oid) {
    a <= b
  }

  lemma {:induction false} LessIrreflexive(a: Oid)
    ensures !Less(a, a)
  {
    if a != [] {
      LessIrreflexive(a[1..]);
    }
  }

  lemma {:induction false} LessTransitive(a: Oid, b: Oid, c: Oid)
    requires Less(a, b) && Less(b, c)
    ensures Less(a, c)
  {
    if a != [] && a[0] == b[0] == c[0] {
      LessTransitive(a[1..], b[1..], c[1..]);
    }
  }

  lemma {:induction false} LessTotal(a: Oid, b: Oid)
    ensures Less(a, b) || a == b || Less(b, a)
  {
    if a != [] && b != [] && a[0] == b[0] {
      LessTotal(a[1..], b[1..]);
      assert a == [a[0]] + a[1..] && b == [b[0]] + b[1..];
    }
  }

  lemma LessAsymmetric(a: Oid, b: Oid)
    requires Less(a, b)
    ensures a != b && !Less(b, a)
  {
    LessIrreflexive(a);
    if Less(b, a) {
      LessTransitive(a, b, a);
    }
  }

  lemma {:induction false} PrefixIsNotAbove(a: Oid, b: Oid)
    requires IsPrefixOf(a, b)
    ensures !Less(b, a)
  {
    if a != [] && b != [] {
      PrefixIsNotAbove(a[1..], b[1..]);
    }
  }

  lemma {:induction false} AboveExtends(a: Oid, b: Oid, longer: Oid)
    requires Less(a, b) && IsPrefixOf(b, longer)
    ensures Less(a, longer)
  {
    if a != [] && a[0] == b[0] {
      AboveExtends(a[1..], b[1..], longer[1..]);
    }
  }

  /** What extends a smaller OID is smaller too, unless that is a prefix. */
  lemma {:induction false} BelowExtends(a: Oid, b: Oid, longer: Oid)
    requires Less(a, b) && !IsPrefixOf(a, b) && IsPrefixOf(a, longer)
    ensures Less(longer, b)
  {
    if a != [] && a[0] == b[0] {
      assert a == [a[0]] + a[1..] && b == [b[0]] + b[1..];
      BelowExtends(a[1..], b[1..], longer[1..]);
    }
  }

  /** Among finitely many OIDs above another there is a least one. */
  lemma {:induction false} LeastExists<T>(m: map<Oid, T>, oid: Oid, j: Oid)
    requires j in m && Less(oid, j)
    ensures exists k :: IsLeastAbove(m, oid, k)
    decreases m
  {
    hide Less;
    var rest := m - {j};
    if i :| i in rest && Less(oid, i) {
      LeastExists(rest, oid, i);
      var k :| IsLeastAbove(rest, oid, k);
      LessTotal(j, k);
      if Less(j, k) {
        forall x | x in m && Less(oid, x)
          ensures AtMost(j, x)
        {
          if x != j && k != x {
            LessTransitive(j, k, x);
          }
        }
        assert IsLeastAbove(m, oid, j);
      } else {
        assert IsLeastAbove(m, oid, k);
      }
    } else {
      assert IsLeastAbove(m, oid, j);
    }
  }

  lemma LeastIsOne<T>(m: map<Oid, T>, oid: Oid, k: Oid, j: Oid)
    requires IsLeastAbove(m, oid, k) && IsLeastAbove(m, oid, j)
    ensures k == j
  {
    hide Less;
    if k != j {
      LessAsymmetric(k, j);
      assert false;
    }
  }
}
