/** The order of std::string, by which std::map and the sorting printer visit their keys: total,
    transitive and irreflexive, so that a finite set of keys has a least one, and indifferent to a
    common front. */
module KeyOrder {

  /** std::string's operator<. */
  predicate KeyLess(a: string, b: string) {
    b != "" && (a == "" || a[0] < b[0] || (a[0] == b[0] && KeyLess(a[1..], b[1..])))
  }

  /** The strings agree up to i, where the first one ends or has the smaller character. */
  predicate LessAt(a: string, b: string, i: nat) {
    i <= |a| && i < |b| && a[..i] == b[..i] && (i == |a| || a[i] < b[i])
  }

  /** The first difference decides; a string is below its proper extensions. */
  lemma {:induction false} FirstDifferenceDecides(a: string, b: string)
    ensures KeyLess(a, b) <==> exists i :: LessAt(a, b, i)
  {
    if KeyLess(a, b) { var i := FirstDifference(a, b); }
    if i :| LessAt(a, b, i) { DifferenceIsLess(a, b, i); }
  }

  lemma {:induction false} FirstDifference(a: string, b: string) returns (i: nat)
    requires KeyLess(a, b)
    ensures LessAt(a, b, i)
  {
    if a == "" || a[0] < b[0] {
      i := 0;
    } else {
      var k := FirstDifference(a[1..], b[1..]);
      i := k + 1;
      assert a[..i] == [a[0]] + a[1..][..k] && b[..i] == [b[0]] + b[1..][..k];
    }
  }

  lemma {:induction false} DifferenceIsLess(a: string, b: string, i: nat)
    requires LessAt(a, b, i)
    ensures KeyLess(a, b)
  {
    if i > 0 {
      assert a[0] == a[..i][0] && b[0] == b[..i][0];
      assert a[1..][..i - 1] == a[..i][1..] && b[1..][..i - 1] == b[..i][1..];
      DifferenceIsLess(a[1..], b[1..], i - 1);
    }
  }

  lemma {:induction false} KeyLessTotal(a: string, b: string)
    ensures KeyLess(a, b) || KeyLess(b, a) || a == b
  {
    if a != "" && b != "" && a[0] == b[0] {
      KeyLessTotal(a[1..], b[1..]);
      assert a == [a[0]] + a[1..] && b == [b[0]] + b[1..];
    }
  }

  lemma {:induction false} KeyLessTransitive(a: string, b: string, c: string)
    requires KeyLess(a, b) && KeyLess(b, c)
    ensures KeyLess(a, c)
  {
    if a != "" && a[0] == b[0] == c[0] { KeyLessTransitive(a[1..], b[1..], c[1..]); }
  }

  lemma {:induction false} KeyLessIrreflexive(a: string)
    ensures !KeyLess(a, a)
  {
    if a != "" { KeyLessIrreflexive(a[1..]); }
  }

  /** A finite set of keys has a least one. */
  lemma {:induction false} LeastKey(keys: set<string>) returns (k: string)
    requires keys != {}
    ensures k in keys && forall j | j in keys && j != k :: KeyLess(k, j)
  {
    k :| k in keys;
    if keys != {k} {
      var rest := keys - {k};
      var l := LeastKey(rest);
      KeyLessTotal(k, l);
      if KeyLess(k, l) {
        forall j | j in keys && j != k ensures KeyLess(k, j) {
          if j != l { KeyLessTransitive(k, l, j); }
        }
      } else {
        k := l;
      }
    }
  }

  /** A common front does not matter. */
  lemma {:induction false} KeyLessFront(front: string, a: string, b: string)
    ensures KeyLess(front + a, front + b) <==> KeyLess(a, b)
  {
    if front == "" {
      assert front + a == a && front + b == b;
    } else {
      assert (front + a)[1..] == front[1..] + a && (front + b)[1..] == front[1..] + b;
      KeyLessFront(front[1..], a, b);
    }
  }
}
