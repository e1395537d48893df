/** Small shared vocabulary: optional values and the order Python and SQL use on strings. */
module Prelude {

  /** A value that may be missing: Python's None, SQL's NULL, an absent dictionary key. */
  datatype Option<+T> = None | Some(value: T) {
    function GetOr(default: T): T {
      match this
      case Some(v) => v
      case None => default
    }
  }
}

/** The code-point order on strings used by Python's `sorted` and by SQL's binary collation. */
module StringOrder {

  predicate Less(a: string, b: string) {
    if b == "" then false
    else if a == "" then true
    else if a[0] != b[0] then a[0] < b[0]
    else Less(a[1..], b[1..])
  }

  lemma {:induction false} LessIsIrreflexive(a: string)
    ensures !Less(a, a)
  {
    if a != "" { LessIsIrreflexive(a[1..]); }
  }

  lemma {:induction false} LessIsTransitive(a: string, b: string, c: string)
    requires Less(a, b) && Less(b, c)
    ensures Less(a, c)
  {
    if a != "" && a[0] == b[0] == c[0] { LessIsTransitive(a[1..], b[1..], c[1..]); }
  }

  lemma {:induction false} LessIsTotal(a: string, b: string)
    ensures a == b || Less(a, b) || Less(b, a)
  {
    if a != "" && b != "" && a[0] == b[0] {
      LessIsTotal(a[1..], b[1..]);
      assert a == [a[0]] + a[1..] && b == [b[0]] + b[1..];
    }
  }

  lemma LessIsAsymmetric(a: string, b: string)
    requires Less(a, b)
    ensures !Less(b, a)
  {
  }

  /** Every finite, nonempty set of strings has a greatest member. */
  lemma GreatestExists(s: set<string>) returns (m: string)
    requires s != {}
    ensures m in s && forall x :: x in s ==> x == m || Less(x, m)
  {
    m :| m in s;
    var rest := s - {m};
    if rest != {} {
      var g := GreatestExists(rest);
      LessIsTotal(m, g);
      if Less(m, g) {
        m := g;
      } else {
        forall x | x in s ensures x == m || Less(x, m) {
          if x in rest && x != g { LessIsTransitive(x, g, m); }
        }
      }
    }
  }
}
