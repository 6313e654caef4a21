/** The little number theory that addressing rests on, and the least element of a set of keys. */
module Arithmetic {

  lemma {:induction false} MulMonotone(a: nat, c: nat, b: nat)
    requires a <= c
    ensures a * b <= c * b
    ensures a < c ==> a * b + b <= c * b
  {
    assert c * b == a * b + (c - a) * b;
    if a < c {
      assert (c - a) * b == b + (c - a - 1) * b;
    }
  }

  /** Quotient and remainder are unique. */
  lemma {:induction false} QuotientUnique(b: nat, q: nat, m: nat, k: nat, r: nat)
    requires m < b && r < b && q * b + m == k * b + r
    ensures q == k && m == r
  {
    if q < k {
      MulMonotone(q, k, b);
    } else if k < q {
      MulMonotone(k, q, b);
    }
  }

  lemma {:induction false} DivMod(k: nat, b: nat, r: nat)
    requires r < b
    ensures (k * b + r) % b == r && (k * b + r) / b == k
  {
    var x := k * b + r;
    assert x == b * (x / b) + x % b;
    assert (x / b) * b + x % b == k * b + r;
    QuotientUnique(b, x / b, x % b, k, r);
  }

  predicate IsLeast(s: set<nat>, k: nat) {
    k in s && forall x :: x in s ==> k <= x
  }

  lemma {:induction false} Least(s: set<nat>) returns (k: nat)
    requires s != {}
    ensures IsLeast(s, k)
  {
    var y :| y in s;
    var rest := s - {y};
    if rest == {} {
      k := y;
      assert s == {y};
    } else {
      var l := Least(rest);
      k := if y < l then y else l;
      assert forall x :: x in s ==> x == y || x in rest;
    }
  }

  lemma {:induction false} LeastExists(s: set<nat>)
    requires s != {}
    ensures exists k :: k in s && IsLeast(s, k)
  {
    var k := Least(s);
  }
}
