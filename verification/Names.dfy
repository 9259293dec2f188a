/**
 Interface names of index-mode endpoints are a configured prefix followed by a numeral. This module decides
 when two prefixes can ever produce the same name.
 */
module Names {
  import opened Decimal

  /** `q` is `p` followed by a non-empty run of digits that does not begin with zero. */
  predicate Extends(p: string, q: string) {
    |p| < |q| && q[..|p|] == p && AllDigits(q[|p|..]) && q[|p|] != '0'
  }

  /** Two prefixes a configuration must not combine. */
  predicate Collide(p: string, q: string) {
    p == q || Extends(p, q) || Extends(q, p)
  }

  /** A name shared by two prefixes, the second at least as long as the first, forces `Extends`. */
  lemma SharedNameExtends(p: string, i: nat, q: string, j: nat)
    requires p + Itoa(i) == q + Itoa(j)
    requires |p| <= |q|
    ensures p == q || Extends(p, q)
  {
    var name := p + Itoa(i);
    assert q == name[..|q|] && p == name[..|p|];
    var d := q[|p|..];
    assert q == p + d;
    assert d + Itoa(j) == name[|p|..] == Itoa(i);
    if d != "" {
      ItoaCanonical(i);
      assert forall k :: 0 <= k < |d| ==> d[k] == Itoa(i)[k];
      assert d[0] == Itoa(i)[0] && |Itoa(i)| > 1;
    } else {
      assert p == q;
    }
  }

  /** An extended prefix meets the shorter one at every index of the longer one. */
  lemma ExtendsMeets(p: string, q: string, j: nat) returns (i: nat)
    requires Extends(p, q)
    ensures p + Itoa(i) == q + Itoa(j)
  {
    var d := q[|p|..];
    var s := d + Itoa(j);
    assert s[0] == d[0] == q[|p|];
    i := Atoi(s);
    ItoaAtoi(s);
    assert q == p + d;
  }

  /** The collision law: some indices give a common name exactly when the prefixes collide. */
  lemma CollisionLaw(p: string, q: string)
    ensures (exists i: nat, j: nat :: p + Itoa(i) == q + Itoa(j)) <==> Collide(p, q)
  {
    if i: nat, j: nat :| p + Itoa(i) == q + Itoa(j) {
      if |p| <= |q| {
        SharedNameExtends(p, i, q, j);
      } else {
        SharedNameExtends(q, j, p, i);
      }
    }
    if p == q {
      assert p + Itoa(0) == q + Itoa(0);
    } else if Extends(p, q) {
      var i := ExtendsMeets(p, q, 0);
    } else if Extends(q, p) {
      var j := ExtendsMeets(q, p, 0);
      assert p + Itoa(0) == q + Itoa(j);
    }
  }

  /** Within one prefix a name determines its index. */
  lemma IndexFromName(p: string, i: nat, j: nat)
    ensures p + Itoa(i) == p + Itoa(j) <==> i == j
  {
    assert Itoa(i) == (p + Itoa(i))[|p|..];
    assert Itoa(j) == (p + Itoa(j))[|p|..];
    if Itoa(i) == Itoa(j) {
      ItoaInjective(i, j);
    }
  }
}
