// Division facts for a variable divisor.
module Arithmetic {

  lemma RemainderOf(i: nat, q: nat, d: nat, b: nat)
    requires i == q * b + d && d < b
    ensures i % b == d
  {
    QuotientRemainder(i, b);
    QuotientUnique(q, d, i / b, i % b, b);
  }

  lemma QuotientRemainder(i: nat, b: nat)
    requires b > 0
    ensures i == (i / b) * b + i % b && i % b < b
  {
  }

  lemma QuotientUnique(q: nat, d: nat, q': nat, d': nat, b: nat)
    requires q * b + d == q' * b + d' && d < b && d' < b
    ensures q == q' && d == d'
  {
    if q != q' {
      var lo, hi := if q < q' then q else q', if q < q' then q' else q;
      Multiples(lo, hi, b);
    }
  }

  lemma Multiples(lo: nat, hi: nat, b: nat)
    requires lo < hi
    ensures lo * b + b <= hi * b
  {
    var e := hi - lo - 1;
    assert hi * b == (lo + 1 + e) * b == lo * b + b + e * b;
  }
}
