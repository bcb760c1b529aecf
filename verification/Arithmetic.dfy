/** Facts about multiplication, division and concatenation that several modules need. */
module Arithmetic {

  lemma {:induction false} MulGap(x: nat, y: nat, b: nat)
    ensures x < y ==> x * b + b <= y * b
    decreases y
  {
    if x < y {
      assert (y - 1) * b + b == y * b;
      MulGap(x, y - 1, b);
    }
  }

  lemma MulGrows(x: nat, y: nat, b: nat)
    requires x <= y
    ensures x * b <= y * b
  {
    MulGap(x, y, b);
  }

  lemma DivUnique(a: nat, b: nat, q: nat, r: nat)
    requires b > 0 && r < b && a == q * b + r
    ensures a / b == q && a % b == r
  {
    var q', r' := a / b, a % b;
    assert a == q' * b + r';
    MulGap(q, q', b);
    MulGap(q', q, b);
  }

  lemma DivLeast(x: nat, b: nat, q: nat)
    requires b > 0 && x >= q * b
    ensures x / b >= q
  {
    assert x == x / b * b + x % b;
    MulGap(x / b, q, b);
  }

  lemma DivGrows(a: nat, b: nat, d: nat)
    requires a <= b && d > 0
    ensures a / d <= b / d
  {
    assert a == a / d * d + a % d;
    DivLeast(b, d, a / d);
  }

  lemma DivIs(x: nat, b: nat, k: nat)
    requires b > 0
    ensures x / b == k <==> k * b <= x < k * b + b
  {
    assert x == x / b * b + x % b;
    if k * b <= x < k * b + b {
      DivUnique(x, b, k, x - k * b);
    }
  }

  lemma SmallMod(x: nat, b: nat)
    requires x < b
    ensures x % b == x
  {
  }

  lemma Associate<T>(a: seq<T>, b: seq<T>, c: seq<T>)
    ensures (a + b) + c == a + (b + c)
  {
  }
}
