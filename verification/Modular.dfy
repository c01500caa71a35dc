/** Remainders by a fixed word size and by a power of two. */
module Modular {

  /** The number of values of a 64-bit `size_t`. */
  const WORD: nat := 0x1_0000_0000_0000_0000

  /** Unsigned subtraction and increment, with wrap-around. */
  function Sub(a: nat, b: nat): (r: nat)
    ensures r < WORD
  {
    (a - b) % WORD
  }

  function Inc(a: nat): (r: nat)
    ensures r < WORD
  {
    (a + 1) % WORD
  }

  const INT: nat := 0x1_0000_0000

  predicate IsInt(x: int) {
    -0x8000_0000 <= x <= 0x7FFF_FFFF
  }

  /** Two's complement in 32 bits. */
  function Wrap(x: int): (w: int)
    ensures IsInt(w) && (IsInt(x) ==> w == x)
  {
    (x + 0x8000_0000) % INT - 0x8000_0000
  }

  predicate IsPow2(n: nat) {
    n == 1 || (n > 0 && n % 2 == 0 && IsPow2(n / 2))
  }

  /** Wrapped counters subtract like the counters themselves while they are close. */
  lemma SubOfCounters(n: nat, m: nat)
    requires 0 <= n - m < WORD
    ensures Sub(n % WORD, m % WORD) == n - m
  {
    var a, b := n % WORD, m % WORD;
    assert n == WORD * (n / WORD) + a && m == WORD * (m / WORD) + b;
  }

  lemma SubIsZero(a: nat, b: nat)
    requires a < WORD && b < WORD
    ensures Sub(a, b) == 0 <==> a == b
  {
  }

  lemma IncOfCounter(n: nat)
    ensures Inc(n % WORD) == (n + 1) % WORD
  {
  }

  lemma ProductAtLeast(d: int, c: int)
    requires d >= 1 && c >= 0
    ensures d * c >= c
  {
    assert d * c - c == (d - 1) * c;
  }

  /** A quotient and remainder in range are the quotient and remainder. */
  lemma ModUnique(n: int, c: nat, q: int, r: nat)
    requires c > 0 && r < c && n == q * c + r
    ensures n % c == r && n / c == q
  {
    var q', r' := n / c, n % c;
    assert n == c * q' + r';
    var d := q - q';
    assert d * c == q * c - q' * c;
    if d >= 1 {
      ProductAtLeast(d, c);
    } else if d <= -1 {
      ProductAtLeast(-d, c);
    }
  }

  /** Of two powers of two the smaller divides the larger. */
  lemma {:induction false} Pow2Divides(c: nat, w: nat)
    requires IsPow2(c) && IsPow2(w) && c <= w
    ensures w % c == 0
  {
    if c == 1 {
    } else {
      Pow2Divides(c / 2, w / 2);
      var q := (w / 2) / (c / 2);
      assert w / 2 == q * (c / 2);
      assert w == q * c by { assert w == 2 * (w / 2) && c == 2 * (c / 2); }
      ModUnique(w, c, q, 0);
    }
  }

  lemma WordIsPow2()
    ensures IsPow2(WORD)
  {
    assert IsPow2(2);
    Pow2Product(4, 4);
    Pow2Product(0x10, 0x10);
    Pow2Product(0x100, 0x100);
    Pow2Product(0x1_0000, 0x1_0000);
    Pow2Product(0x1_0000_0000, 0x1_0000_0000);
  }

  lemma {:induction false} Pow2Product(a: nat, b: nat)
    requires IsPow2(a) && IsPow2(b)
    ensures IsPow2(a * b)
  {
    if a == 1 {
    } else {
      Pow2Product(a / 2, b);
      var p := (a / 2) * b;
      assert a * b == 2 * p by { assert a == 2 * (a / 2); }
      assert (2 * p) / 2 == p;
    }
  }

  /** The slot of a wrapped counter is the slot of the counter: the capacity divides the word. */
  lemma SlotOfCounter(n: nat, cap: nat)
    requires IsPow2(cap) && cap <= WORD
    ensures (n % WORD) % cap == n % cap
  {
    WordIsPow2();
    Pow2Divides(cap, WORD);
    SlotOfRemainder(n, WORD, cap);
  }

  lemma SlotOfRemainder(n: nat, w: nat, cap: nat)
    requires cap > 0 && w > 0 && w % cap == 0
    ensures (n % w) % cap == n % cap
  {
    var k, q, r := w / cap, n / w, n % w;
    var s, t := r / cap, r % cap;
    assert w == k * cap && n == q * w + r && r == s * cap + t;
    assert q * (k * cap) == (q * k) * cap;
    assert n == (q * k + s) * cap + t;
    ModUnique(n, cap, q * k + s, t);
  }

  /** Counters less than a capacity apart have different slots. */
  lemma SlotsDiffer(n: nat, m: nat, cap: nat)
    requires 0 < n - m < cap
    ensures n % cap != m % cap
  {
    var q, r, d := m / cap, m % cap, n - m;
    assert m == cap * q + r;
    if r + d < cap {
      ModUnique(n, cap, q, r + d);
    } else {
      assert (q + 1) * cap == q * cap + cap;
      ModUnique(n, cap, q + 1, r + d - cap);
    }
  }
}
