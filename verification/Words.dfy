/**
  Bytes, little-endian words and machine-word arithmetic.
 */
module Words {

  type byte = x: int | 0 <= x < 256

  const TWO32 := 0x1_0000_0000
  const TWO64 := 0x1_0000_0000_0000_0000

  type u64 = x: int | 0 <= x < TWO64

  function Pow256(k: nat): (p: nat)
    ensures p >= 1
  {
    if k == 0 then 1 else 256 * Pow256(k - 1)
  }

  /** The byte `i` places up from the lowest. */
  function ByteAt(n: nat, i: nat): byte
    decreases n, i
  {
    if i == 0 then n % 256 else ByteAt(n / 256, i - 1)
  }

  /** The low `k` bytes of `n`, least significant first. */
  function Le(n: nat, k: nat): (b: seq<byte>)
    ensures |b| == k
  {
    seq(k, i requires 0 <= i < k => ByteAt(n, i))
  }

  lemma LeStep(n: nat, k: nat)
    requires k > 0
    ensures Le(n, k) == [n % 256] + Le(n / 256, k - 1)
  {
  }

  function FromLe(b: seq<byte>): nat {
    if b == [] then 0 else b[0] + 256 * FromLe(b[1..])
  }

  lemma {:induction false} FromLeOfLe(n: nat, k: nat)
    requires n < Pow256(k)
    ensures FromLe(Le(n, k)) == n
    decreases k
  {
    if k > 0 {
      LeStep(n, k);
      hide Le;
      FromLeOfLe(n / 256, k - 1);
      assert Le(n, k)[1..] == Le(n / 256, k - 1);
    }
  }

  lemma {:induction false} LeOfFromLe(b: seq<byte>)
    ensures FromLe(b) < Pow256(|b|) && Le(FromLe(b), |b|) == b
  {
    if b != [] {
      LeOfFromLe(b[1..]);
      var n, m := FromLe(b), FromLe(b[1..]);
      assert n % 256 == b[0] && n / 256 == m;
      LeStep(n, |b|);
    }
  }

  lemma Pow256Values()
    ensures Pow256(1) == 0x100 && Pow256(2) == 0x1_0000 && Pow256(4) == TWO32 && Pow256(8) == TWO64
  {
    assert Pow256(3) == 0x100_0000;
    assert Pow256(4) == 256 * Pow256(3);
    assert Pow256(5) == 256 * Pow256(4);
    assert Pow256(6) == 256 * Pow256(5);
    assert Pow256(7) == 256 * Pow256(6);
    assert Pow256(8) == 256 * Pow256(7);
  }

  /** The four bytes of a word, as shifts. */
  lemma LeOfWord(n: nat)
    ensures Le(n, 4) == [n % 256, n / 0x100 % 256, n / 0x1_0000 % 256, n / 0x100_0000 % 256]
  {
    var n1, n2, n3 := n / 256, n / 256 / 256, n / 256 / 256 / 256;
    assert n2 == n / 0x1_0000 && n3 == n / 0x100_0000;
    LeStep(n3, 1);
    LeStep(n2, 2);
    LeStep(n1, 3);
    LeStep(n, 4);
  }

  lemma MulThree(a: nat, b: nat, c: nat)
    ensures (a * b) * c == a * (b * c)
  {
  }

  /** One byte off a word made of a low and a high part. */
  lemma ByteOff(a: nat, m: nat, k: nat)
    requires k > 0
    ensures Le(a + 256 * m, k) == [a % 256] + Le(a / 256 + m, k - 1)
  {
    LeStep(a + 256 * m, k);
    DivMod(a + 256 * m, 256, a / 256 + m, a % 256);
  }

  /** The bytes of a word made of a low and a high part. */
  lemma {:induction false} LeConcat(a: nat, b: nat, j: nat, k: nat)
    requires a < Pow256(j)
    ensures Le(a + Pow256(j) * b, j + k) == Le(a, j) + Le(b, k)
    decreases j
  {
    if j > 0 {
      var p := Pow256(j - 1);
      MulThree(256, p, b);
      ByteOff(a, p * b, j + k);
      LeStep(a, j);
      hide Le;
      LeConcat(a / 256, b, j - 1, k);
    }
  }

  /** Only the low bytes of a word are written. */
  lemma LowBytes(n: nat, k: nat, q: nat, r: nat)
    requires n == r + Pow256(k) * q && r < Pow256(k)
    ensures Le(r, k) == Le(n, k)
  {
    LeConcat(r, q, k, 0);
  }

  lemma LeTruncates(n: nat, k: nat, p: nat)
    requires p == Pow256(k)
    ensures Le(n % p, k) == Le(n, k)
  {
    hide Le; hide Pow256;
    LowBytes(n, k, n / p, n % p);
  }

  function Zeros(n: nat): (z: seq<byte>)
    ensures |z| == n && forall i | 0 <= i < n :: z[i] == 0
  {
    seq(n, i => 0)
  }

  // ---- division ----

  lemma MulAtLeast(d: nat, k: int)
    requires k >= 1
    ensures d * k >= d
  {
    assert d * k == d * (k - 1) + d;
  }

  /** Quotient and remainder are the only ones there are. */
  lemma DivMod(w: nat, d: nat, q: nat, r: nat)
    requires w == d * q + r && r < d
    ensures w / d == q && w % d == r
  {
    var q', r' := w / d, w % d;
    assert w == d * q' + r';
    assert d * (q' - q) == r - r' by { assert d * (q' - q) == d * q' - d * q; }
    assert d * (q - q') == r' - r by { assert d * (q - q') == d * q - d * q'; }
    if q' > q { MulAtLeast(d, q' - q); }
    if q > q' { MulAtLeast(d, q - q'); }
  }

  lemma QuotientTimes(n: nat, d: nat)
    requires d > 0
    ensures n == n % d + d * (n / d) && 0 <= n % d < d
  {
  }

  /** Taking multiples of the divisor away keeps the remainder. */
  lemma ModShift(n: int, d: nat, k: int)
    requires d > 0
    ensures (n - d * k) % d == n % d
  {
    var a, b := (n - d * k) / d, n / d;
    var r, t := (n - d * k) % d, n % d;
    assert n - d * k == d * a + r && n == d * b + t;
    assert d * (b - a - k) == r - t by { assert d * (b - a - k) == d * b - d * a - d * k; }
    if b - a - k > 0 { MulAtLeast(d, b - a - k); }
    if b - a - k < 0 { MulAtLeast(d, -(b - a - k)); }
  }
}
