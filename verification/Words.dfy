/**
  Bytes, powers of two and little-endian words, as the portable (non-x86) branches of
  components/quicklz/source/quicklz.c use them.  Words are unbounded integers here; every place
  where the C code relies on 32 bits says so.
 */
module Words {
  import opened Division
  import opened Slices

  type Byte = x: int | 0 <= x < 256

  /** The highest bit of a 32-bit word, `1U << 31`. */
  const TOP := 0x8000_0000

  const TWO32 := 0x1_0000_0000

  function Pow2(n: nat): (p: nat)
    ensures p >= 1
  {
    if n == 0 then 1 else 2 * Pow2(n - 1)
  }

  lemma {:induction false} Pow2Add(m: nat, n: nat)
    ensures Pow2(m) * Pow2(n) == Pow2(m + n)
  {
    if m != 0 {
      Pow2Add(m - 1, n);
      var a, b := Pow2(m - 1), Pow2(n);
      assert (2 * a) * b == 2 * (a * b);
    }
  }

  lemma {:induction false} Pow2Monotone(m: nat, n: nat)
    requires m <= n
    ensures Pow2(m) <= Pow2(n)
  {
    if m < n {
      Pow2Monotone(m, n - 1);
    }
  }

  lemma Pow2Is31()
    ensures Pow2(31) == TOP
  {
    assert Pow2(8) == 256;
    Pow2Add(8, 8);
    Pow2Add(16, 8);
    assert Pow2(7) == 128;
    Pow2Add(24, 7);
  }

  /** Right shift: one halving per position. */
  function Shr(x: nat, n: nat): nat
    decreases n, x
  {
    if n == 0 then x else Shr(x / 2, n - 1)
  }

  /** Bitwise exclusive or of the low `bits` bits. */
  function Xor(a: nat, b: nat, bits: nat): (r: nat)
    ensures r < Pow2(bits)
    decreases bits, a, b
  {
    if bits == 0 then 0 else (a % 2 + b % 2) % 2 + 2 * Xor(a / 2, b / 2, bits - 1)
  }

  /** Bit `k` of a word, by division. */
  function Bit(x: nat, k: nat): nat {
    x / Pow2(k) % 2
  }

  lemma HalfThenDivide(x: nat, p: nat)
    requires p > 0
    ensures x / 2 / p == x / (2 * p)
  {
    var q := x / 2 / p;
    var r := x / 2 % p;
    assert x == 2 * (q * p + r) + x % 2 == q * (2 * p) + (2 * r + x % 2);
    DivisionUnique(x, 2 * p, q, 2 * r + x % 2);
  }

  lemma BitOfHalf(x: nat, k: nat)
    ensures Bit(x / 2, k) == Bit(x, k + 1) && Bit(x, 0) == x % 2
  {
    HalfThenDivide(x, Pow2(k));
  }

  lemma {:induction false} ShrBit(x: nat, n: nat, k: nat)
    ensures Bit(Shr(x, n), k) == Bit(x, n + k)
    decreases n
  {
    hide Bit;
    if n > 0 {
      ShrBit(x / 2, n - 1, k);
      BitOfHalf(x, n - 1 + k);
    }
  }

  lemma {:induction false} XorBit(a: nat, b: nat, bits: nat, k: nat)
    requires k < bits
    ensures Bit(Xor(a, b, bits), k) == (Bit(a, k) + Bit(b, k)) % 2
    decreases bits
  {
    hide Bit;
    var x := Xor(a, b, bits);
    assert x / 2 == Xor(a / 2, b / 2, bits - 1) && x % 2 == (a % 2 + b % 2) % 2;
    if k > 0 {
      XorBit(a / 2, b / 2, bits - 1, k - 1);
      BitOfHalf(x, k - 1);
      BitOfHalf(a, k - 1);
      BitOfHalf(b, k - 1);
    } else {
      BitOfHalf(x, 0);
      BitOfHalf(a, 0);
      BitOfHalf(b, 0);
    }
  }

  /** The `n` low bytes of `f`, least significant first: what `fast_write` stores. */
  function LittleEndian(f: nat, n: nat): (b: seq<Byte>)
    ensures |b| == n
    decreases n, f
  {
    if n == 0 then [] else [f % 256] + LittleEndian(f / 256, n - 1)
  }

  /** The word whose bytes are `b`, least significant first. */
  function Value(b: seq<Byte>): nat {
    if b == [] then 0 else b[0] + 256 * Value(b[1..])
  }

  /** `fast_read`: the word stored in the `n` bytes of `s` at `at`. */
  function FastRead(s: seq<Byte>, at: nat, n: nat): nat
    requires at + n <= |s|
  {
    Value(s[at..at + n])
  }

  function Pow256(n: nat): (p: nat)
    ensures p >= 1
  {
    if n == 0 then 1 else 256 * Pow256(n - 1)
  }

  /** Reading back what was written gives the low `8 * n` bits. */
  lemma {:induction false} ReadWritten(f: nat, n: nat)
    requires f < Pow256(n)
    ensures Value(LittleEndian(f, n)) == f
    decreases n
  {
    if n != 0 {
      assert LittleEndian(f, n)[1..] == LittleEndian(f / 256, n - 1);
      ReadWritten(f / 256, n - 1);
    }
  }

  /** Equal words of the same length come from equal bytes. */
  lemma {:induction false} ValueInjective(a: seq<Byte>, b: seq<Byte>)
    requires |a| == |b| && Value(a) == Value(b)
    ensures a == b
  {
    if a != [] {
      ValueInjective(a[1..], b[1..]);
      assert a == [a[0]] + a[1..] && b == [b[0]] + b[1..];
    }
  }

  /** `fast_write`: stores the low `8 * n` bits of `f` at `at` and nothing else. */
  method FastWrite(f: nat, dst: array<Byte>, at: nat, n: nat)
    requires at + n <= dst.Length
    modifies dst
    ensures dst[..] == Splice(old(dst[..]), at, LittleEndian(f, n))
    decreases n
  {
    if n > 0 {
      ghost var before := dst[..];
      dst[at] := f % 256;
      ghost var v: Byte := f % 256;
      assert dst[..] == before[at := v];
      FastWrite(f / 256, dst, at + 1, n - 1);
      SpliceFirst(before, at, v, LittleEndian(f / 256, n - 1));
    }
  }
}
