/**
  The Mersenne Twister of components/liblzo/source/lzo_supp.h, whose 624 words are replaced in place,
  against the endless recurrence of MT19937 (section 26.5.3.2 of ISO/IEC 14882:2011).
 */
module MersenneTwister {

  type Word = bv32

  const N := 624
  const M := 397

  // ---- the sequence without an end

  /** The first words come from the seed, by arithmetic modulo 2 to the 32. */
  function SeedWord(x: Word, i: nat): Word
    requires i <= N
  {
    ((1812433253 * ((x ^ (x >> 30)) as nat) + i) % 0x1_0000_0000) as Word
  }

  /** `w` and the twist of one word's upper bit with the next word's lower bits. */
  function Twisted(w: Word, upper: Word, lower: Word): Word {
    var y := (upper & 0x80000000) | (lower & 0x7fffffff);
    w ^ (y >> 1) ^ (if y & 1 == 1 then 0x9908b0df else 0)
  }

  function X(seed: Word, k: nat): Word {
    if k == 0 then seed
    else if k < N then SeedWord(X(seed, k - 1), k)
    else Twisted(X(seed, k - N + M), X(seed, k - N), X(seed, k - N + 1))
  }

  function Shift11(x: Word): Word { x ^ (x >> 11) }

  function Shift7(x: Word): Word { x ^ ((x << 7) & 0x9d2c5680) }

  function Shift15(x: Word): Word { x ^ ((x << 15) & 0xefc60000) }

  function Shift18(x: Word): Word { x ^ (x >> 18) }

  /** The tempering of the standard, with its masks behind the shifts. */
  function Temper(x: Word): Word {
    Shift18(Shift15(Shift7(Shift11(x))))
  }

  // ---- the code

  /** The bits of two words put together, as the code does it. */
  function Mixed(a: Word, b: Word): Word {
    (a & 0x80000000) ^ (b & 0x7fffffff)
  }

  function HalfXor(w: Word, v: Word): Word {
    if v & 1 == 1 then w ^ (v >> 1) ^ 0x9908b0df else w ^ (v >> 1)
  }

  lemma CodeTwists(w: Word, a: Word, b: Word)
    ensures HalfXor(w, Mixed(a, b)) == Twisted(w, a, b)
  {
  }

  /** The code masks first and shifts then. */
  function MaskShift7(v: Word): Word { v ^ ((v & 0x013a58ad) << 7) }

  function MaskShift15(v: Word): Word { v ^ ((v & 0x0001df8c) << 15) }

  lemma CodeTempers(v: Word)
    ensures MaskShift7(v) == Shift7(v) && MaskShift15(v) == Shift15(v)
  {
  }

  /** The outer shifts need no masks. */
  lemma OuterShifts(v: Word)
    ensures v ^ (v >> 11) == Shift11(v) && v ^ (v >> 18) == Shift18(v)
  {
  }

  /** `seed ^= seed >> 30; seed = seed * 0x6c078965 + i`, in 32 bits. */
  method NextSeed(word: Word, i: nat) returns (next: Word)
    requires i <= N
    ensures next == SeedWord(word, i)
  {
    next := word ^ (word >> 30);
    next := ((next as nat * 0x6c078965 + i) % 0x1_0000_0000) as Word;
  }

  lemma SeedStep(seed: Word, k: nat)
    ensures X(seed, 0) == seed
    ensures k + 1 < N ==> X(seed, k + 1) == SeedWord(X(seed, k), k + 1)
  {
    hide SeedWord;
  }

  lemma TwistStep(seed: Word, k: nat)
    ensures X(seed, k + N) == Twisted(X(seed, k + M), X(seed, k), X(seed, k + 1))
  {
    hide SeedWord, Twisted;
  }

  /** The shifts and masks as the code has them, the masks in front of the shifts. */
  method Tempered(x: Word) returns (v: Word)
    ensures v == Temper(x)
  {
    hide Shift11, Shift7, Shift15, Shift18, MaskShift7, MaskShift15;
    v := x;
    OuterShifts(v);
    v := v ^ (v >> 11);
    CodeTempers(v);
    v := MaskShift7(v);
    CodeTempers(v);
    v := MaskShift15(v);
    OuterShifts(v);
    v := v ^ (v >> 18);
  }

  class RandMt {
    const s: array<Word>
    var n: nat
    ghost const seed: Word
    /** `s` holds the words from `base` on. */
    ghost var base: nat

    ghost predicate Valid()
      reads this, s
    {
      && s.Length == N && n <= N && base + n >= N
      && forall i :: 0 <= i < N ==> s[i] == X(seed, base + i)
    }

    /** How many numbers have been drawn. */
    ghost function Drawn(): nat
      reads this, s
      requires Valid()
    {
      base + n - N
    }

    /** `lzo_srandmt` */
    constructor (seed0: Word)
      ensures Valid() && fresh(s) && seed == seed0 && Drawn() == 0
    {
      hide X, SeedWord;
      s := new Word[N];
      n, seed, base := N, seed0, 0;
      new;
      var word, i := seed0, 0;
      SeedStep(seed0, 0);
      while i < N
        invariant n == N && base == 0
        invariant i <= N && (forall j :: 0 <= j < i ==> s[j] == X(seed, j)) && (i < N ==> word == X(seed, i))
      {
        s[i] := word;
        SeedStep(seed0, i);
        i := i + 1;
        word := NextSeed(word, i);
      }
    }

    /** Replaces word `i`; those before it are new already. */
    method Replace(i: nat)
      requires s.Length == N && i < N
      requires forall j :: 0 <= j < N ==> s[j] == X(seed, base + j + if j < i then N else 0)
      modifies s
      ensures forall j :: 0 <= j < N ==> s[j] == X(seed, base + j + if j < i + 1 then N else 0)
    {
      hide X, Mixed, HalfXor, Twisted;
      var j := i - 623;
      if j < 0 {
        j := j + 624;
      }
      assert s[i] == X(seed, base + i) && s[j] == X(seed, base + i + 1);
      var v := Mixed(s[i], s[j]);
      j := i - 227;
      if j < 0 {
        j := j + 624;
      }
      assert s[j] == X(seed, base + i + M);
      TwistStep(seed, base + i);
      CodeTwists(X(seed, base + i + M), X(seed, base + i), X(seed, base + i + 1));
      s[i] := HalfXor(s[j], v);
    }

    /** `lzo_randmt_r32`: the next tempered word of the endless sequence. */
    method Next() returns (v: Word)
      requires Valid()
      modifies this`n, this`base, s
      ensures Valid() && Drawn() == old(Drawn()) + 1
      ensures v == Temper(X(seed, N + old(Drawn())))
    {
      hide X, Temper;
      if n == N {
        n := 0;
        for i := 0 to N
          invariant n == 0 && s.Length == N && base == old(base)
          invariant forall j :: 0 <= j < N ==> s[j] == X(seed, base + j + if j < i then N else 0)
        {
          Replace(i);
        }
        base := base + N;
      }
      v := s[n];
      n := n + 1;
      v := Tempered(v);
    }
  }

  /** The numbers drawn after seeding are the tempered terms of the recurrence from the 624th on. */
  method Draw(seed: Word, count: nat) returns (out: seq<Word>)
    ensures |out| == count && forall k :: 0 <= k < count ==> out[k] == Temper(X(seed, N + k))
  {
    hide X, Temper;
    var r := new RandMt(seed);
    out := [];
    while |out| < count
      invariant r.Valid() && fresh(r) && fresh(r.s) && r.seed == seed && r.Drawn() == |out| <= count
      invariant forall k :: 0 <= k < |out| ==> out[k] == Temper(X(seed, N + k))
      modifies r, r.s
    {
      var v := r.Next();
      out := out + [v];
    }
  }
}
