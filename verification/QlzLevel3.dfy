/**
  The level 3 token code, and what makes a list of level 3 tokens decodable: every match leads back,
  by its own distance, to bytes equal to those it stands for.
 */
module QlzLevel3 {
  import opened Division
  import opened Words
  import opened QlzFormat
  import opened QlzParse

  // ---- the five forms of a match, as the decompressor tells them apart

  function OffsetField(fetch: nat): nat {
    if fetch % 4 == 0 then fetch % 0x100 / 4
    else if fetch / 2 % 2 == 0 then fetch % 0x10000 / 4
    else if fetch % 2 == 0 then fetch % 0x10000 / 64
    else if fetch % 128 != 3 then fetch / 128 % 0x20000
    else fetch / 32768
  }

  function LengthField(fetch: nat): nat {
    if fetch % 4 == 0 then 3
    else if fetch / 2 % 2 == 0 then 3
    else if fetch % 2 == 0 then fetch / 4 % 16 + 3
    else if fetch % 128 != 3 then fetch / 4 % 32 + 2
    else fetch / 128 % 256 + 3
  }

  function WidthField(fetch: nat): (n: nat)
    ensures 1 <= n <= 4
  {
    if fetch % 4 == 0 then 1
    else if fetch / 2 % 2 == 0 then 2
    else if fetch % 2 == 0 then 2
    else if fetch % 128 != 3 then 3
    else 4
  }

  lemma OneByteForm(offset: nat, x: nat, fetch: nat)
    requires offset <= 63 && fetch == 4 * offset + 0x100 * x
    ensures OffsetField(fetch) == offset && LengthField(fetch) == 3 && WidthField(fetch) == 1
  {
    DivisionUnique(fetch, 0x100, x, 4 * offset);
    DivisionUnique(fetch, 4, offset + 64 * x, 0);
    DivisionUnique(4 * offset, 4, offset, 0);
  }

  /** The two low bits of a word. */
  lemma LowBits(fetch: nat, q: nat, b1: nat, b0: nat)
    requires b1 < 2 && b0 < 2 && fetch == 4 * q + 2 * b1 + b0
    ensures fetch % 4 == 2 * b1 + b0 && fetch / 4 == q && fetch / 2 % 2 == b1 && fetch % 2 == b0
  {
    DivisionUnique(fetch, 4, q, 2 * b1 + b0);
    DivisionUnique(fetch, 2, 2 * q + b1, b0);
    DivisionUnique(2 * q + b1, 2, q, b1);
  }

  lemma TwoByteForm(offset: nat, x: nat, fetch: nat)
    requires offset <= 16383 && fetch == 4 * offset + 1 + 0x10000 * x
    ensures OffsetField(fetch) == offset && LengthField(fetch) == 3 && WidthField(fetch) == 2
  {
    DivisionUnique(fetch, 0x10000, x, 4 * offset + 1);
    LowBits(fetch, offset + 16384 * x, 0, 1);
    DivisionUnique(4 * offset + 1, 4, offset, 1);
  }

  lemma ShortLengthForm(offset: nat, l: nat, x: nat, fetch: nat)
    requires offset <= 1023 && l <= 15 && fetch == 4 * l + 64 * offset + 2 + 0x10000 * x
    ensures OffsetField(fetch) == offset && LengthField(fetch) == l + 3 && WidthField(fetch) == 2
  {
    var q, m := l + 16 * (offset + 1024 * x), 4 * l + 64 * offset + 2;
    DivisionUnique(fetch, 0x10000, x, m);
    LowBits(fetch, q, 1, 0);
    DivisionUnique(m, 64, offset, 4 * l + 2);
    DivisionUnique(q, 16, offset + 1024 * x, l);
  }

  lemma ThreeByteForm(offset: nat, l: nat, x: nat, fetch: nat)
    requires offset < 0x20000 && 1 <= l <= 31 && fetch == 4 * l + 128 * offset + 3 + 0x100_0000 * x
    ensures OffsetField(fetch) == offset && LengthField(fetch) == l + 2 && WidthField(fetch) == 3
  {
    var q, h := l + 32 * (offset + 0x20000 * x), offset + 0x20000 * x;
    LowBits(fetch, q, 1, 1);
    DivisionUnique(q, 32, h, l);
    DivisionUnique(fetch, 128, h, 4 * l + 3);
    DivisionUnique(h, 0x20000, x, offset);
  }

  lemma FourByteForm(offset: nat, l: nat, fetch: nat)
    requires l <= 255 && fetch == 128 * l + 32768 * offset + 3
    ensures OffsetField(fetch) == offset && LengthField(fetch) == l + 3 && WidthField(fetch) == 4
  {
    var q := l + 256 * offset;
    LowBits(fetch, 32 * q, 1, 1);
    DivisionUnique(fetch, 128, q, 3);
    DivisionUnique(q, 256, offset, l);
    DivisionUnique(fetch, 32768, offset, 128 * l + 3);
  }

  lemma Powers()
    ensures Pow256(1) == 0x100 && Pow256(2) == 0x10000 && Pow256(3) == 0x100_0000 && Pow256(4) == TWO32
  {
  }

  /** Whatever bytes follow it, the word of a match gives back its distance, its length and its width. */
  lemma FieldsOfWord(offset: FarOffset, len: MatchLength, x: nat)
    requires FarWidth(offset, len) == 4 ==> x == 0
    ensures var fetch := FarWord(offset, len) + Pow256(FarWidth(offset, len)) * x;
            OffsetField(fetch) == offset && LengthField(fetch) == len && WidthField(fetch) == FarWidth(offset, len)
    ensures FarWord(offset, len) < Pow256(FarWidth(offset, len))
  {
    hide OffsetField, LengthField, WidthField;
    Powers();
    var fetch := FarWord(offset, len) + Pow256(FarWidth(offset, len)) * x;
    if len == 3 && offset <= 63 {
      OneByteForm(offset, x, fetch);
    } else if len == 3 && offset <= 16383 {
      TwoByteForm(offset, x, fetch);
    } else if len <= 18 && offset <= 1023 {
      ShortLengthForm(offset, len - 3, x, fetch);
    } else if len <= 33 {
      ThreeByteForm(offset, len - 2, x, fetch);
    } else {
      FourByteForm(offset, len - 3, fetch);
    }
  }

  lemma TimesPower(u: nat, p: nat, v: nat)
    ensures 256 * (u + p * v) == 256 * u + (256 * p) * v
  {
  }

  lemma {:induction false} ValueConcat(a: seq<Byte>, b: seq<Byte>)
    ensures Value(a + b) == Value(a) + Pow256(|a|) * Value(b)
  {
    if a == [] {
      assert a + b == b;
    } else {
      var a1 := a[1..];
      assert (a + b)[1..] == a1 + b;
      assert Value(a + b) == a[0] + 256 * Value(a1 + b);
      ValueConcat(a1, b);
      TimesPower(Value(a1), Pow256(|a1|), Value(b));
    }
  }

  lemma ValueNothing()
    ensures Value([]) == 0
  {
  }

  /** Four bytes that begin with those of a match decode to it. */
  lemma FarFields(source: seq<Byte>, src: nat, t: Token)
    requires t.Far? && src + 4 <= |source| && source[src..src + |TokenBytes(t)|] == TokenBytes(t)
    ensures var fetch := FastRead(source, src, 4);
            OffsetField(fetch) == t.offset && LengthField(fetch) == t.len && WidthField(fetch) == |TokenBytes(t)|
  {
    hide OffsetField, LengthField, WidthField, FarWord, Value, Pow256, LittleEndian;
    var w := FarWidth(t.offset, t.len);
    var a, b := source[src..src + w], source[src + w..src + 4];
    assert source[src..src + 4] == a + b && (w == 4 ==> b == []);
    assert Value([]) == 0 by {
      ValueNothing();
    }
    ValueConcat(a, b);
    FieldsOfWord(t.offset, t.len, Value(b));
    ReadWritten(FarWord(t.offset, t.len), w);
  }

  // ---- decodable lists

  /** One token stands for the bytes of `s` at `i`. */
  ghost predicate FitsFar(s: seq<Byte>, i: nat, t: Token) {
    && i + Covers(t) <= |s|
    && match t
       case Literal(b) => s[i] == b
       case Match(_, _) => false
       case Far(offset, len) =>
         && i <= LastMatchStart(s) && i + len + UNCOMPRESSED_END <= |s|
         && offset <= i && s[i - offset..i - offset + len] == s[i..i + len]
  }

  lemma FitsCovers(s: seq<Byte>, i: nat, t: Token)
    requires FitsFar(s, i, t)
    ensures i + Covers(t) <= |s|
  {
  }

  ghost predicate DecodesFar(s: seq<Byte>, i: nat, ts: seq<Token>)
    requires i <= |s|
    decreases |ts|
  {
    if ts == [] then i == |s|
    else FitsFar(s, i, ts[0]) && DecodesFar(s, i + Covers(ts[0]), ts[1..])
  }
}
