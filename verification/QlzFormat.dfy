/**
  The level 1 stream format: what the bytes after the header mean.  A stream is a list of tokens.
  Every 31 tokens share one 32-bit control word: bit k is set when the k-th token of the group is a
  match, and one more set bit, the sentinel, stands at position 31.
 */
module QlzFormat {
  import opened Words

  const HASH_VALUES := 4096
  const UNCONDITIONAL_MATCHLEN := 6
  const UNCOMPRESSED_END := 4
  const CWORD_LEN := 4
  const GROUP := 31

  type Slot = n: nat | n < HASH_VALUES

  type FarOffset = n: nat | 3 <= n <= 131070 witness 3

  type MatchLength = n: nat | 3 <= n <= 255 witness 3

  /**
    A literal byte, or a match: at level 1 a hash slot (not an offset) and a length, at level 3 the
    distance back to the earlier bytes and a length.
   */
  datatype Token = Literal(b: Byte) | Match(slot: Slot, len: MatchLength) | Far(offset: FarOffset, len: MatchLength)

  /** How many plain bytes a token stands for. */
  function Covers(t: Token): nat {
    if t.Literal? then 1 else t.len
  }

  function Span(ts: seq<Token>): nat {
    if ts == [] then 0 else Covers(ts[0]) + Span(ts[1..])
  }

  /** How many bytes a level 3 match takes. */
  function FarWidth(offset: FarOffset, len: MatchLength): (n: nat)
    ensures 1 <= n <= 4 && n <= len
  {
    if len == 3 && offset <= 63 then 1
    else if len == 3 && offset <= 16383 then 2
    else if len <= 18 && offset <= 1023 then 2
    else if len <= 33 then 3
    else 4
  }

  function FarWord(offset: FarOffset, len: MatchLength): nat {
    if len == 3 && offset <= 63 then 4 * offset
    else if len == 3 && offset <= 16383 then 4 * offset + 1
    else if len <= 18 && offset <= 1023 then 4 * (len - 3) + 64 * offset + 2
    else if len <= 33 then 4 * (len - 2) + 128 * offset + 3
    else 128 * (len - 3) + 32768 * offset + 3
  }

  /**
    The bytes of one token.  At level 1 a short match keeps `len - 2` in the low nibble, a long one
    leaves it 0; at level 3 the two low bits and the length choose one of five forms.
   */
  function TokenBytes(t: Token): (b: seq<Byte>)
    ensures 1 <= |b| <= 4 && |b| <= Covers(t)
  {
    match t
    case Literal(b) => [b]
    case Match(slot, len) =>
      if len < 18 then LittleEndian(len - 2 + 16 * slot, 2) else LittleEndian(65536 * len + 16 * slot, 3)
    case Far(offset, len) => LittleEndian(FarWord(offset, len), FarWidth(offset, len))
  }

  lemma WordFields(low: nat, slot: Slot, high: nat)
    requires low < 16
    ensures var w := low + 16 * slot + 65536 * high;
            w % 16 == low && w / 16 % 4096 == slot && w / 65536 == high
  {
    assert (low + 16 * slot + 65536 * high) / 16 == slot + 4096 * high;
  }

  /** A match is a word of two bytes below length 18, else of three: low nibble, slot, length in the third byte. */
  lemma MatchWord(slot: Slot, len: MatchLength)
    ensures var b := TokenBytes(Match(slot, len));
            var w := Value(b);
            && |b| == (if len < 18 then 2 else 3) && w / 16 % 4096 == slot
            && w % 16 == (if len < 18 then len - 2 else 0) && w / 65536 == (if len < 18 then 0 else len)
  {
    assert Pow256(2) == 256 * Pow256(1) == 65536 && Pow256(3) == 256 * Pow256(2);
    hide LittleEndian, Value, Pow256;
    if len < 18 {
      WordFields(len - 2, slot, 0);
      ReadWritten(len - 2 + 16 * slot, 2);
    } else {
      WordFields(0, slot, len);
      ReadWritten(65536 * len + 16 * slot, 3);
    }
  }

  function Payload(ts: seq<Token>): seq<Byte> {
    if ts == [] then [] else TokenBytes(ts[0]) + Payload(ts[1..])
  }

  function FlagBit(t: Token): nat {
    if t.Literal? then 0 else 1
  }

  function Flags(ts: seq<Token>): nat {
    if ts == [] then 0 else FlagBit(ts[0]) + 2 * Flags(ts[1..])
  }

  function GroupSize(ts: seq<Token>): nat {
    if |ts| <= GROUP then |ts| else GROUP
  }

  /** One control word and the bytes of the tokens it announces. */
  function Group(ts: seq<Token>): seq<Byte> {
    LittleEndian(Flags(ts) + TOP, CWORD_LEN) + Payload(ts)
  }

  function Layout(ts: seq<Token>): seq<Byte> {
    if ts == [] then [] else var k := GroupSize(ts); Group(ts[..k]) + Layout(ts[k..])
  }

  // ---- appending at the end, which is how the compressor builds a stream

  lemma {:induction false} SpanAppend(a: seq<Token>, b: seq<Token>)
    ensures Span(a + b) == Span(a) + Span(b)
  {
    if a == [] {
      assert a + b == b;
    } else {
      assert (a + b)[1..] == a[1..] + b;
      SpanAppend(a[1..], b);
    }
  }

  lemma {:induction false} PayloadAppend(a: seq<Token>, b: seq<Token>)
    ensures Payload(a + b) == Payload(a) + Payload(b)
  {
    if a == [] {
      assert a + b == b;
    } else {
      assert (a + b)[1..] == a[1..] + b;
      PayloadAppend(a[1..], b);
    }
  }

  lemma {:induction false} FlagsAppend(a: seq<Token>, t: Token)
    ensures Flags(a + [t]) == Flags(a) + Pow2(|a|) * FlagBit(t)
  {
    if a == [] {
      assert a + [t] == [t];
    } else {
      assert (a + [t])[1..] == a[1..] + [t];
      FlagsAppend(a[1..], t);
      var p, f := Pow2(|a| - 1), FlagBit(t);
      assert 2 * (p * f) == (2 * p) * f;
    }
  }

  lemma {:induction false} FlagsBound(ts: seq<Token>)
    ensures Flags(ts) < Pow2(|ts|)
  {
    if ts != [] {
      FlagsBound(ts[1..]);
    }
  }

  lemma {:induction false} LayoutAppend(a: seq<Token>, b: seq<Token>)
    requires |a| % GROUP == 0
    ensures Layout(a + b) == Layout(a) + Layout(b)
    decreases |a|
  {
    if a == [] {
      assert a + b == b;
    } else {
      assert (a + b)[..GROUP] == a[..GROUP];
      assert (a + b)[GROUP..] == a[GROUP..] + b;
      assert GroupSize(a) == GROUP == GroupSize(a + b);
      LayoutAppend(a[GROUP..], b);
    }
  }

  lemma LayoutOfGroup(ts: seq<Token>)
    requires 0 < |ts| <= GROUP
    ensures Layout(ts) == Group(ts)
  {
    var k := GroupSize(ts);
    assert ts[..k] == ts && ts[k..] == [];
    var g := Group(ts);
    assert Layout(ts) == g + Layout([]) == g;
  }

  // ---- the control word while a group is being filled

  /** `(cword_val >> 1) | (1U << 31)` for a match, `cword_val >> 1` for a literal. */
  function PushFlag(cword: nat, t: Token): nat {
    cword / 2 + (if t.Literal? then 0 else TOP)
  }

  /** The control word after the tokens `cur` of the open group. */
  function ControlWord(cur: seq<Token>): nat {
    if cur == [] then TOP else PushFlag(ControlWord(cur[..|cur| - 1]), cur[|cur| - 1])
  }

  lemma TwicePower(p: nat, x: nat)
    ensures (2 * p) * x == 2 * (p * x) && (2 * p) * x / 2 == p * x && (2 * p) * x % 2 == 0
  {
  }

  lemma SpreadFlag(p: nat, q: nat, x: nat, f: nat, top: nat)
    requires 2 * (p * q) == top
    ensures p * (x + 2 * (q * f)) == p * x + top * f
  {
  }

  /** Flags above the sentinel, the sentinel, and zeros below it. */
  lemma {:induction false} ControlWordForm(cur: seq<Token>)
    requires |cur| <= GROUP
    ensures ControlWord(cur) == Pow2(GROUP - |cur|) * (1 + 2 * Flags(cur))
  {
    if cur == [] {
      Pow2Is31();
    } else {
      var n := |cur| - 1;
      var a, t := cur[..n], cur[n];
      ControlWordForm(a);
      var p, q, f, x := Pow2(GROUP - n - 1), Pow2(n), FlagBit(t), 1 + 2 * Flags(a);
      TwicePower(p, x);
      assert a + [t] == cur;
      FlagsAppend(a, t);
      Pow2Add(GROUP - n - 1, n);
      assert 2 * (p * q) == TOP by {
        Pow2Is31();
        assert Pow2(31) == 2 * Pow2(30);
      }
      SpreadFlag(p, q, x, f, TOP);
    }
  }

  lemma ControlWordPush(cur: seq<Token>, t: Token)
    ensures ControlWord(cur + [t]) == PushFlag(ControlWord(cur), t)
  {
  }

  /** Shifting out the zeros below the sentinel `x % 2 == 1` leaves the flags above it. */
  lemma ShiftOutZero(w: nat, k: nat, x: nat)
    requires w == Pow2(k) * x && x % 2 == 1
    ensures w % 2 == 1 <==> k == 0
    ensures if k == 0 then w == x else w / 2 == Pow2(k - 1) * x
  {
    if k > 0 {
      TwicePower(Pow2(k - 1), x);
    } else {
      assert Pow2(k) == 1;
    }
  }

  /** The lowest bit is set exactly when 31 tokens have been pushed; the flags are then above it. */
  lemma ControlWordFull(cur: seq<Token>)
    requires |cur| <= GROUP
    ensures ControlWord(cur) % 2 == 1 <==> |cur| == GROUP
    ensures |cur| == GROUP ==> ControlWord(cur) / 2 == Flags(cur)
  {
    hide Pow2, Flags, ControlWord;
    ControlWordForm(cur);
    ShiftOutZero(ControlWord(cur), GROUP - |cur|, 1 + 2 * Flags(cur));
  }

  // ---- lengths

  lemma {:induction false} PayloadLength(ts: seq<Token>)
    ensures |ts| <= |Payload(ts)| <= Span(ts) && |Payload(ts)| <= 4 * |ts|
  {
    if ts != [] {
      PayloadLength(ts[1..]);
    }
  }

  /** The number of control words of a stream. */
  function Groups(n: nat): nat {
    (n + GROUP - 1) / GROUP
  }

  /** A stream costs its payload and four bytes for every started group of 31 tokens. */
  lemma {:induction false} LayoutLength(ts: seq<Token>)
    ensures |Layout(ts)| == |Payload(ts)| + CWORD_LEN * Groups(|ts|)
    decreases |ts|
  {
    if ts != [] {
      var k := GroupSize(ts);
      assert ts == ts[..k] + ts[k..];
      PayloadAppend(ts[..k], ts[k..]);
      LayoutLength(ts[k..]);
    }
  }
}
