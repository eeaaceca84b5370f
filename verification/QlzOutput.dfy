/**
  What both compression levels share while they build a stream: control words, payload, the
  giving-up test and the literal tail, for any plan of tokens `ts`.
 */
module QlzOutput {
  import opened Division
  import opened Slices
  import opened Words
  import opened QlzFormat
  import opened QlzParse

  /** The most a core ever writes beyond the size of its input. */
  const CORE_OVERHEAD := 142

  // ---- the output while it is being built

  /** Finished groups up to `cptr`, four bytes reserved there, the payload of the open group up to `dst`. */
  ghost predicate Emitting(out: seq<Byte>, base: nat, cptr: nat, dst: nat, done: seq<Token>, cur: seq<Token>) {
    && base <= cptr && cptr + CWORD_LEN <= dst <= |out|
    && |done| % GROUP == 0 && |cur| <= GROUP
    && out[base..cptr] == Layout(done)
    && out[cptr + CWORD_LEN..dst] == Payload(cur)
  }

  lemma PayloadOne(t: Token)
    ensures Payload([t]) == TokenBytes(t)
  {
  }

  lemma EmitToken(out: seq<Byte>, base: nat, cptr: nat, dst: nat, done: seq<Token>, cur: seq<Token>, t: Token)
    requires Emitting(out, base, cptr, dst, done, cur) && |cur| < GROUP
    requires dst + |TokenBytes(t)| <= |out|
    ensures Emitting(Splice(out, dst, TokenBytes(t)), base, cptr, dst + |TokenBytes(t)|, done, cur + [t])
  {
    hide Layout, TokenBytes, LittleEndian;
    var b := TokenBytes(t);
    var out' := Splice(out, dst, b);
    PayloadAppend(cur, [t]);
    PayloadOne(t);
    SpliceBefore(out, dst, b, base, cptr);
    SpliceBefore(out, dst, b, cptr + CWORD_LEN, dst);
    assert out'[cptr + CWORD_LEN..dst + |b|] == out'[cptr + CWORD_LEN..dst] + out'[dst..dst + |b|];
  }

  lemma LayoutNextGroup(done: seq<Token>, cur: seq<Token>)
    requires |done| % GROUP == 0 && 0 < |cur| <= GROUP
    ensures Layout(done + cur) == Layout(done) + LittleEndian(Flags(cur) + TOP, CWORD_LEN) + Payload(cur)
  {
    LayoutAppend(done, cur);
    LayoutOfGroup(cur);
    var a, w, p := Layout(done), LittleEndian(Flags(cur) + TOP, CWORD_LEN), Payload(cur);
    assert a + (w + p) == a + w + p;
  }

  lemma GroupWritten(out: seq<Byte>, base: nat, cptr: nat, dst: nat, w: seq<Byte>, a: seq<Byte>, p: seq<Byte>)
    requires base <= cptr && cptr + |w| <= dst <= |out|
    requires out[base..cptr] == a && out[cptr + |w|..dst] == p
    ensures Splice(out, cptr, w)[base..dst] == a + w + p
  {
  }

  /** Storing the control word `w` completes the open group. */
  lemma EmitGroup(out: seq<Byte>, base: nat, cptr: nat, dst: nat, done: seq<Token>, cur: seq<Token>, w: seq<Byte>)
    requires Emitting(out, base, cptr, dst, done, cur) && cur != []
    requires w == LittleEndian(Flags(cur) + TOP, CWORD_LEN)
    ensures Splice(out, cptr, w)[base..dst] == Layout(done + cur)
  {
    GroupWritten(out, base, cptr, dst, w, Layout(done), Payload(cur));
    LayoutNextGroup(done, cur);
  }

  lemma EmitFullGroup(out: seq<Byte>, base: nat, cptr: nat, dst: nat, done: seq<Token>, cur: seq<Token>, w: seq<Byte>)
    requires Emitting(out, base, cptr, dst, done, cur) && |cur| == GROUP
    requires w == LittleEndian(Flags(cur) + TOP, CWORD_LEN) && dst + CWORD_LEN <= |out|
    ensures Emitting(Splice(out, cptr, w), base, dst, dst + CWORD_LEN, done + cur, [])
  {
    hide Layout, LittleEndian, Flags;
    EmitGroup(out, base, cptr, dst, done, cur, w);
  }

  /** The tokens emitted so far, `done` in full groups and `cur` in the open one; `rest` is to come. */
  ghost predicate Progress(s: seq<Byte>, ts: seq<Token>, src: nat, done: seq<Token>, cur: seq<Token>,
                           rest: seq<Token>) {
    && src <= |s|
    && done + cur + rest == ts
    && Span(done + cur) == src
    && |done| % GROUP == 0 && |cur| <= GROUP
    && forall c :: c <= |done| ==> !GivesUpAt(s, ts, c)
  }

  lemma ProgressToken(s: seq<Byte>, ts: seq<Token>, src: nat, done: seq<Token>, cur: seq<Token>, t: Token,
                      rest: seq<Token>)
    requires Progress(s, ts, src, done, cur, [t] + rest) && |cur| < GROUP && src + Covers(t) <= |s|
    ensures Progress(s, ts, src + Covers(t), done, cur + [t], rest)
  {
    assert done + (cur + [t]) + rest == done + cur + ([t] + rest);
    assert done + (cur + [t]) == done + cur + [t];
    SpanAppend(done + cur, [t]);
    assert [t][1..] == [];
    assert Span([t]) == Covers(t) + Span([]);
  }

  /** A flush of a full control word with tokens left is exactly a point where giving up is decided. */
  lemma FlushPoint(s: seq<Byte>, ts: seq<Token>, src: nat, done: seq<Token>, cur: seq<Token>, rest: seq<Token>)
    requires Progress(s, ts, src, done, cur, rest) && |cur| == GROUP && rest != []
    ensures GivesUpAt(s, ts, |done| + GROUP) <==> src <= LastMatchStart(s) && Poor(|s|, src, |Layout(done + cur)|)
  {
    var c := |done| + GROUP;
    assert ts[..c] == done + cur;
    assert c % GROUP == 0;
  }

  lemma NothingBetween(s: seq<Byte>, ts: seq<Token>, n: nat, c: int)
    requires n % GROUP == 0 && n < c < n + GROUP
    ensures !GivesUpAt(s, ts, c)
  {
    hide Layout, Span;
    DivisionUnique(c, GROUP, n / GROUP, c - n);
  }

  lemma ProgressFlush(s: seq<Byte>, ts: seq<Token>, src: nat, done: seq<Token>, cur: seq<Token>, rest: seq<Token>)
    requires Progress(s, ts, src, done, cur, rest) && |cur| == GROUP
    requires !GivesUpAt(s, ts, |done| + GROUP)
    ensures Progress(s, ts, src, done + cur, [], rest)
  {
    assert done + cur + [] == done + cur;
    forall c | c <= |done + cur| ensures !GivesUpAt(s, ts, c) {
      if |done| < c < |done| + GROUP {
        NothingBetween(s, ts, |done|, c);
      }
    }
  }

  lemma ProgressComplete(s: seq<Byte>, ts: seq<Token>, src: nat, done: seq<Token>, cur: seq<Token>)
    requires Progress(s, ts, src, done, cur, [])
    ensures done + cur == ts
    ensures forall c :: !GivesUpAt(s, ts, c)
  {
    assert done + cur + [] == done + cur;
    forall c ensures !GivesUpAt(s, ts, c) {
      if |done| < c < |done| + GROUP {
        NothingBetween(s, ts, |done|, c);
      }
    }
  }

  /** The compressor's moving pointers: `cptr`, `dst` into the destination, `src` into the source. */
  datatype Cursor = Cursor(src: nat, cptr: nat, dst: nat, cword: nat)

  /** The tokens in full groups, in the open group, and still to come. */
  datatype Trace = Trace(done: seq<Token>, cur: seq<Token>, rest: seq<Token>)

  /** Everything known about the output between two tokens. */
  ghost predicate Building(s: seq<Byte>, ts: seq<Token>, out0: seq<Byte>, out: seq<Byte>, base: nat, c: Cursor,
                           e: Trace) {
    && Emitting(out, base, c.cptr, c.dst, e.done, e.cur)
    && c.cword == ControlWord(e.cur)
    && Progress(s, ts, c.src, e.done, e.cur, e.rest)
    && |out| == |out0| && out[..base] == out0[..base] && out[c.dst..] == out0[c.dst..]
  }

  lemma OutputBound(out: seq<Byte>, base: nat, cptr: nat, dst: nat, done: seq<Token>, cur: seq<Token>)
    requires Emitting(out, base, cptr, dst, done, cur)
    ensures cptr - base == |Layout(done)| && dst - cptr == CWORD_LEN + |Payload(cur)|
    ensures dst - cptr <= CWORD_LEN + 4 * |cur|
  {
    PayloadLength(cur);
  }

  /** A write inside `[base, to)` keeps what lies outside. */
  lemma SpliceKeepsOutside(out0: seq<Byte>, out: seq<Byte>, base: nat, at: nat, b: seq<Byte>, from: nat, to: nat)
    requires |out| == |out0| && base <= at && at + |b| <= to <= |out| && from <= to
    requires out[..base] == out0[..base] && out[from..] == out0[from..]
    ensures Splice(out, at, b)[..base] == out0[..base] && Splice(out, at, b)[to..] == out0[to..]
  {
  }

  function CursorAfter(c: Cursor, t: Token): Cursor {
    Cursor(c.src + Covers(t), c.cptr, c.dst + |TokenBytes(t)|, PushFlag(c.cword, t))
  }

  lemma BuildToken(s: seq<Byte>, ts: seq<Token>, out0: seq<Byte>, out: seq<Byte>, base: nat, c: Cursor, e: Trace,
                   t: Token, rest: seq<Token>)
    requires Building(s, ts, out0, out, base, c, e) && e.rest == [t] + rest && |e.cur| < GROUP
    requires c.src + Covers(t) <= |s| && c.dst + |TokenBytes(t)| <= |out|
    ensures Building(s, ts, out0, Splice(out, c.dst, TokenBytes(t)), base, CursorAfter(c, t),
                     Trace(e.done, e.cur + [t], rest))
  {
    hide Layout, Payload, TokenBytes;
    var b := TokenBytes(t);
    assert Emitting(Splice(out, c.dst, b), base, c.cptr, c.dst + |b|, e.done, e.cur + [t]) by {
      EmitToken(out, base, c.cptr, c.dst, e.done, e.cur, t);
    }
    assert PushFlag(c.cword, t) == ControlWord(e.cur + [t]) by {
      ControlWordPush(e.cur, t);
    }
    ProgressToken(s, ts, c.src, e.done, e.cur, t, rest);
    SpliceKeepsOutside(out0, out, base, c.dst, b, c.dst, c.dst + |b|);
  }

  lemma BuildGroup(s: seq<Byte>, ts: seq<Token>, out0: seq<Byte>, out: seq<Byte>, base: nat, c: Cursor, e: Trace,
                   w: seq<Byte>)
    requires Building(s, ts, out0, out, base, c, e) && |e.cur| == GROUP
    requires w == LittleEndian(Flags(e.cur) + TOP, CWORD_LEN) && c.dst + CWORD_LEN <= |out|
    requires !GivesUpAt(s, ts, |e.done| + GROUP)
    ensures Building(s, ts, out0, Splice(out, c.cptr, w), base, Cursor(c.src, c.dst, c.dst + CWORD_LEN, TOP),
                     Trace(e.done + e.cur, [], e.rest))
  {
    hide Layout, Payload, LittleEndian, Flags, GivesUpAt;
    EmitFullGroup(out, base, c.cptr, c.dst, e.done, e.cur, w);
    ProgressFlush(s, ts, c.src, e.done, e.cur, e.rest);
    SpliceKeepsOutside(out0, out, base, c.cptr, w, c.dst, c.dst + CWORD_LEN);
  }

  lemma BuildingSize(s: seq<Byte>, ts: seq<Token>, out0: seq<Byte>, out: seq<Byte>, base: nat, c: Cursor, e: Trace)
    requires Building(s, ts, out0, out, base, c, e)
    ensures c.dst <= c.cptr + CWORD_LEN + 4 * |e.cur| && c.src <= |s| && |e.cur| <= GROUP
    ensures c.cword % 2 == 1 <==> |e.cur| == GROUP
  {
    OutputBound(out, base, c.cptr, c.dst, e.done, e.cur);
    ControlWordFull(e.cur);
  }

  lemma FullGroupSize(s: seq<Byte>, ts: seq<Token>, out0: seq<Byte>, out: seq<Byte>, base: nat, c: Cursor, e: Trace)
    requires Building(s, ts, out0, out, base, c, e) && |e.cur| == GROUP
    ensures c.cword / 2 == Flags(e.cur)
    ensures c.dst - base == |Layout(e.done + e.cur)|
  {
    OutputBound(out, base, c.cptr, c.dst, e.done, e.cur);
    ControlWordFull(e.cur);
    LayoutNextGroup(e.done, e.cur);
  }

  /** Where the ratio is not poor, or half way is not reached, the output is no longer than the input. */
  lemma FlushSize(s: seq<Byte>, done: seq<Token>, src: nat)
    requires |done| % GROUP == 0 && src == Span(done) <= |s|
    requires !Poor(|s|, src, |Layout(done)|)
    ensures |Layout(done)| <= |s|
  {
    LayoutLength(done);
    PayloadLength(done);
  }

  method WriteLiteral(b: Byte, destination: array<Byte>, dst: nat)
    requires dst < destination.Length
    modifies destination
    ensures destination[..] == Splice(old(destination[..]), dst, TokenBytes(Literal(b)))
  {
    destination[dst] := b;
  }

  /** The tokens of the last, literal-only stretch. */
  function Literals(s: seq<Byte>, i: nat): seq<Token>
    requires i <= |s|
    decreases |s| - i
  {
    if i == |s| then [] else [Literal(s[i])] + Literals(s, i + 1)
  }

  /** The capacity every caller provides: the core's output area may exceed the input by this much. */
  ghost predicate Room(s: seq<Byte>, destination: array<Byte>, base: nat) {
    base + |s| + CORE_OVERHEAD <= destination.Length
  }

  /** Stores the full control word and reserves the next one. */
  method FlushGroup(source: seq<Byte>, destination: array<Byte>, base: nat, c: Cursor, ghost ts: seq<Token>,
                    ghost out0: seq<Byte>, ghost e: Trace)
    returns (c': Cursor)
    requires Building(source, ts, out0, destination[..], base, c, e) && |e.cur| == GROUP
    requires !GivesUpAt(source, ts, |e.done| + GROUP)
    requires c.dst + CWORD_LEN <= destination.Length
    modifies destination
    ensures c' == Cursor(c.src, c.dst, c.dst + CWORD_LEN, TOP)
    ensures Building(source, ts, out0, destination[..], base, c', Trace(e.done + e.cur, [], e.rest))
  {
    hide Layout, Payload, LittleEndian;
    FullGroupSize(source, ts, out0, destination[..], base, c, e);
    ghost var w := LittleEndian(c.cword / 2 + TOP, CWORD_LEN);
    BuildGroup(source, ts, out0, destination[..], base, c, e, w);
    FastWrite(c.cword / 2 + TOP, destination, c.cptr, CWORD_LEN);
    c' := Cursor(c.src, c.dst, c.dst + CWORD_LEN, TOP);
  }

  /** The test of the main loop is the giving-up condition; passing it bounds the output. */
  lemma PoorAtFlush(s: seq<Byte>, ts: seq<Token>, out0: seq<Byte>, out: seq<Byte>, base: nat, c: Cursor, e: Trace)
    requires Building(s, ts, out0, out, base, c, e) && |e.cur| == GROUP && e.rest != []
    requires c.src <= LastMatchStart(s)
    ensures base <= c.dst && (Poor(|s|, c.src, c.dst - base) <==> GivesUpAt(s, ts, |e.done| + GROUP))
    ensures !Poor(|s|, c.src, c.dst - base) ==> c.dst <= base + |s|
  {
    hide Layout, Flags, Payload, ControlWord;
    FullGroupSize(s, ts, out0, out, base, c, e);
    FlushPoint(s, ts, c.src, e.done, e.cur, e.rest);
    if !Poor(|s|, c.src, c.dst - base) {
      FlushSize(s, e.done + e.cur, c.src);
    }
  }

  /** A full control word: give up when the ratio is too low, else store it and open the next group. */
  method FlushOrGiveUp(source: seq<Byte>, destination: array<Byte>, base: nat, c: Cursor, ghost ts: seq<Token>,
                       ghost out0: seq<Byte>, ghost e: Trace)
    returns (goOn: bool, c': Cursor)
    requires Room(source, destination, base) && e.rest != []
    requires c.src <= LastMatchStart(source) && c.cptr <= base + |source|
    requires Building(source, ts, out0, destination[..], base, c, e) && c.cword % 2 == 1
    modifies destination
    ensures if goOn then
              && c' == Cursor(c.src, c.dst, c.dst + CWORD_LEN, TOP) && c.dst <= base + |source|
              && Building(source, ts, out0, destination[..], base, c', Trace(e.done + e.cur, [], e.rest))
            else
              && c' == c && GivesUpAt(source, ts, |e.done| + GROUP)
              && Building(source, ts, out0, destination[..], base, c, e)
  {
    BuildingSize(source, ts, out0, destination[..], base, c, e);
    PoorAtFlush(source, ts, out0, destination[..], base, c, e);
    if c.src > |source| / 2 && c.dst - base > c.src - c.src / 32 {
      return false, c;
    }
    c' := FlushGroup(source, destination, base, c, ts, out0, e);
    goOn := true;
  }

  lemma BuildStart(s: seq<Byte>, ts: seq<Token>, out: seq<Byte>, base: nat)
    requires base + CWORD_LEN <= |out|
    ensures Building(s, ts, out, out, base, Cursor(0, base, base + CWORD_LEN, TOP), Trace([], [], ts))
  {
  }

  lemma TailNeverGivesUp(s: seq<Byte>, ts: seq<Token>, out0: seq<Byte>, out: seq<Byte>, base: nat, c: Cursor, e: Trace)
    requires Building(s, ts, out0, out, base, c, e) && |e.cur| == GROUP
    requires LastMatchStart(s) < c.src < |s| && e.rest == Literals(s, c.src)
    ensures !GivesUpAt(s, ts, |e.done| + GROUP)
  {
    hide Layout;
    FlushPoint(s, ts, c.src, e.done, e.cur, e.rest);
  }

  /** A full control word in the literal tail is stored without looking at the ratio. */
  method TailFlush(source: seq<Byte>, destination: array<Byte>, base: nat, c: Cursor, ghost ts: seq<Token>,
                   ghost out0: seq<Byte>, ghost e: Trace)
    returns (c': Cursor, ghost e': Trace)
    requires Building(source, ts, out0, destination[..], base, c, e)
    requires LastMatchStart(source) < c.src < |source| && e.rest == Literals(source, c.src)
    requires c.dst + (if |e.cur| == GROUP then CWORD_LEN else 0) <= destination.Length
    modifies destination
    ensures Building(source, ts, out0, destination[..], base, c', e') && |e'.cur| < GROUP
    ensures c'.src == c.src && e'.rest == e.rest && |e.cur| <= GROUP
    ensures |e'.cur| == (if |e.cur| == GROUP then 0 else |e.cur|)
    ensures c'.dst == c.dst + if |e.cur| == GROUP then CWORD_LEN else 0
  {
    hide Building, Layout, GivesUpAt;
    c', e' := c, e;
    BuildingSize(source, ts, out0, destination[..], base, c, e);
    if c.cword % 2 == 1 {
      TailNeverGivesUp(source, ts, out0, destination[..], base, c, e);
      c' := FlushGroup(source, destination, base, c, ts, out0, e);
      e' := Trace(e.done + e.cur, [], e.rest);
    }
  }

  method TailLiteral(source: seq<Byte>, destination: array<Byte>, base: nat, c: Cursor, ghost ts: seq<Token>,
                     ghost out0: seq<Byte>, ghost e: Trace)
    returns (c': Cursor, ghost e': Trace)
    requires Building(source, ts, out0, destination[..], base, c, e) && |e.cur| < GROUP
    requires c.src < |source| && e.rest == Literals(source, c.src) && c.dst < destination.Length
    modifies destination
    ensures c' == Cursor(c.src + 1, c.cptr, c.dst + 1, c.cword / 2)
    ensures e' == Trace(e.done, e.cur + [Literal(source[c.src])], Literals(source, c.src + 1))
    ensures Building(source, ts, out0, destination[..], base, c', e')
  {
    ghost var t, out := Literal(source[c.src]), destination[..];
    BuildToken(source, ts, out0, out, base, c, e, t, Literals(source, c.src + 1));
    WriteLiteral(source[c.src], destination, c.dst);
    c' := Cursor(c.src + 1, c.cptr, c.dst + 1, c.cword / 2);
    e' := Trace(e.done, e.cur + [t], Literals(source, c.src + 1));
  }

  /** `while((cword_val & 1) != 1) cword_val >>= 1`, and then the flags above the sentinel. */
  method ShiftIntoPlace(cword: nat, ghost cur: seq<Token>) returns (flags: nat)
    requires |cur| <= GROUP && cword == ControlWord(cur)
    ensures flags == Flags(cur)
  {
    hide Pow2, Flags, ControlWord;
    ghost var x, k := 1 + 2 * Flags(cur), GROUP - |cur|;
    var w := cword;
    ControlWordForm(cur);
    while w % 2 != 1
      invariant k >= 0 && w == Pow2(k) * x
      decreases k
    {
      ShiftOutZero(w, k, x);
      w := w / 2;
      k := k - 1;
    }
    ShiftOutZero(w, k, x);
    flags := w / 2;
  }

  /** Shifts the open control word into place and stores it. */
  method Finish(source: seq<Byte>, destination: array<Byte>, base: nat, c: Cursor, ghost ts: seq<Token>,
                ghost out0: seq<Byte>, ghost e: Trace)
    requires Building(source, ts, out0, destination[..], base, c, e) && e.rest == [] && e.cur != []
    modifies destination
    ensures !GivesUp(source, ts)
    ensures base <= c.dst <= destination.Length
    ensures destination[base..c.dst] == Layout(ts)
    ensures destination[..base] == out0[..base] && destination[c.dst..] == out0[c.dst..]
  {
    var flags := ShiftIntoPlace(c.cword, e.cur);
    ghost var out, w := destination[..], LittleEndian(flags + TOP, CWORD_LEN);
    FastWrite(flags + TOP, destination, c.cptr, CWORD_LEN);
    EmitGroup(out, base, c.cptr, c.dst, e.done, e.cur, w);
    SpliceKeepsOutside(out0, out, base, c.cptr, w, c.dst, c.dst);
    ProgressComplete(source, ts, c.src, e.done, e.cur);
  }
}
