/**
  What the level 3 compressor decides, as a function of the plain bytes alone: `Tokens3(s)`.  Every hash
  slot keeps the last 16 positions entered into it; the longest of the matches they offer is taken, and
  among equally long ones the nearest.
 */
module QlzLevel3Parse {
  import opened Words
  import opened QlzFormat
  import opened QlzParse
  import opened QlzLevel3
  import opened QlzOutput

  const BUCKET_SIZE := 16

  /** The counter of a slot is a byte. */
  const COUNTS := 256

  /** A match may lead back by less than this. */
  const TOO_FAR := 131071

  /** Slot by slot the positions entered so far, oldest first. */
  type History = map<Slot, seq<nat>>

  function Entered(B: History, h: Slot): seq<nat> {
    if h in B then B[h] else []
  }

  function Enter(s: seq<Byte>, B: History, i: nat): History
    requires i + 3 <= |s|
  {
    B[Hash(s, i) := Entered(B, Hash(s, i)) + [i]]
  }

  /** The positions `i .. j - 1` entered in order. */
  function EnterUpto(s: seq<Byte>, B: History, i: nat, j: nat): History
    requires i <= j && j + 2 <= |s|
    decreases j - i
  {
    if i < j then Enter(s, EnterUpto(s, B, i, j - 1), j - 1) else B
  }

  ghost predicate AllBelow(P: seq<nat>, i: nat) {
    forall j :: 0 <= j < |P| ==> P[j] < i
  }

  ghost predicate Below(B: History, i: nat) {
    forall h: Slot :: AllBelow(Entered(B, h), i)
  }

  /** What entry `k` of the bucket holds: the last position whose number is `k` modulo 16. */
  function Entry(P: seq<nat>, k: nat): nat
    requires k < |P| && k < BUCKET_SIZE
  {
    P[k + (|P| - 1 - k) / BUCKET_SIZE * BUCKET_SIZE]
  }

  /** Entry `k` is one the wrapping counter calls valid, and offers a match at `i`. */
  predicate Offers(s: seq<Byte>, i: nat, P: seq<nat>, k: nat)
    requires i + 3 <= |s|
  {
    k < BUCKET_SIZE && k < |P| % COUNTS && Entry(P, k) + 3 <= i && Fetch(s, Entry(P, k)) == Fetch(s, i)
  }

  /** A match of `len` bytes at `pos`; length 0 for none. */
  datatype Candidate = Candidate(len: nat, pos: nat)

  const NONE := Candidate(0, 0)

  predicate AtMost(a: Candidate, b: Candidate) {
    a.len < b.len || (a.len == b.len && a.pos <= b.pos)
  }

  ghost predicate IsCandidate(s: seq<Byte>, i: nat, c: Candidate)
    requires i <= LastMatchStart(s)
  {
    && 3 <= c.len <= Remaining(s, i) && c.pos + 3 <= i
    && s[c.pos..c.pos + c.len] == s[i..i + c.len]
  }

  function Offered(s: seq<Byte>, i: nat, P: seq<nat>, k: nat): (c: Candidate)
    requires i <= LastMatchStart(s) && Offers(s, i, P, k)
    ensures IsCandidate(s, i, c)
  {
    Candidate(MatchLengthAt(s, Entry(P, k), i), Entry(P, k))
  }

  /** The best match that the first `n` entries offer. */
  function Best(s: seq<Byte>, i: nat, P: seq<nat>, n: nat): (b: Candidate)
    requires i <= LastMatchStart(s)
    ensures b == NONE || IsCandidate(s, i, b)
  {
    if n == 0 then NONE
    else
      var b := Best(s, i, P, n - 1);
      if Offers(s, i, P, n - 1) && !AtMost(Offered(s, i, P, n - 1), b) then Offered(s, i, P, n - 1) else b
  }

  /** No offer is longer than the best one, or as long and nearer; and the best one is offered, unless nothing is. */
  lemma {:induction false} BestIsBest(s: seq<Byte>, i: nat, P: seq<nat>, n: nat)
    requires i <= LastMatchStart(s)
    ensures forall k: nat :: k < n && Offers(s, i, P, k) ==> AtMost(Offered(s, i, P, k), Best(s, i, P, n))
    ensures Best(s, i, P, n) == NONE ||
            exists k: nat :: k < n && Offers(s, i, P, k) && Offered(s, i, P, k) == Best(s, i, P, n)
  {
    hide Offers, Offered, IsCandidate;
    if n > 0 {
      BestIsBest(s, i, P, n - 1);
    }
  }

  /** The token for position `i`: the best match of its slot when it is near enough, else a literal. */
  function Token3(s: seq<Byte>, i: nat, B: History): (t: Token)
    requires i < |s|
    ensures FitsFar(s, i, t)
  {
    if i > LastMatchStart(s) then Literal(s[i])
    else
      var b := Best(s, i, Entered(B, Hash(s, i)), BUCKET_SIZE);
      if b.len > 2 && i - b.pos < TOO_FAR then Far(i - b.pos, b.len) else Literal(s[i])
  }

  /** Every position a match covers is entered too. */
  function History3(s: seq<Byte>, i: nat, B: History): History
    requires i < |s|
  {
    if i <= LastMatchStart(s) then EnterUpto(s, B, i, i + Covers(Token3(s, i, B))) else B
  }

  /** The tokens for `s[i..]`. */
  function Parse3(s: seq<Byte>, i: nat, B: History): seq<Token>
    requires i <= |s|
    decreases |s| - i
  {
    if i == |s| then []
    else
      var t := Token3(s, i, B);
      [t] + Parse3(s, i + Covers(t), History3(s, i, B))
  }

  function Tokens3(s: seq<Byte>): seq<Token> {
    Parse3(s, 0, map[])
  }

  lemma Parse3More(s: seq<Byte>, i: nat, B: History)
    requires i < |s|
    ensures var t := Token3(s, i, B);
            Parse3(s, i, B) == [t] + Parse3(s, i + Covers(t), History3(s, i, B))
  {
  }

  /** The compressor's tokens decode to the input, from any position and whatever was entered before. */
  lemma {:induction false} Parse3Decodes(s: seq<Byte>, i: nat, B: History)
    requires i <= |s|
    ensures DecodesFar(s, i, Parse3(s, i, B)) && Span(Parse3(s, i, B)) == |s| - i
    decreases |s| - i
  {
    hide Token3, History3, FitsFar;
    if i < |s| {
      var t := Token3(s, i, B);
      FitsCovers(s, i, t);
      var rest := Parse3(s, i + Covers(t), History3(s, i, B));
      Parse3Decodes(s, i + Covers(t), History3(s, i, B));
      assert ([t] + rest)[1..] == rest;
    }
  }

  lemma Tokens3Decode(s: seq<Byte>)
    ensures DecodesFar(s, 0, Tokens3(s)) && Span(Tokens3(s)) == |s|
  {
    Parse3Decodes(s, 0, map[]);
  }

  lemma {:induction false} TailParse3(s: seq<Byte>, i: nat, B: History)
    requires LastMatchStart(s) < i <= |s|
    ensures Parse3(s, i, B) == Literals(s, i)
    decreases |s| - i
  {
    if i < |s| {
      TailParse3(s, i + 1, B);
    }
  }

  // ---- what entering a position does to the bucket

  /** The new position takes the place of the oldest one; the other entries stay. */
  lemma EntryAfter(P: seq<nat>, i: nat, k: nat)
    requires k < |P + [i]| && k < BUCKET_SIZE
    ensures k == |P| % BUCKET_SIZE ==> Entry(P + [i], k) == i
    ensures k != |P| % BUCKET_SIZE ==> k < |P| && Entry(P + [i], k) == Entry(P, k)
  {
    var q := (|P| - k) / BUCKET_SIZE;
    if k != |P| % BUCKET_SIZE {
      assert (|P| - 1 - k) / BUCKET_SIZE == q;
    }
  }

  lemma EnterBelow(s: seq<Byte>, B: History, i: nat)
    requires Below(B, i) && i + 3 <= |s|
    ensures Below(Enter(s, B, i), i + 1)
  {
    hide Hash;
    var B' := Enter(s, B, i);
    forall h: Slot ensures AllBelow(Entered(B', h), i + 1) {
      assert AllBelow(Entered(B, h), i);
    }
  }
}
