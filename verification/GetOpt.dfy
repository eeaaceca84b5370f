/**
  The permuting option parser of components/liblzo/source/lzo_supp.h: `lzo_getopt` moves operands
  behind the options by rotating blocks of `argv` in place, one block for each call.
 */
module GetOpt {
  import opened Options

  // ---- rotation

  /** `s` with `[first, middle)` moved behind `[middle, last)`. */
  function Rotated<T>(s: seq<T>, first: nat, middle: nat, last: nat): (r: seq<T>)
    requires first <= middle <= last <= |s|
    ensures |r| == |s|
  {
    s[..first] + s[middle..last] + s[first..middle] + s[last..]
  }

  /**
    What the loop still has to make of `s`: up to `first` it is done, `[middle, i)` has come over from
    the left block.
   */
  ghost function RotateTarget<T>(s: seq<T>, first: nat, middle: nat, i: nat, last: nat): seq<T>
    requires first <= middle <= i <= last <= |s|
  {
    s[..first] + s[i..last] + s[middle..i] + s[first..middle] + s[last..]
  }

  lemma SwapKeepsTarget<T>(s: seq<T>, s': seq<T>, first: nat, middle: nat, i: nat, last: nat)
    requires first < middle <= i < last <= |s| && s' == s[first := s[i]][i := s[first]]
    ensures RotateTarget(s', first + 1, middle, i + 1, last) == RotateTarget(s, first, middle, i, last)
  {
  }

  /** A used-up block: the swapped one takes its place. */
  lemma TargetWraps<T>(s: seq<T>, first: nat, middle: nat, i: nat, last: nat)
    requires first <= middle <= i <= last <= |s|
    ensures first == middle ==> RotateTarget(s, first, i, i, last) == RotateTarget(s, first, middle, i, last)
    ensures i == last ==> RotateTarget(s, first, middle, middle, last) == RotateTarget(s, first, middle, i, last)
    ensures first == middle && i == last ==> s == RotateTarget(s, first, middle, i, last)
  {
  }

  method Swap<T>(p: array<T>, first: nat, i: nat, ghost middle: nat, ghost last: nat)
    requires first < middle <= i < last <= p.Length
    modifies p
    ensures RotateTarget(p[..], first + 1, middle, i + 1, last) == RotateTarget(old(p[..]), first, middle, i, last)
  {
    hide RotateTarget;
    ghost var s := p[..];
    p[first], p[i] := p[i], p[first];
    SwapKeepsTarget(s, p[..], first, middle, i, last);
  }

  lemma TargetStarts<T>(s: seq<T>, first: nat, middle: nat, last: nat)
    requires first <= middle <= last <= |s|
    ensures RotateTarget(s, first, middle, middle, last) == Rotated(s, first, middle, last)
  {
  }

  /** `lzo_getopt_rotate`: one pass of swaps. */
  method Rotate<T>(p: array<T>, first0: nat, middle0: nat, last: nat) returns (n: int)
    requires last <= p.Length
    modifies p
    ensures first0 < middle0 < last ==> n == middle0 - first0 && p[..] == Rotated(old(p[..]), first0, middle0, last)
    ensures !(first0 < middle0 < last) ==> n == 0 && p[..] == old(p[..])
  {
    var first, middle := first0, middle0;
    var i := middle;
    n := middle - first;
    if first >= middle || middle >= last {
      return 0;
    }
    hide RotateTarget, Rotated;
    TargetStarts(p[..], first, middle, last);
    ghost var target := Rotated(p[..], first, middle, last);
    while true
      invariant first < middle <= i < last && RotateTarget(p[..], first, middle, i, last) == target
      decreases last - first
    {
      Swap(p, first, i, middle, last);
      first := first + 1;
      i := i + 1;
      TargetWraps(p[..], first, middle, i, last);
      if first == middle {
        if i == last {
          break;
        }
        middle := i;
      } else if i == last {
        i := middle;
      }
    }
  }

  // ---- the option definitions

  datatype Ordering = Permute | ReturnInOrder | RequireOrder

  /** `has_arg & 0x2f`: LZO_GETOPT_REQUIRED_ARG | 0x20 takes its argument only after `=`. */
  datatype ArgRule = NoArg | Required | Optional | RequiredInWord

  datatype LongOpt = LongOpt(name: string, rule: ArgRule, exact: bool, flag: bool, val: int)

  /** The options of a run: `shortopts` without its leading marks, what these ask for, and `longopts`. */
  datatype Config = Config(ordering: Ordering, bad: int, missing: int, short: Option<string>, long: seq<LongOpt>)

  /** One return from `lzo_getopt` before the end: the code, `optarg`, `*longind`, and `optopt` where it is set. */
  datatype Event = Event(ret: int, optarg: Option<string>, longind: int, error: bool, optopt: Option<int>)

  function Configure(shortopts: Option<string>, longopts: seq<LongOpt>, bad: int): Config {
    match shortopts
    case None => Config(Permute, bad, bad, None, longopts)
    case Some(s) =>
      var ordering :=
        if s != [] && s[0] == '-' then ReturnInOrder
        else if s != [] && s[0] == '+' then RequireOrder
        else Permute;
      var s1 := if ordering.Permute? then s else s[1..];
      if s1 != [] && s1[0] == ':' then Config(ordering, bad, ':' as int, Some(s1[1..]), longopts)
      else Config(ordering, bad, bad, Some(s1), longopts)
  }

  /** The definition starts with `mark`. */
  predicate StartsWith(shortopts: Option<string>, mark: char) {
    shortopts.Some? && shortopts.value != [] && shortopts.value[0] == mark
  }

  /** A colon comes first in the definition, or right behind its mark. */
  predicate ColonAhead(shortopts: Option<string>) {
    || StartsWith(shortopts, ':')
    || ((StartsWith(shortopts, '-') || StartsWith(shortopts, '+')) &&
        |shortopts.value| > 1 && shortopts.value[1] == ':')
  }

  /** What the first characters of the definition say, and where the option letters begin. */
  lemma ConfigureMeaning(shortopts: Option<string>, longopts: seq<LongOpt>, bad: int)
    ensures var c := Configure(shortopts, longopts, bad);
            && c.ordering == (if StartsWith(shortopts, '-') then ReturnInOrder
                              else if StartsWith(shortopts, '+') then RequireOrder else Permute)
            && c.missing == (if ColonAhead(shortopts) then ':' as int else bad)
            && c.bad == bad && c.long == longopts && c.short.Some? == shortopts.Some?
            && (shortopts.Some? ==>
                  var marks := (if c.ordering.Permute? then 0 else 1) + (if ColonAhead(shortopts) then 1 else 0);
                  marks <= |shortopts.value| && c.short.value == shortopts.value[marks..])
  {
  }

  /** A word that is looked at as an option. */
  predicate IsOption(w: string) {
    |w| >= 2 && w[0] == '-'
  }

  predicate IsLong(w: string) {
    |w| >= 2 && w[0] == '-' && w[1] == '-'
  }

  // ---- one short option

  ghost predicate FirstAt(s: string, c: char, i: nat) {
    i < |s| && s[i] == c && forall k :: 0 <= k < i ==> s[k] != c
  }

  /** `strchr`: the first position of `c`. */
  function Find(s: string, c: char): (i: int)
    ensures -1 <= i < |s|
    ensures if i < 0 then c !in s else FirstAt(s, c, i)
  {
    if s == [] then -1
    else if s[0] == c then 0
    else var i := Find(s[1..], c); if i < 0 then -1 else i + 1
  }

  /** `c` is an option letter of `short`. */
  ghost predicate Known(short: Option<string>, c: char) {
    c != ':' && short.Some? && c in short.value
  }

  ghost predicate ColonsFrom(s: string, i: nat, n: nat) {
    i + n <= |s| && forall k :: i <= k < i + n ==> s[k] == ':'
  }

  /** The first `c` in `short` is followed by `n` colons or more. */
  ghost predicate Marked(short: Option<string>, c: char, n: nat) {
    short.Some? && exists i: nat :: FirstAt(short.value, c, i) && ColonsFrom(short.value, i + 1, n)
  }

  function ShortRule(short: Option<string>, c: char): Option<ArgRule> {
    if c == ':' || short.None? || Find(short.value, c) < 0 then None
    else
      var s := short.value[Find(short.value, c)..];
      if |s| < 2 || s[1] != ':' then Some(NoArg)
      else if |s| < 3 || s[2] != ':' then Some(Required)
      else Some(Optional)
  }

  /** A letter is known when it occurs; the colons behind its first occurrence say whether it takes an argument. */
  lemma ShortRuleMeaning(short: Option<string>, c: char)
    ensures ShortRule(short, c).Some? <==> Known(short, c)
    ensures Known(short, c) ==>
              ShortRule(short, c).value
              == if !Marked(short, c, 1) then NoArg else if !Marked(short, c, 2) then Required else Optional
  {
    if Known(short, c) {
      var s := short.value;
      var i := Find(s, c);
      forall k: nat | FirstAt(s, c, k) ensures k == i {
        assert !(k < i) && !(i < k);
      }
      assert ColonsFrom(s, i + 1, 1) <==> i + 1 < |s| && s[i + 1] == ':';
      assert ColonsFrom(s, i + 1, 2) <==> i + 2 < |s| && s[i + 1] == ':' && s[i + 2] == ':';
    }
  }

  /** What the option letter `w[p]` gives, and how many words are used up with it: none while the cluster goes on. */
  function ShortStep(c: Config, w: string, p: nat, next: Option<string>): (r: (Event, nat))
    requires p < |w|
    ensures r.1 <= 2 && (r.1 == 2 ==> next.Some?) && (r.1 == 0 ==> p + 1 < |w|)
  {
    var letter := w[p];
    var rest := w[p + 1..];
    var rule := ShortRule(c.short, letter);
    if rule.None? then
      (Event(c.bad, None, -1, true, Some(letter as int)), if rest == [] then 1 else 0)
    else if rule.value.NoArg? then
      (Event(letter as int, None, -1, false, None), if rest == [] then 1 else 0)
    else if rest != [] then
      (Event(letter as int, Some(rest), -1, false, None), 1)
    else if rule.value.Optional? then
      (Event(letter as int, None, -1, false, None), 1)
    else if next.Some? then
      (Event(letter as int, next, -1, false, None), 2)
    else
      (Event(c.missing, None, -1, true, Some(letter as int)), 1)
  }

  /**
    The letter's return in terms of `shortopts`: an argument is the rest of the word or, for a required
    one at the word's end, the whole next word; an unknown letter and a missing argument are errors.
   */
  lemma ShortStepMeaning(c: Config, w: string, p: nat, next: Option<string>)
    requires p < |w|
    ensures var (e, used) := ShortStep(c, w, p, next);
            var known := Known(c.short, w[p]);
            var takes := known && Marked(c.short, w[p], 1);
            var required := takes && !Marked(c.short, w[p], 2);
            var rest := w[p + 1..];
            && (e.error <==> !known || (required && rest == [] && next.None?))
            && e.ret == (if !known then c.bad else if e.error then c.missing else w[p] as int)
            && e.optopt == (if e.error then Some(w[p] as int) else None) && e.longind == -1
            && e.optarg == (if takes && rest != [] then Some(rest) else if required then next else None)
            && used == (if required && rest == [] && next.Some? then 2 else if !takes && rest != [] then 0 else 1)
  {
    hide Known, Marked, ShortRule;
    ShortRuleMeaning(c.short, w[p]);
  }

  // ---- one long option

  datatype Match = Found(i: nat) | Unrecognized | Ambiguous

  predicate IsPrefix(key: string, name: string) {
    |key| <= |name| && name[..|key|] == key
  }

  /** `key` names option `i` in full, and no option before it. */
  ghost predicate FirstExact(long: seq<LongOpt>, key: string, i: nat) {
    && i < |long| && long[i].name == key
    && forall k :: 0 <= k < i ==> long[k].name != key
  }

  /** `key` abbreviates option `i` and no other. */
  ghost predicate OnlyAbbreviated(long: seq<LongOpt>, key: string, i: nat) {
    && i < |long| && IsPrefix(key, long[i].name)
    && forall k :: 0 <= k < |long| && k != i ==> !IsPrefix(key, long[k].name)
  }

  /** The position of the name's end: `=`, `#` or the end of the word. */
  function KeyEnd(s: string): (l: nat)
    ensures l <= |s| && (l < |s| ==> s[l] == '=' || s[l] == '#')
    ensures forall k :: 0 <= k < l ==> s[k] != '=' && s[k] != '#'
  {
    if s == [] || s[0] == '=' || s[0] == '#' then 0 else 1 + KeyEnd(s[1..])
  }

  /** The search loop from option `k` on; `first` and `second` are the abbreviated options so far. */
  function Search(long: seq<LongOpt>, key: string, k: nat, first: Option<nat>, second: Option<nat>,
                  needExact: bool): (m: Match)
    requires k <= |long| && (first.Some? ==> first.value < |long|)
    ensures m.Found? ==> m.i < |long|
    decreases |long| - k
  {
    if k == |long| then
      if first.None? || needExact then Unrecognized else if second.Some? then Ambiguous else Found(first.value)
    else if !IsPrefix(key, long[k].name) then Search(long, key, k + 1, first, second, needExact)
    else if |long[k].name| == |key| then Found(k)
    else if first.Some? then Search(long, key, k + 1, first, Some(k), needExact || long[k].exact)
    else Search(long, key, k + 1, Some(k), second, needExact || long[k].exact)
  }

  function Lookup(long: seq<LongOpt>, key: string): (m: Match)
    ensures m.Found? ==> m.i < |long|
  {
    if key == [] then Unrecognized else Search(long, key, 0, None, None, false)
  }

  /** `tail` is what follows the name in the word, its first character being the separator. */
  function LongArgument(c: Config, o: LongOpt, i: nat, tail: string, next: Option<string>): (r: (Event, nat))
    ensures 1 <= r.1 <= 2 && (r.1 == 2 ==> next.Some?)
  {
    var ok := (optarg: Option<string>) => Event(if o.flag then 0 else o.val, optarg, i, false, None);
    var missing := Event(c.missing, None, -1, true, None);
    match o.rule
    case Optional => (ok(if tail != [] then Some(tail[1..]) else None), 1)
    case Required =>
      if tail != [] then (ok(Some(tail[1..])), 1) else if next.Some? then (ok(next), 2) else (missing, 1)
    case RequiredInWord => if |tail| >= 2 then (ok(Some(tail[1..])), 1) else (missing, 1)
    case NoArg => if tail != [] then (Event(c.bad, None, -1, true, None), 1) else (ok(None), 1)
  }

  /** What the long option `w` gives, and how many words are used up. */
  function LongStep(c: Config, w: string, next: Option<string>): (r: (Event, nat))
    requires IsLong(w)
    ensures 1 <= r.1 <= 2 && (r.1 == 2 ==> next.Some?)
  {
    var s := w[2..];
    var l := KeyEnd(s);
    match Lookup(c.long, s[..l])
    case Found(i) => LongArgument(c, c.long[i], i, s[l..], next)
    case _ => (Event(c.bad, None, -1, true, None), 1)
  }

  /**
    The long option's return: its name is looked up, and its rule decides about the text behind the
    separator, if there is one, and about the next word.
   */
  lemma LongStepMeaning(c: Config, w: string, next: Option<string>)
    requires IsLong(w)
    ensures var (e, used) := LongStep(c, w, next);
            var l := KeyEnd(w[2..]);
            var m := Lookup(c.long, w[2..][..l]);
            var text := if l < |w| - 2 then Some(w[l + 3..]) else None;
            if !m.Found? then e == Event(c.bad, None, -1, true, None) && used == 1
            else
              var o := c.long[m.i];
              var refused := o.rule.NoArg? && text.Some?;
              var lacking := || (o.rule.Required? && text.None? && next.None?)
                             || (o.rule.RequiredInWord? && (text.None? || text == Some("")));
              var fromNext := o.rule.Required? && text.None? && next.Some?;
              && (e.error <==> refused || lacking) && e.optopt == None
              && e.ret == (if refused then c.bad else if lacking then c.missing else if o.flag then 0 else o.val)
              && e.longind == (if e.error then -1 else m.i) && used == (if fromNext then 2 else 1)
              && e.optarg == (if e.error then None else if fromNext then next else text)
  {
    hide Lookup;
    var s := w[2..];
    var l := KeyEnd(s);
    assert l < |s| ==> s[l..][1..] == w[l + 3..];
  }

  /** The options before `k` that `key` abbreviates: none, one or more, and whether one of them must not be. */
  ghost predicate Seen(long: seq<LongOpt>, key: string, k: nat, first: Option<nat>, second: Option<nat>,
                       needExact: bool) {
    && k <= |long| && (forall j :: 0 <= j < k ==> long[j].name != key)
    && (first.None? ==> second.None? && !needExact && forall j :: 0 <= j < k ==> !IsPrefix(key, long[j].name))
    && (first.Some? ==> first.value < k && IsPrefix(key, long[first.value].name))
    && (first.Some? && second.None? ==>
          && needExact == long[first.value].exact
          && forall j :: 0 <= j < k && j != first.value ==> !IsPrefix(key, long[j].name))
    && (second.Some? ==> first.Some? && first.value < second.value < k && IsPrefix(key, long[second.value].name))
  }

  lemma {:induction false} SearchMeaning(long: seq<LongOpt>, key: string, k: nat, first: Option<nat>,
                                         second: Option<nat>, needExact: bool, i: nat)
    requires Seen(long, key, k, first, second, needExact)
    ensures Search(long, key, k, first, second, needExact) == Found(i) <==>
            FirstExact(long, key, i) || (OnlyAbbreviated(long, key, i) && long[i].name != key && !long[i].exact)
    decreases |long| - k
  {
    if k == |long| {
    } else if !IsPrefix(key, long[k].name) {
      SearchMeaning(long, key, k + 1, first, second, needExact, i);
    } else if |long[k].name| == |key| {
      assert long[k].name == key && FirstExact(long, key, k);
    } else if first.Some? {
      SearchMeaning(long, key, k + 1, first, Some(k), needExact || long[k].exact, i);
    } else {
      SearchMeaning(long, key, k + 1, Some(k), second, needExact || long[k].exact, i);
    }
  }

  /** Option `i` is found when it is the first of that name, or the only one so abbreviated and may be abbreviated. */
  lemma LookupMeaning(long: seq<LongOpt>, key: string, i: nat)
    ensures Lookup(long, key) == Found(i) <==>
            key != [] && (FirstExact(long, key, i) ||
                          (OnlyAbbreviated(long, key, i) && long[i].name != key && !long[i].exact))
  {
    if key != [] {
      SearchMeaning(long, key, 0, None, None, false, i);
    }
  }

  // ---- the reference: one pass over the original words, nothing moved

  /** What a run gives: its returns, the words used by options, and the operands, both in their order. */
  datatype Outcome = Outcome(events: seq<Event>, options: seq<string>, operands: seq<string>)

  function NextWord(args: seq<string>): Option<string> {
    if |args| > 1 then Some(args[1]) else None
  }

  /** A cluster of option letters from letter `p` on, and the words it uses up. */
  function Cluster(c: Config, w: string, p: nat, next: Option<string>): (r: (seq<Event>, nat))
    requires p < |w|
    ensures 1 <= r.1 <= 2 && (r.1 == 2 ==> next.Some?)
    decreases |w| - p
  {
    var (e, used) := ShortStep(c, w, p, next);
    if used > 0 then ([e], used)
    else
      var (es, n) := Cluster(c, w, p + 1, next);
      ([e] + es, n)
  }

  function OperandEvent(w: string): Event {
    Event(1, Some(w), -1, false, None)
  }

  function Scan(c: Config, args: seq<string>): Outcome
    decreases |args|
  {
    if args == [] then Outcome([], [], [])
    else if !IsOption(args[0]) then
      match c.ordering
      case Permute =>
        var r := Scan(c, args[1..]);
        r.(operands := [args[0]] + r.operands)
      case ReturnInOrder =>
        var r := Scan(c, args[1..]);
        Outcome([OperandEvent(args[0])] + r.events, [args[0]] + r.options, r.operands)
      case RequireOrder => Outcome([], [], args)
    else if args[0] == "--" then Outcome([], ["--"], args[1..])
    else if IsLong(args[0]) then
      var (e, used) := LongStep(c, args[0], NextWord(args));
      var r := Scan(c, args[used..]);
      Outcome([e] + r.events, args[..used] + r.options, r.operands)
    else
      var (es, used) := Cluster(c, args[0], 1, NextWord(args));
      var r := Scan(c, args[used..]);
      Outcome(es + r.events, args[..used] + r.options, r.operands)
  }

  // ---- the state machine that the code goes through

  /**
    The words as the parser holds them: `done` and `pending` are used by options, `operands` have been
    passed over, and `rest` is still to come; inside a cluster its letter `shortpos` was the last.
   */
  datatype View = View(done: seq<string>, operands: seq<string>, pending: seq<string>, rest: seq<string>,
                       shortpos: nat, eof: bool)

  /** Inside a cluster there is a next letter. */
  predicate InCluster(v: View) {
    v.shortpos > 0 ==> v.rest != [] && v.shortpos + 1 < |v.rest[0]|
  }

  ghost predicate Proper(c: Config, v: View): (ok: bool)
    ensures ok ==> InCluster(v)
  {
    && (v.eof ==> v.pending == [] && v.rest == [] && v.shortpos == 0)
    && (!v.eof ==> forall k :: 0 <= k < |v.operands| ==> !IsOption(v.operands[k]))
    && (!v.eof && !c.ordering.Permute? ==> v.operands == [])
    && (!v.eof && v.shortpos == 0 && v.operands != [] ==> v.pending != [])
    && (v.shortpos > 0 ==>
          v.pending == [] && v.rest != [] && IsOption(v.rest[0]) && !IsLong(v.rest[0]) && v.shortpos + 1 < |v.rest[0]|)
  }

  function OperandsAhead(args: seq<string>): (n: nat)
    ensures n <= |args| && (n < |args| ==> IsOption(args[n]))
    ensures forall k :: 0 <= k < n ==> !IsOption(args[k])
  {
    if args == [] || IsOption(args[0]) then 0 else 1 + OperandsAhead(args[1..])
  }

  /** The pending options go in front of the operands; further operands are passed over. */
  function Settle(c: Config, v: View): View {
    var n := if c.ordering.Permute? then OperandsAhead(v.rest) else 0;
    View(v.done + v.pending, v.operands + v.rest[..n], [], v.rest[n..], 0, false)
  }

  function Ended(done: seq<string>, operands: seq<string>): View {
    View(done, operands, [], [], 0, true)
  }

  /** One letter of the cluster at the front of `rest`. */
  function Letter(c: Config, v: View): (r: (View, Option<Event>))
    requires v.rest != [] && v.shortpos + 1 < |v.rest[0]|
  {
    var (e, used) := ShortStep(c, v.rest[0], v.shortpos + 1, NextWord(v.rest));
    if used == 0 then (v.(shortpos := v.shortpos + 1), Some(e))
    else (v.(pending := v.rest[..used], rest := v.rest[used..], shortpos := 0), Some(e))
  }

  /** What a call does once the pending options are settled. */
  function Act(c: Config, s: View): (r: (View, Option<Event>))
    requires s.shortpos == 0
  {
    if s.rest == [] then (Ended(s.done, s.operands), None)
    else if s.rest[0] == "--" then (Ended(s.done + ["--"], s.operands + s.rest[1..]), None)
    else if IsLong(s.rest[0]) then
      var (e, used) := LongStep(c, s.rest[0], NextWord(s.rest));
      (s.(pending := s.rest[..used], rest := s.rest[used..]), Some(e))
    else if IsOption(s.rest[0]) then Letter(c, s)
    else if c.ordering.ReturnInOrder? then
      (s.(pending := s.rest[..1], rest := s.rest[1..]), Some(OperandEvent(s.rest[0])))
    else (Ended(s.done, s.operands + s.rest), None)
  }

  /** One call. */
  function Step(c: Config, v: View): (r: (View, Option<Event>))
    requires InCluster(v)
  {
    if v.eof then (v, None)
    else if v.shortpos > 0 then Letter(c, v)
    else Act(c, Settle(c, v))
  }

  lemma LetterProper(c: Config, v: View)
    requires !v.eof && v.pending == [] && v.rest != [] && IsOption(v.rest[0]) && !IsLong(v.rest[0])
    requires v.shortpos + 1 < |v.rest[0]| && (!c.ordering.Permute? ==> v.operands == [])
    requires forall k :: 0 <= k < |v.operands| ==> !IsOption(v.operands[k])
    ensures Proper(c, Letter(c, v).0)
  {
    hide ShortRule;
  }

  lemma ActProper(c: Config, s: View)
    requires !s.eof && s.shortpos == 0 && s.pending == [] && (!c.ordering.Permute? ==> s.operands == [])
    requires forall k :: 0 <= k < |s.operands| ==> !IsOption(s.operands[k])
    ensures Proper(c, Act(c, s).0)
  {
    hide LongStep, Letter;
    if s.rest != [] && IsOption(s.rest[0]) && !IsLong(s.rest[0]) {
      LetterProper(c, s);
    }
  }

  lemma StepProper(c: Config, v: View)
    requires Proper(c, v)
    ensures Proper(c, Step(c, v).0)
  {
    hide Act, Letter, OperandsAhead;
    if v.eof {
    } else if v.shortpos > 0 {
      LetterProper(c, v);
    } else {
      ActProper(c, Settle(c, v));
    }
  }

  /** All the words that a view holds. */
  ghost function Bag(v: View): multiset<string> {
    multiset(v.done) + multiset(v.operands) + multiset(v.pending) + multiset(v.rest)
  }

  lemma BagLayout(h: seq<string>, v: View)
    ensures multiset(h + v.done + v.operands + v.pending + v.rest) == multiset(h) + Bag(v)
  {
  }

  lemma BagSplit(s: seq<string>, n: nat)
    requires n <= |s|
    ensures multiset(s) == multiset(s[..n]) + multiset(s[n..])
  {
    assert s == s[..n] + s[n..];
  }

  lemma BagMoved(v: View, used: nat, p: nat)
    requires v.pending == [] && used <= |v.rest|
    ensures Bag(v.(pending := v.rest[..used], rest := v.rest[used..], shortpos := 0)) == Bag(v)
    ensures Bag(v.(shortpos := p)) == Bag(v)
  {
    BagSplit(v.rest, used);
  }

  /** A letter leaves the words where they are, or moves those it uses up behind the operands. */
  lemma LetterMoves(c: Config, v: View) returns (used: nat)
    requires v.rest != [] && v.shortpos + 1 < |v.rest[0]|
    ensures used <= |v.rest|
    ensures var v' := Letter(c, v).0;
            || v' == v.(shortpos := v.shortpos + 1)
            || v' == v.(pending := v.rest[..used], rest := v.rest[used..], shortpos := 0)
  {
    hide ShortStep;
    used := ShortStep(c, v.rest[0], v.shortpos + 1, NextWord(v.rest)).1;
  }

  lemma LetterBag(c: Config, v: View)
    requires v.rest != [] && v.shortpos + 1 < |v.rest[0]| && v.pending == []
    ensures Bag(Letter(c, v).0) == Bag(v)
  {
    hide Letter, Bag;
    var used := LetterMoves(c, v);
    BagMoved(v, used, v.shortpos + 1);
  }

  lemma ActBag(c: Config, s: View)
    requires s.shortpos == 0 && s.pending == []
    ensures Bag(Act(c, s).0) == Bag(s)
  {
    hide LongStep, Letter;
    if s.rest != [] {
      BagSplit(s.rest, 1);
      if s.rest[0] == "--" {
        assert s.rest[..1] == ["--"];
      } else if IsLong(s.rest[0]) {
        BagSplit(s.rest, LongStep(c, s.rest[0], NextWord(s.rest)).1);
      } else if IsOption(s.rest[0]) {
        LetterBag(c, s);
      }
    }
  }

  /** A call loses no word and makes none. */
  lemma StepBag(c: Config, v: View)
    requires Proper(c, v)
    ensures Bag(Step(c, v).0) == Bag(v)
  {
    hide Act, Letter, OperandsAhead;
    if v.eof {
    } else if v.shortpos > 0 {
      LetterBag(c, v);
    } else {
      BagSplit(v.rest, if c.ordering.Permute? then OperandsAhead(v.rest) else 0);
      ActBag(c, Settle(c, v));
    }
  }

  lemma StepWords(c: Config, h: seq<string>, v: View)
    requires Proper(c, v)
    ensures var v' := Step(c, v).0;
            multiset(h + v'.done + v'.operands + v'.pending + v'.rest)
            == multiset(h + v.done + v.operands + v.pending + v.rest)
  {
    hide Step, Proper, Bag;
    StepBag(c, v);
    BagLayout(h, v);
    BagLayout(h, Step(c, v).0);
  }

  /** What a run still has to give from `v` on. */
  function Remaining(c: Config, v: View): Outcome
    requires InCluster(v)
  {
    if v.eof then Outcome([], v.done, v.operands)
    else
      var r := if v.shortpos > 0 then
                 var (es, used) := Cluster(c, v.rest[0], v.shortpos + 1, NextWord(v.rest));
                 var t := Scan(c, v.rest[used..]);
                 Outcome(es + t.events, v.rest[..used] + t.options, t.operands)
               else Scan(c, v.rest);
      Outcome(r.events, v.done + v.pending + r.options, v.operands + r.operands)
  }

  lemma ScanPasses(c: Config, args: seq<string>)
    requires c.ordering.Permute? && args != [] && !IsOption(args[0])
    ensures var r := Scan(c, args[1..]); Scan(c, args) == r.(operands := [args[0]] + r.operands)
  {
    hide LongStep, Cluster;
  }

  lemma {:induction false} ScanOperands(c: Config, args: seq<string>)
    requires c.ordering.Permute?
    ensures var n, r := OperandsAhead(args), Scan(c, args[OperandsAhead(args)..]);
            Scan(c, args) == r.(operands := args[..n] + r.operands)
  {
    hide Scan;
    if args == [] || IsOption(args[0]) {
      assert args[0..] == args && args[..0] == [];
    } else {
      var args1 := args[1..];
      var n := OperandsAhead(args1);
      ScanPasses(c, args);
      ScanOperands(c, args1);
      assert args1[n..] == args[n + 1..] && [args[0]] + args1[..n] == args[..n + 1];
    }
  }

  lemma SettleRemaining(c: Config, v: View)
    requires Proper(c, v) && !v.eof && v.shortpos == 0
    ensures Remaining(c, Settle(c, v)) == Remaining(c, v)
  {
    hide Scan, OperandsAhead, Cluster;
    var n := if c.ordering.Permute? then OperandsAhead(v.rest) else 0;
    var r := Scan(c, v.rest[n..]);
    if c.ordering.Permute? {
      ScanOperands(c, v.rest);
    } else {
      assert v.rest[0..] == v.rest && v.rest[..0] == [];
    }
    assert v.operands + v.rest[..n] + r.operands == v.operands + (v.rest[..n] + r.operands);
    assert v.done + v.pending + [] + r.options == v.done + v.pending + r.options;
  }

  /** `e` is the next event, and from `v'` on the others remain. */
  ghost predicate Continues(c: Config, v: View, v': View, e: Option<Event>)
    requires InCluster(v)
    requires InCluster(v')
  {
    && v'.eof == e.None?
    && Remaining(c, v).events == (if e.Some? then [e.value] else []) + Remaining(c, v').events
    && Remaining(c, v).options == Remaining(c, v').options && Remaining(c, v).operands == Remaining(c, v').operands
  }

  lemma EndedRemaining(c: Config, done: seq<string>, operands: seq<string>)
    ensures Remaining(c, Ended(done, operands)) == Outcome([], done, operands)
  {
  }

  /** The first word's part in the reference. */
  lemma ScanFirst(c: Config, s: View)
    requires !s.eof && s.pending == [] && s.shortpos == 0
    ensures s.rest == [] ==> Remaining(c, s) == Outcome([], s.done, s.operands)
    ensures s.rest != [] && s.rest[0] == "--" ==>
              Remaining(c, s) == Outcome([], s.done + ["--"], s.operands + s.rest[1..])
    ensures s.rest != [] && IsLong(s.rest[0]) && s.rest[0] != "--" ==>
              var (e, used) := LongStep(c, s.rest[0], NextWord(s.rest));
              var r := Scan(c, s.rest[used..]);
              Remaining(c, s) == Outcome([e] + r.events, s.done + (s.rest[..used] + r.options), s.operands + r.operands)
    ensures s.rest != [] && !IsOption(s.rest[0]) && c.ordering.ReturnInOrder? ==>
              var r := Scan(c, s.rest[1..]);
              Remaining(c, s) == Outcome([OperandEvent(s.rest[0])] + r.events, s.done + (s.rest[..1] + r.options),
                                         s.operands + r.operands)
    ensures s.rest != [] && !IsOption(s.rest[0]) && c.ordering.RequireOrder? ==>
              Remaining(c, s) == Outcome([], s.done, s.operands + s.rest)
  {
    hide LongStep, Cluster;
    if s.rest != [] {
      assert s.rest[..1] == [s.rest[0]];
    }
  }

  lemma UsedMoves(c: Config, s: View, used: nat)
    requires !s.eof && s.pending == [] && used <= |s.rest|
    ensures var r := Scan(c, s.rest[used..]);
            Remaining(c, s.(pending := s.rest[..used], rest := s.rest[used..], shortpos := 0))
            == Outcome(r.events, s.done + (s.rest[..used] + r.options), s.operands + r.operands)
  {
  }

  /** A cluster gives its letters' events, whether it has been begun or not. */
  lemma ScanCluster(c: Config, v: View)
    requires !v.eof && v.pending == [] && v.rest != []
    requires IsOption(v.rest[0]) && !IsLong(v.rest[0]) && v.shortpos + 1 < |v.rest[0]|
    ensures var (es, used) := Cluster(c, v.rest[0], v.shortpos + 1, NextWord(v.rest));
            var t := Scan(c, v.rest[used..]);
            Remaining(c, v) == Outcome(es + t.events, v.done + (v.rest[..used] + t.options), v.operands + t.operands)
  {
    hide Cluster, LongStep;
  }

  lemma LetterRemaining(c: Config, v: View)
    requires !v.eof && v.pending == [] && v.rest != []
    requires IsOption(v.rest[0]) && !IsLong(v.rest[0]) && v.shortpos + 1 < |v.rest[0]|
    ensures Letter(c, v).1.Some? && Continues(c, v, Letter(c, v).0, Letter(c, v).1)
  {
    ScanCluster(c, v);
    hide Scan, ShortStep, Continues, LongStep, Remaining, IsOption, IsLong;
    var w, p, next := v.rest[0], v.shortpos + 1, NextWord(v.rest);
    var (e, used) := ShortStep(c, w, p, next);
    if used > 0 {
      UsedMoves(c, v, used);
      assert Continues(c, v, Letter(c, v).0, Letter(c, v).1);
    } else {
      ScanCluster(c, v.(shortpos := p));
      assert Continues(c, v, Letter(c, v).0, Letter(c, v).1);
    }
  }

  lemma ActRemaining(c: Config, s: View)
    requires !s.eof && s.pending == [] && s.shortpos == 0
    requires c.ordering.Permute? ==> s.rest == [] || IsOption(s.rest[0])
    ensures Continues(c, s, Act(c, s).0, Act(c, s).1)
  {
    hide LongStep, Cluster, Letter, Scan, Remaining;
    ScanFirst(c, s);
    if s.rest == [] {
      EndedRemaining(c, s.done, s.operands);
    } else if s.rest[0] == "--" {
      EndedRemaining(c, s.done + ["--"], s.operands + s.rest[1..]);
    } else if IsLong(s.rest[0]) {
      UsedMoves(c, s, LongStep(c, s.rest[0], NextWord(s.rest)).1);
    } else if IsOption(s.rest[0]) {
      LetterRemaining(c, s);
    } else if c.ordering.ReturnInOrder? {
      UsedMoves(c, s, 1);
    } else {
      EndedRemaining(c, s.done, s.operands + s.rest);
    }
  }

  /** A call returns the next event, and what remains is the rest. */
  lemma StepRemaining(c: Config, v: View)
    requires Proper(c, v)
    ensures Continues(c, v, Step(c, v).0, Step(c, v).1)
  {
    hide Scan, Cluster, Act, Letter, OperandsAhead;
    if v.eof {
    } else if v.shortpos > 0 {
      LetterRemaining(c, v);
    } else {
      SettleRemaining(c, v);
      ActRemaining(c, Settle(c, v));
    }
  }

  // ---- what the reference promises

  /** The words of `args` that are marked with `b`, in their order. */
  function Select(args: seq<string>, marks: seq<bool>, b: bool): seq<string>
    requires |marks| == |args|
  {
    if args == [] then [] else (if marks[0] == b then [args[0]] else []) + Select(args[1..], marks[1..], b)
  }

  /** `args` is split into these two, each in the original order. */
  ghost predicate SplitInto(args: seq<string>, options: seq<string>, operands: seq<string>) {
    exists marks: seq<bool> ::
      |marks| == |args| && options == Select(args, marks, true) && operands == Select(args, marks, false)
  }

  lemma SplitOne(args: seq<string>, b: bool, options: seq<string>, operands: seq<string>)
    requires args != [] && SplitInto(args[1..], options, operands)
    ensures SplitInto(args, if b then [args[0]] + options else options, if b then operands else [args[0]] + operands)
  {
    var rest := args[1..];
    var marks :| |marks| == |rest| && options == Select(rest, marks, true) && operands == Select(rest, marks, false);
    var m := [b] + marks;
    assert m[1..] == marks;
    assert [] + options == options && [] + operands == operands;
    assert Select(args, m, true) == (if b then [args[0]] else []) + Select(rest, marks, true);
    assert Select(args, m, false) == (if b then [] else [args[0]]) + Select(rest, marks, false);
  }

  /** One or two words that options use up. */
  lemma SplitUsed(args: seq<string>, used: nat, options: seq<string>, operands: seq<string>)
    requires 1 <= used <= 2 && used <= |args| && SplitInto(args[used..], options, operands)
    ensures SplitInto(args, args[..used] + options, operands)
  {
    hide SplitInto;
    if used == 2 {
      assert args[1..][1..] == args[2..];
      SplitOne(args[1..], true, options, operands);
      SplitOne(args, true, [args[1]] + options, operands);
      assert [args[0]] + ([args[1]] + options) == args[..2] + options;
    } else {
      SplitOne(args, true, options, operands);
      assert [args[0]] == args[..1];
    }
  }

  lemma {:induction false} SplitAll(args: seq<string>)
    ensures SplitInto(args, [], args)
  {
    if args == [] {
      var marks: seq<bool> := [];
      assert Select(args, marks, true) == [] && Select(args, marks, false) == [];
    } else {
      SplitAll(args[1..]);
      SplitOne(args, false, [], args[1..]);
      assert [args[0]] + args[1..] == args;
    }
  }

  /** The options with their arguments and the operands both keep their order, and nothing is lost. */
  lemma {:induction false} ScanSplits(c: Config, args: seq<string>)
    ensures SplitInto(args, Scan(c, args).options, Scan(c, args).operands)
    decreases |args|
  {
    hide SplitInto, LongStep, Cluster;
    if args == [] {
      SplitAll(args);
    } else if !IsOption(args[0]) {
      if c.ordering.RequireOrder? {
        SplitAll(args);
      } else {
        ScanSplits(c, args[1..]);
        var r := Scan(c, args[1..]);
        SplitOne(args, c.ordering.ReturnInOrder?, r.options, r.operands);
      }
    } else if args[0] == "--" {
      SplitAll(args[1..]);
      SplitOne(args, true, [], args[1..]);
      assert [args[0]] + [] == ["--"];
    } else {
      var next := NextWord(args);
      var used := if IsLong(args[0]) then LongStep(c, args[0], next).1 else Cluster(c, args[0], 1, next).1;
      ScanSplits(c, args[used..]);
      var r := Scan(c, args[used..]);
      SplitUsed(args, used, r.options, r.operands);
    }
  }

  lemma {:induction false} SelectElements(args: seq<string>, marks: seq<bool>)
    requires |marks| == |args|
    ensures multiset(Select(args, marks, true) + Select(args, marks, false)) == multiset(args)
  {
    if args != [] {
      var a, t, f := args[1..], Select(args[1..], marks[1..], true), Select(args[1..], marks[1..], false);
      SelectElements(a, marks[1..]);
      assert args == [args[0]] + a;
      if marks[0] {
        assert Select(args, marks, true) == [args[0]] + t && Select(args, marks, false) == [] + f == f;
      } else {
        assert Select(args, marks, true) == [] + t == t && Select(args, marks, false) == [args[0]] + f;
      }
    }
  }

  lemma SplitPermutes(args: seq<string>, options: seq<string>, operands: seq<string>)
    requires SplitInto(args, options, operands)
    ensures multiset(options + operands) == multiset(args)
  {
    var marks :| |marks| == |args| && options == Select(args, marks, true) && operands == Select(args, marks, false);
    SelectElements(args, marks);
  }

  /** Unless `--` came up, no operand looks like an option. */
  lemma {:induction false} OperandsAreNoOptions(c: Config, args: seq<string>, i: nat)
    requires c.ordering.Permute? && i < |Scan(c, args).operands|
    ensures !IsOption(Scan(c, args).operands[i]) || "--" in Scan(c, args).options
    decreases |args|
  {
    hide LongStep, Cluster;
    if args != [] {
      if !IsOption(args[0]) {
        if i > 0 {
          OperandsAreNoOptions(c, args[1..], i - 1);
        }
      } else if args[0] != "--" {
        var next := NextWord(args);
        var used := if IsLong(args[0]) then LongStep(c, args[0], next).1 else Cluster(c, args[0], 1, next).1;
        OperandsAreNoOptions(c, args[used..], i);
      }
    }
  }

  /** The words taken at once at the front: an option with its argument, or one operand. */
  function Taken(c: Config, args: seq<string>): (n: nat)
    requires args != [] && args[0] != "--"
    ensures 1 <= n <= |args|
  {
    if !IsOption(args[0]) then 1
    else if IsLong(args[0]) then LongStep(c, args[0], NextWord(args)).1
    else Cluster(c, args[0], 1, NextWord(args)).1
  }

  function TakenEvents(c: Config, args: seq<string>): seq<Event>
    requires args != [] && args[0] != "--"
  {
    if !IsOption(args[0]) then (if c.ordering.ReturnInOrder? then [OperandEvent(args[0])] else [])
    else if IsLong(args[0]) then [LongStep(c, args[0], NextWord(args)).0]
    else Cluster(c, args[0], 1, NextWord(args)).0
  }

  /** The pass comes to stand in front of word `k`: it has neither ended before nor taken the word as an argument. */
  predicate StandsAt(c: Config, args: seq<string>, k: nat)
    decreases |args|
  {
    k == 0 ||
    (args != [] && args[0] != "--" && (IsOption(args[0]) || !c.ordering.RequireOrder?) &&
     var n := Taken(c, args); n <= k && StandsAt(c, args[n..], k - n))
  }

  /** The events up to there. */
  function Before(c: Config, args: seq<string>, k: nat): seq<Event>
    requires StandsAt(c, args, k)
    decreases |args|
  {
    if k == 0 then []
    else var n := Taken(c, args); TakenEvents(c, args) + Before(c, args[n..], k - n)
  }

  lemma ScanTakes(c: Config, args: seq<string>)
    requires args != [] && args[0] != "--" && (IsOption(args[0]) || !c.ordering.RequireOrder?)
    ensures var n := Taken(c, args);
            var r := Scan(c, args[n..]);
            && Scan(c, args).events == TakenEvents(c, args) + r.events
            && (if IsOption(args[0]) || c.ordering.ReturnInOrder? then
                  Scan(c, args).options == args[..n] + r.options && Scan(c, args).operands == r.operands
                else Scan(c, args).options == r.options && Scan(c, args).operands == args[..n] + r.operands)
  {
    hide LongStep, Cluster;
    if !IsOption(args[0]) {
      assert args[..1] == [args[0]];
      var r := Scan(c, args[1..]);
      assert [] + r.events == r.events;
    }
  }

  /** `t` ends with `s`. */
  ghost predicate EndsWith<T>(t: seq<T>, s: seq<T>) {
    |s| <= |t| && t[|t| - |s|..] == s
  }

  lemma EndsAfter<T>(a: seq<T>, t: seq<T>, s: seq<T>)
    requires EndsWith(t, s)
    ensures EndsWith(a + t, s)
  {
    var u := a + t;
    assert u[|u| - |s|..] == t[|t| - |s|..];
  }

  /** From a word where the pass stands, the rest is a pass of its own. */
  lemma {:induction false} ScanAt(c: Config, args: seq<string>, k: nat)
    requires StandsAt(c, args, k)
    ensures k <= |args|
    ensures Scan(c, args).events == Before(c, args, k) + Scan(c, args[k..]).events
    ensures EndsWith(Scan(c, args).operands, Scan(c, args[k..]).operands)
    ensures !c.ordering.Permute? ==> Scan(c, args).operands == Scan(c, args[k..]).operands
    decreases |args|
  {
    hide Scan, LongStep, Cluster, TakenEvents, Taken;
    if k == 0 {
      assert args[0..] == args && [] + Scan(c, args).events == Scan(c, args).events;
    } else {
      var n := Taken(c, args);
      ScanTakes(c, args);
      ScanAt(c, args[n..], k - n);
      assert args[n..][k - n..] == args[k..];
      EndsAfter(args[..n], Scan(c, args[n..]).operands, Scan(c, args[k..]).operands);
    }
  }

  lemma Rejoined(args: seq<string>, n: nat, options: seq<string>, operands: seq<string>)
    requires n <= |args| && args[n..] == options + operands
    ensures args[..n] + options + operands == args
    ensures options != [] ==> (args[..n] + options)[|args[..n] + options| - 1] == options[|options| - 1]
  {
    assert args == args[..n] + args[n..];
  }

  /** Unless operands are passed over, every word stays where it is, and the pass ends at `--` or at an operand. */
  lemma {:induction false} OrderKept(c: Config, args: seq<string>)
    requires !c.ordering.Permute?
    ensures var r := Scan(c, args);
            && r.options + r.operands == args
            && (|| r.operands == [] || (r.options != [] && r.options[|r.options| - 1] == "--")
                || (c.ordering.RequireOrder? && !IsOption(r.operands[0])))
    decreases |args|
  {
    if args == [] || args[0] == "--" || (!IsOption(args[0]) && c.ordering.RequireOrder?) {
      hide LongStep, Cluster;
      assert args != [] ==> [args[0]] + args[1..] == args;
    } else {
      hide Scan, LongStep, Cluster, Taken;
      var n := Taken(c, args);
      ScanTakes(c, args);
      OrderKept(c, args[n..]);
      var r := Scan(c, args[n..]);
      hide IsOption;
      Rejoined(args, n, r.options, r.operands);
    }
  }

  lemma OperandFirst(c: Config, rest: seq<string>)
    requires rest != [] && !IsOption(rest[0])
    ensures var r := Scan(c, rest);
            var later := Scan(c, rest[1..]).events;
            match c.ordering
            case RequireOrder => r.events == [] && r.operands == rest
            case ReturnInOrder => r.events == [OperandEvent(rest[0])] + later
            case Permute => r.events == later && r.operands != [] && r.operands[0] == rest[0]
  {
  }

  /** What an operand where the pass stands gives in each ordering. */
  lemma {:induction false} OperandAt(c: Config, args: seq<string>, k: nat)
    requires StandsAt(c, args, k) && k < |args| && !IsOption(args[k])
    ensures var r := Scan(c, args);
            var later := Scan(c, args[k + 1..]).events;
            match c.ordering
            case RequireOrder => r.events == Before(c, args, k) && r.operands == args[k..]
            case ReturnInOrder => r.events == Before(c, args, k) + [OperandEvent(args[k])] + later
            case Permute => r.events == Before(c, args, k) + later && args[k] in r.operands
  {
    hide Scan, Before, StandsAt, IsOption;
    ScanAt(c, args, k);
    var rest := args[k..];
    assert rest[0] == args[k] && rest[1..] == args[k + 1..];
    OperandFirst(c, rest);
    var all, t := Scan(c, args).operands, Scan(c, rest).operands;
    if c.ordering.Permute? {
      assert all[|all| - |t|..][0] == args[k];
    }
  }

  /** A letter whose argument is required, at the end of the last word. */
  predicate LacksArgument(c: Config, w: string)
  {
    && |w| == 2 && w[0] == '-' && w[1] != '-'
    && ShortRule(c.short, w[1]) == Some(Required)
  }

  lemma LackingAlone(c: Config, w: string)
    requires LacksArgument(c, w)
    ensures Scan(c, [w]).events == [Event(c.missing, None, -1, true, Some(w[1] as int))]
  {
    hide ShortRule, LongStep;
    assert w[2..] == [];
    var e := Event(c.missing, None, -1, true, Some(w[1] as int));
    assert ShortStep(c, w, 1, None) == (e, 1);
    assert Cluster(c, w, 1, None) == ([e], 1);
    assert Scan(c, [w][1..]).events == [];
  }

  lemma {:induction false} LackingAt(c: Config, args: seq<string>, k: nat)
    requires StandsAt(c, args, k) && k + 1 == |args| && LacksArgument(c, args[k])
    ensures Scan(c, args).events == Before(c, args, k) + [Event(c.missing, None, -1, true, Some(args[k][1] as int))]
  {
    hide Before, StandsAt, LacksArgument, Scan;
    ScanAt(c, args, k);
    assert args[k..] == [args[k]];
    LackingAlone(c, args[k]);
  }

  // ---- the code

  lemma RotatedLayout(w: seq<string>, h: seq<string>, d: seq<string>, o: seq<string>, q: seq<string>, r: seq<string>)
    requires w == h + d + o + q + r
    ensures Rotated(w, |h| + |d|, |h| + |d| + |o|, |h| + |d| + |o| + |q|) == h + d + q + o + r
  {
  }

  lemma {:induction false} AheadUnique(args: seq<string>, n: nat)
    requires n <= |args| && (n < |args| ==> IsOption(args[n])) && forall k :: 0 <= k < n ==> !IsOption(args[k])
    ensures OperandsAhead(args) == n
  {
  }

  /** Operands that were passed over before are passed over again. */
  lemma AheadAgain(operands: seq<string>, rest: seq<string>)
    requires forall k :: 0 <= k < |operands| ==> !IsOption(operands[k])
    ensures OperandsAhead(operands + rest) == |operands| + OperandsAhead(rest)
  {
    AheadUnique(operands + rest, |operands| + OperandsAhead(rest));
  }

  /** The loop that finds the end of a long option's name. */
  method NameEnd(a: string) returns (l: nat)
    ensures l == KeyEnd(a)
  {
    l := 0;
    while l < |a| && a[l] != '=' && a[l] != '#'
      invariant l <= |a| && l + KeyEnd(a[l..]) == KeyEnd(a)
    {
      l := l + 1;
    }
  }

  /** The loop over the long options. */
  method FindLong(long: seq<LongOpt>, key: string) returns (m: Match)
    ensures m == Lookup(long, key)
  {
    var needExact := false;
    var o1: Option<nat>, o2: Option<nat> := None, None;
    var k := 0;
    while key != [] && k < |long|
      invariant k <= |long| && (o1.Some? ==> o1.value < |long|)
      invariant key == [] ==> o1.None?
      invariant key != [] ==> Search(long, key, k, o1, o2, needExact) == Lookup(long, key)
      decreases |long| - k
    {
      if IsPrefix(key, long[k].name) {
        if |long[k].name| == |key| {
          return Found(k);
        }
        needExact := needExact || long[k].exact;
        if o1.Some? {
          o2 := Some(k);
        } else {
          o1 := Some(k);
        }
      }
      k := k + 1;
    }
    if o1.None? || needExact {
      return Unrecognized;
    }
    if o2.Some? {
      return Ambiguous;
    }
    return Found(o1.value);
  }

  class Parser {
    const argv: array<string>
    const bad: int
    var optarg: Option<string>
    var optind: nat
    var optopt: int
    var errcount: nat
    var longind: int
    var eof: bool
    var shortpos: nat
    var rotateFirst: nat
    var rotateMiddle: nat
    /** The words in front of the first one to be parsed, and how the others are held. */
    ghost const head: seq<string>
    ghost var view: View

    /** The array and the indices show the view: options in front of operands in front of pending options. */
    ghost predicate Holds()
      reads this, argv
    {
      && argv[..] == head + view.done + view.operands + view.pending + view.rest
      && eof == view.eof && shortpos == view.shortpos
      && optind == |head| + |view.done| + (if eof then 0 else |view.operands| + |view.pending|)
      && (!eof && view.operands != [] ==>
            rotateFirst == |head| + |view.done| && rotateMiddle == rotateFirst + |view.operands|)
      && (!eof && view.operands == [] ==> rotateFirst == rotateMiddle)
    }

    /** `lzo_getopt_init`, with `bad_option` as its caller sets it. */
    constructor (start: nat, argv: array<string>, bad: int)
      requires start <= argv.Length
      ensures this.argv == argv && this.bad == bad && head == argv[..start] && optopt == -1 && errcount == 0
      ensures Holds() && view == View([], [], [], argv[start..], 0, false)
    {
      this.argv, this.bad := argv, bad;
      optarg, optind, optopt, errcount, longind := None, start, -1, 0, -1;
      eof, shortpos, rotateFirst, rotateMiddle := false, 0, 0, 0;
      head := argv[..start];
      view := View([], [], [], argv[start..], 0, false);
    }

    /** The pending rotation, as it is done at the start of a call and at the end of the options. */
    method RotatePending()
      requires optind <= argv.Length
      modifies this`optind, this`rotateFirst, this`rotateMiddle, argv
      ensures old(rotateFirst < rotateMiddle < optind) ==>
                && argv[..] == Rotated(old(argv[..]), old(rotateFirst), old(rotateMiddle), old(optind))
                && optind == old(optind) - (old(rotateMiddle) - old(rotateFirst))
      ensures !old(rotateFirst < rotateMiddle < optind) ==> argv[..] == old(argv[..]) && optind == old(optind)
      ensures rotateFirst == rotateMiddle == optind
    {
      hide Rotated;
      var n := Rotate(argv, rotateFirst, rotateMiddle, optind);
      optind := optind - n;
      rotateFirst, rotateMiddle := optind, optind;
    }

    method AtEof(ghost done: seq<string>, ghost operands: seq<string>) returns (ret: int)
      requires optind <= argv.Length
      requires rotateFirst < rotateMiddle < optind ==>
                 && Rotated(argv[..], rotateFirst, rotateMiddle, optind) == head + done + operands
                 && optind - (rotateMiddle - rotateFirst) == |head| + |done|
      requires !(rotateFirst < rotateMiddle < optind) ==>
                 argv[..] == head + done + operands && optind == |head| + |done|
      modifies this`optind, this`rotateFirst, this`rotateMiddle, this`eof, this`shortpos, this`view, argv
      ensures Holds() && view == Ended(done, operands) && ret == -1
    {
      RotatePending();
      eof, shortpos := true, 0;
      view := Ended(done, operands);
      ret := -1;
    }

    method PlacePending(c: Config)
      requires Holds() && Proper(c, view) && !eof && shortpos == 0
      modifies this`optind, this`rotateFirst, this`rotateMiddle, argv
      ensures argv[..] == head + (view.done + view.pending) + view.operands + view.rest
      ensures optind == rotateFirst == rotateMiddle == |head| + |view.done + view.pending|
    {
      hide Rotated;
      ghost var v, w := view, argv[..];
      assert rotateFirst < rotateMiddle < optind <==> v.operands != [];
      RotatedLayout(w, head, v.done, v.operands, v.pending, v.rest);
      RotatePending();
      if v.operands == [] {
        assert head + v.done + [] + v.pending + v.rest == head + (v.done + v.pending) + [] + v.rest;
      } else {
        assert head + v.done + v.pending + v.operands + v.rest == head + (v.done + v.pending) + v.operands + v.rest;
      }
    }

    lemma SettledLayout(h: seq<string>, d: seq<string>, o: seq<string>, r: seq<string>, n: nat)
      requires n <= |r|
      ensures h + d + o + r == h + d + (o + r[..n]) + [] + r[n..]
    {
    }

    method SkipOperands(ghost before: seq<string>, ghost operands: seq<string>, ghost rest: seq<string>)
      requires argv[..] == before + operands + rest && optind == |before|
      requires forall k :: 0 <= k < |operands| ==> !IsOption(operands[k])
      modifies this`optind
      ensures optind == |before| + |operands| + OperandsAhead(rest)
    {
      AheadAgain(operands, rest);
      ghost var tail := operands + rest;
      while optind < argv.Length && !IsOption(argv[optind])
        invariant |before| <= optind <= argv.Length
        invariant forall k :: 0 <= k < optind - |before| ==> !IsOption(tail[k])
      {
        assert argv[..][optind] == tail[optind - |before|];
        optind := optind + 1;
      }
      assert optind < argv.Length ==> argv[..][optind] == tail[optind - |before|];
      AheadUnique(tail, optind - |before|);
    }

    /** `view` with the pending options in place and the operands ahead passed over. */
    method SettlePending(c: Config)
      requires Holds() && Proper(c, view) && !eof && shortpos == 0
      modifies this`optind, this`rotateFirst, this`rotateMiddle, this`view, argv
      ensures Holds() && view == Settle(c, old(view))
      ensures rotateFirst == |head| + |view.done| && optind == rotateMiddle == rotateFirst + |view.operands|
    {
      hide OperandsAhead, IsOption;
      ghost var v := view;
      PlacePending(c);
      ghost var done := v.done + v.pending;
      ghost var n := if c.ordering.Permute? then OperandsAhead(v.rest) else 0;
      if c.ordering.Permute? {
        SkipOperands(head + done, v.operands, v.rest);
        rotateMiddle := optind;
      }
      view := Settle(c, v);
      SettledLayout(head, done, v.operands, v.rest, n);
    }

    /** The words that `used` more words of `rest` belong to options. */
    lemma UsedLayout(w: seq<string>, v: View, used: nat)
      requires w == head + v.done + v.operands + [] + v.rest && used <= |v.rest|
      ensures w == head + v.done + v.operands + v.rest[..used] + v.rest[used..]
    {
    }

    lemma FrontWord(w: seq<string>, v: View)
      requires w == head + v.done + v.operands + [] + v.rest && v.rest != []
      ensures var k := |head| + |v.done| + |v.operands|;
              && k < |w| && w[k] == v.rest[0]
              && NextWord(v.rest) == if k + 1 < |w| then Some(w[k + 1]) else None
    {
    }

    /** What a call has reported. */
    ghost predicate Reported(e: Option<Event>, ret: int, errors: nat, optopt0: int)
      reads this
    {
      match e
      case None => ret == -1 && optarg == None && longind == -1 && errcount == errors && optopt == optopt0
      case Some(ev) =>
        && ret == ev.ret && optarg == ev.optarg && longind == ev.longind
        && errcount == errors + (if ev.error then 1 else 0)
        && optopt == if ev.optopt.Some? then ev.optopt.value else optopt0
    }

    /** The option letter behind `shortpos` in the word at `optind`. */
    method ReadLetter(c: Config) returns (ret: int)
      requires optind < argv.Length && shortpos + 1 < |argv[optind]|
      requires optarg == None && longind == -1 && c.bad == bad
      modifies this`optarg, this`optind, this`optopt, this`errcount, this`shortpos
      ensures var next := if old(optind) + 1 < argv.Length then Some(argv[old(optind) + 1]) else None;
              var (e, used) := ShortStep(c, argv[old(optind)], old(shortpos) + 1, next);
              && optind == old(optind) + used && shortpos == (if used == 0 then old(shortpos) + 1 else 0)
              && Reported(Some(e), ret, old(errcount), old(optopt))
    {
      shortpos := shortpos + 1;
      var a := argv[optind][shortpos..];
      var letter := a[0];
      a := a[1..];
      var s := -1;
      if letter != ':' && c.short.Some? {
        s := Find(c.short.value, letter);
      }
      if s < 0 || !(s + 1 < |c.short.value| && c.short.value[s + 1] == ':') {
        if a == [] {
          optind := optind + 1;
          shortpos := 0;
        }
        if s < 0 {
          optopt := letter as int;
          errcount := errcount + 1;
          return bad;
        }
      } else {
        optind := optind + 1;
        shortpos := 0;
        if a != [] {
          optarg := Some(a);
        } else if !(s + 2 < |c.short.value| && c.short.value[s + 2] == ':') {
          if optind < argv.Length {
            optarg := Some(argv[optind]);
            optind := optind + 1;
          } else {
            optopt := letter as int;
            errcount := errcount + 1;
            return c.missing;
          }
        }
      }
      ret := letter as int;
    }

    /** `lzo_label_next_shortopt` */
    method NextLetter(c: Config) returns (ret: int)
      requires Holds() && !eof && view.pending == [] && view.rest != [] && shortpos + 1 < |view.rest[0]|
      requires optarg == None && longind == -1 && c.bad == bad
      modifies this`optarg, this`optind, this`optopt, this`errcount, this`shortpos, this`view
      ensures Holds() && view == Letter(c, old(view)).0
      ensures Reported(Letter(c, old(view)).1, ret, old(errcount), old(optopt))
    {
      hide ShortStep;
      ghost var v := view;
      FrontWord(argv[..], v);
      ghost var used := ShortStep(c, v.rest[0], v.shortpos + 1, NextWord(v.rest)).1;
      UsedLayout(argv[..], v, used);
      ret := ReadLetter(c);
      view := Letter(c, v).0;
    }

    /** A long option, `optind` being behind it already. */
    method NextLong(c: Config, a: string) returns (ret: int)
      requires !eof && optind <= argv.Length && IsLong(a) && optarg == None && longind == -1 && c.bad == bad
      modifies this`optarg, this`optind, this`errcount, this`longind
      ensures var (e, used) := LongStep(c, a, if old(optind) < argv.Length then Some(argv[old(optind)]) else None);
              && optind + 1 == old(optind) + used
              && Reported(Some(e), ret, old(errcount), optopt)
    {
      var s := a[2..];
      var l := NameEnd(s);
      var m := FindLong(c.long, s[..l]);
      if !m.Found? {
        errcount := errcount + 1;
        return bad;
      }
      var o := c.long[m.i];
      var tail := s[l..];
      match o.rule {
        case Optional =>
          if tail != [] {
            optarg := Some(tail[1..]);
          }
        case Required =>
          if tail != [] {
            optarg := Some(tail[1..]);
          } else if optind < argv.Length {
            optarg := Some(argv[optind]);
            optind := optind + 1;
          }
          if optarg == None {
            errcount := errcount + 1;
            return c.missing;
          }
        case RequiredInWord =>
          if |tail| >= 2 {
            optarg := Some(tail[1..]);
          }
          if optarg == None {
            errcount := errcount + 1;
            return c.missing;
          }
        case NoArg =>
          if tail != [] {
            errcount := errcount + 1;
            return bad;
          }
      }
      longind := m.i;
      ret := if o.flag then 0 else o.val;
    }

    /** The options end in front of `rest`. */
    lemma EndLayout(w: seq<string>, s: View)
      requires w == head + s.done + s.operands + [] + s.rest
      ensures s.rest == [] ==> w == head + s.done + s.operands
      ensures s.operands == [] ==> w == head + s.done + (s.operands + s.rest)
    {
    }

    /** The options end behind the first word of `rest`. */
    lemma EndLayoutAfter(w: seq<string>, s: View)
      requires w == head + s.done + s.operands + [] + s.rest && s.rest != []
      ensures s.operands == [] ==> w == head + (s.done + s.rest[..1]) + (s.operands + s.rest[1..])
      ensures var f := |head| + |s.done|;
              var m := f + |s.operands|;
              Rotated(w, f, m, m + 1) == head + (s.done + s.rest[..1]) + (s.operands + s.rest[1..])
    {
    }

    method ActOnLong(c: Config, a: string) returns (ret: int)
      requires Holds() && !eof && shortpos == 0 && view.pending == []
      requires view.rest != [] && a == view.rest[0] && IsLong(a)
      requires rotateFirst == |head| + |view.done| && optind == rotateMiddle == rotateFirst + |view.operands|
      requires optarg == None && longind == -1 && c.bad == bad
      modifies this`optarg, this`optind, this`errcount, this`longind, this`eof, this`shortpos
      modifies this`rotateFirst, this`rotateMiddle, this`view, argv
      ensures Holds() && view == Act(c, old(view)).0
      ensures Reported(Act(c, old(view)).1, ret, old(errcount), optopt)
    {
      hide LongStep, Letter, Rotated;
      ghost var s := view;
      EndLayoutAfter(argv[..], s);
      FrontWord(argv[..], s);
      optind := optind + 1;
      if |a| == 2 {
        assert a == "--" && s.rest[..1] == [a];
        ret := AtEof(s.done + ["--"], s.operands + s.rest[1..]);
        return;
      }
      ghost var used := LongStep(c, a, NextWord(s.rest)).1;
      UsedLayout(argv[..], s, used);
      ret := NextLong(c, a);
      view := Act(c, s).0;
    }

    /** The settled state is acted on. */
    method ActOnWord(c: Config) returns (ret: int)
      requires Holds() && !eof && shortpos == 0 && view.pending == []
      requires rotateFirst == |head| + |view.done| && optind == rotateMiddle == rotateFirst + |view.operands|
      requires !c.ordering.Permute? ==> view.operands == []
      requires c.ordering.Permute? ==> view.rest == [] || IsOption(view.rest[0])
      requires optarg == None && longind == -1 && c.bad == bad
      modifies this`optarg, this`optind, this`optopt, this`errcount, this`longind, this`eof, this`shortpos
      modifies this`rotateFirst, this`rotateMiddle, this`view, argv
      ensures Holds() && view == Act(c, old(view)).0
      ensures Reported(Act(c, old(view)).1, ret, old(errcount), old(optopt))
    {
      hide LongStep, Letter, Rotated;
      ghost var s := view;
      EndLayout(argv[..], s);
      if optind >= argv.Length {
        optind := rotateFirst;
        ret := AtEof(s.done, s.operands);
        return;
      }
      FrontWord(argv[..], s);
      var a := argv[optind];
      if IsLong(a) {
        ret := ActOnLong(c, a);
      } else if IsOption(a) {
        ret := NextLetter(c);
      } else if c.ordering.ReturnInOrder? {
        UsedLayout(argv[..], s, 1);
        optind := optind + 1;
        optarg := Some(a);
        view := Act(c, s).0;
        ret := 1;
      } else {
        ret := AtEof(s.done, s.operands + s.rest);
      }
    }

    /** A call once `optarg` and `longind` are cleared: nothing at the end, else the next word or letter. */
    method Dispatch(c: Config) returns (ret: int)
      requires Holds() && Proper(c, view) && optarg == None && longind == -1 && c.bad == bad
      modifies this`optarg, this`optind, this`optopt, this`errcount, this`longind, this`eof, this`shortpos
      modifies this`rotateFirst, this`rotateMiddle, this`view, argv
      ensures Holds() && view == Step(c, old(view)).0
      ensures Reported(Step(c, old(view)).1, ret, old(errcount), old(optopt))
    {
      hide LongStep, ShortStep, Act, Letter, OperandsAhead;
      if eof {
        return -1;
      }
      if shortpos == 0 {
        SettlePending(c);
        ret := ActOnWord(c);
      } else {
        ret := NextLetter(c);
      }
    }

    /** The marks in front of the option letters. */
    method ReadMarks(shortopts: Option<string>, longopts: seq<LongOpt>) returns (c: Config)
      ensures c == Configure(shortopts, longopts, bad)
    {
      var ordering, missing := Permute, bad;
      var letters := shortopts;
      if shortopts.Some? {
        var s := shortopts.value;
        if s != [] && (s[0] == '-' || s[0] == '+') {
          ordering := if s[0] == '-' then ReturnInOrder else RequireOrder;
          s := s[1..];
        }
        if s != [] && s[0] == ':' {
          missing := s[0] as int;
          s := s[1..];
        }
        letters := Some(s);
      }
      c := Config(ordering, bad, missing, letters, longopts);
    }

    /** `lzo_getopt`: one step of the machine, on the array, which stays a permutation. */
    method Next(shortopts: Option<string>, longopts: seq<LongOpt>) returns (ret: int)
      requires Holds() && Proper(Configure(shortopts, longopts, bad), view)
      modifies this`optarg, this`optind, this`optopt, this`errcount, this`longind, this`eof, this`shortpos
      modifies this`rotateFirst, this`rotateMiddle, this`view, argv
      ensures Holds() && Proper(Configure(shortopts, longopts, bad), view)
      ensures view == Step(Configure(shortopts, longopts, bad), old(view)).0
      ensures Reported(Step(Configure(shortopts, longopts, bad), old(view)).1, ret, old(errcount),
                       if old(optopt) == -1 then bad else old(optopt))
      ensures multiset(argv[..]) == multiset(old(argv[..]))
    {
      hide Step, Proper;
      var c := ReadMarks(shortopts, longopts);
      StepProper(c, view);
      StepWords(c, head, view);
      optarg := None;
      if optopt == -1 {
        optopt := bad;
      }
      longind := -1;
      ret := Dispatch(c);
    }
  }

  // ---- a whole run

  /** What the caller sees of an event. */
  datatype Return = Return(ret: int, optarg: Option<string>, longind: int)

  function Returns(events: seq<Event>): (r: seq<Return>)
    ensures |r| == |events|
  {
    seq(|events|, i requires 0 <= i < |events| => Return(events[i].ret, events[i].optarg, events[i].longind))
  }

  /** `events` are the first ones of `r`, and `left` is what comes after them. */
  ghost predicate Along(r: Outcome, events: seq<Event>, left: Outcome) {
    r.events == events + left.events && r.options == left.options && r.operands == left.operands
  }

  lemma AlongNext(c: Config, r: Outcome, events: seq<Event>, v: View)
    requires Proper(c, v) && Along(r, events, Remaining(c, v))
    ensures Proper(c, Step(c, v).0)
    ensures var (v', e) := Step(c, v);
            && v'.eof == e.None?
            && Along(r, events + (if e.Some? then [e.value] else []), Remaining(c, v'))
            && |Remaining(c, v').events| == |Remaining(c, v).events| - if e.Some? then 1 else 0
  {
    hide Step, Remaining, Proper;
    StepProper(c, v);
    StepRemaining(c, v);
    var (v', e) := Step(c, v);
    var one := if e.Some? then [e.value] else [];
    assert events + one + Remaining(c, v').events == events + (one + Remaining(c, v').events);
  }

  /** One more call of `lzo_getopt` in a run. */
  method CallOnce(g: Parser, shortopts: Option<string>, longopts: seq<LongOpt>, ghost r: Outcome,
                  returned: seq<Return>, ghost events: seq<Event>)
    returns (returned': seq<Return>, ghost events': seq<Event>)
    requires g.Holds() && !g.eof && Proper(Configure(shortopts, longopts, g.bad), g.view) && returned == Returns(events)
    requires Along(r, events, Remaining(Configure(shortopts, longopts, g.bad), g.view))
    modifies g, g.argv
    ensures g.Holds() && Proper(Configure(shortopts, longopts, g.bad), g.view) && returned' == Returns(events')
    ensures Along(r, events', Remaining(Configure(shortopts, longopts, g.bad), g.view))
    ensures |Remaining(Configure(shortopts, longopts, g.bad), g.view).events|
            == |old(Remaining(Configure(shortopts, longopts, g.bad), g.view)).events| - if g.eof then 0 else 1
  {
    hide Step, Remaining, Proper, Configure, Along;
    ghost var c, v := Configure(shortopts, longopts, g.bad), g.view;
    AlongNext(c, r, events, v);
    var ret := g.Next(shortopts, longopts);
    returned', events' := returned, events;
    if !g.eof {
      returned' := returned + [Return(ret, g.optarg, g.longind)];
      events' := events + [Step(c, v).1.value];
    } else {
      assert events + [] == events;
    }
  }

  lemma EndRemaining(c: Config, r: Outcome, events: seq<Event>, v: View, w: seq<string>, head: seq<string>)
    requires Proper(c, v) && v.eof && Along(r, events, Remaining(c, v))
    requires w == head + v.done + v.operands + v.pending + v.rest
    ensures events == r.events && v.done == r.options && w == head + r.options + r.operands
  {
  }

  lemma StartRemaining(c: Config, args: seq<string>)
    ensures var v := View([], [], [], args, 0, false);
            Proper(c, v) && Along(Scan(c, args), [], Remaining(c, v)) && Returns([]) == []
  {
    hide Scan;
    var r := Scan(c, args);
    assert [] + [] + r.options == r.options && [] + r.operands == r.operands;
  }

  /**
    An operand where the pass stands: with '+' it ends the run, with '-' it comes back as code 1, and else
    it is left for the end.
   */
  ghost predicate OperandsReturned(shortopts: Option<string>, c: Config, args: seq<string>, returned: seq<Return>,
                                   options: nat, operands: seq<string>) {
    forall k :: 0 <= k < |args| && StandsAt(c, args, k) && (|args[k]| < 2 || args[k][0] != '-') ==>
      var before := Returns(Before(c, args, k));
      var later := Returns(Scan(c, args[k + 1..]).events);
      if StartsWith(shortopts, '+') then returned == before && options == k
      else if StartsWith(shortopts, '-') then returned == before + [Return(1, Some(args[k]), -1)] + later
      else returned == before + later && args[k] in operands
  }

  /** A missing argument at the very end returns ':' exactly when a colon stands ahead in the definition. */
  ghost predicate MissingReturned(shortopts: Option<string>, c: Config, args: seq<string>, returned: seq<Return>,
                                  bad: int) {
    forall k :: 0 <= k < |args| && StandsAt(c, args, k) && k + 1 == |args| && LacksArgument(c, args[k]) ==>
      returned == Returns(Before(c, args, k)) + [Return(if ColonAhead(shortopts) then ':' as int else bad, None, -1)]
  }

  lemma RunMeaning(shortopts: Option<string>, longopts: seq<LongOpt>, bad: int, args: seq<string>)
    ensures var c := Configure(shortopts, longopts, bad);
            var r := Scan(c, args);
            var returned := Returns(r.events);
            && OperandsReturned(shortopts, c, args, returned, |r.options|, r.operands)
            && MissingReturned(shortopts, c, args, returned, bad)
            && (StartsWith(shortopts, '+') || StartsWith(shortopts, '-') ==>
                  && r.options + r.operands == args
                  && (|| r.operands == [] || (r.options != [] && r.options[|r.options| - 1] == "--")
                      || (StartsWith(shortopts, '+') && !IsOption(r.operands[0]))))
  {
    ConfigureMeaning(shortopts, longopts, bad);
    var c := Configure(shortopts, longopts, bad);
    var r := Scan(c, args);
    hide Scan, Configure, StandsAt, Before, LacksArgument;
    if !c.ordering.Permute? {
      OrderKept(c, args);
    }
    forall k | 0 <= k < |args| && StandsAt(c, args, k)
      ensures |args[k]| < 2 || args[k][0] != '-' ==>
                var before := Returns(Before(c, args, k));
                var later := Returns(Scan(c, args[k + 1..]).events);
                if StartsWith(shortopts, '+') then Returns(r.events) == before && |r.options| == k
                else if StartsWith(shortopts, '-') then
                  Returns(r.events) == before + [Return(1, Some(args[k]), -1)] + later
                else Returns(r.events) == before + later && args[k] in r.operands
    {
      if |args[k]| < 2 || args[k][0] != '-' {
        OperandAt(c, args, k);
      }
    }
    forall k | 0 <= k < |args| && StandsAt(c, args, k) && k + 1 == |args| && LacksArgument(c, args[k])
      ensures Returns(r.events)
              == Returns(Before(c, args, k)) + [Return(if ColonAhead(shortopts) then ':' as int else bad, None, -1)]
    {
      LackingAt(c, args, k);
    }
  }

  /** The calls, one after the other. */
  method CallAll(argv: array<string>, start: nat, bad: int, shortopts: Option<string>, longopts: seq<LongOpt>)
    returns (g: Parser, returned: seq<Return>)
    requires start <= argv.Length
    modifies argv
    ensures var r := Scan(Configure(shortopts, longopts, bad), old(argv[start..]));
            && returned == Returns(r.events)
            && argv[..] == old(argv[..start]) + r.options + r.operands
            && g.optind == start + |r.options|
    ensures multiset(argv[..]) == multiset(old(argv[..]))
  {
    hide Scan, Configure, Remaining, Proper, Along, Returns;
    ghost var c := Configure(shortopts, longopts, bad);
    ghost var words, args := argv[..], argv[start..];
    ghost var r := Scan(c, args);
    g := new Parser(start, argv, bad);
    returned := [];
    ghost var events: seq<Event> := [];
    StartRemaining(c, args);
    while !g.eof
      invariant g.Holds() && Proper(c, g.view) && returned == Returns(events) && Along(r, events, Remaining(c, g.view))
      modifies g, argv
      decreases |Remaining(c, g.view).events|, !g.eof
    {
      returned, events := CallOnce(g, shortopts, longopts, r, returned, events);
    }
    EndRemaining(c, r, events, g.view, argv[..], words[..start]);
    ScanSplits(c, args);
    SplitPermutes(args, r.options, r.operands);
    assert words == words[..start] + args;
    assert words[..start] + r.options + r.operands == words[..start] + (r.options + r.operands);
  }

  lemma OptionWord(w: string)
    ensures IsOption(w) <==> |w| >= 2 && w[0] == '-'
  {
  }

  lemma Layout(w: seq<string>, h: seq<string>, o: seq<string>, p: seq<string>, at: nat)
    requires at == |h| + |o| && |w| == at + |p|
    requires w == h + o + p || (w[..|h|] == h && w[|h|..] == o + p)
    ensures w == h + o + p && w[at..] == p && w[|h|..at] == o
    ensures p != [] ==> w[at] == p[0]
    ensures o != [] ==> w[at - 1] == o[|o| - 1]
    ensures forall i :: at <= i < |w| ==> w[i] == p[i - at]
  {
    if w[..|h|] == h && w[|h|..] == o + p {
      assert w == w[..|h|] + w[|h|..] == h + (o + p) == h + o + p;
    }
  }

  /** What the array shows at the end of a run. */
  lemma ArgvMeaning(shortopts: Option<string>, longopts: seq<LongOpt>, bad: int, words: seq<string>, start: nat,
                    w: seq<string>, at: nat)
    requires start <= |words|
    requires var r := Scan(Configure(shortopts, longopts, bad), words[start..]);
             w == words[..start] + r.options + r.operands && at == start + |r.options|
    ensures at <= |w| && w[at..] == Scan(Configure(shortopts, longopts, bad), words[start..]).operands
    ensures StartsWith(shortopts, '+') || StartsWith(shortopts, '-') ==>
              && w == words
              && (|| at == |w| || (start < at && w[at - 1] == "--")
                  || (StartsWith(shortopts, '+') && (|w[at]| < 2 || w[at][0] != '-')))
    ensures !StartsWith(shortopts, '+') && !StartsWith(shortopts, '-') ==>
              forall i :: at <= i < |w| && |w[i]| >= 2 && w[i][0] == '-' ==> "--" in w[start..at]
  {
    hide *;
    var c, args := Configure(shortopts, longopts, bad), words[start..];
    var r := Scan(c, args);
    RunMeaning(shortopts, longopts, bad, args);
    ConfigureMeaning(shortopts, longopts, bad);
    Layout(w, words[..start], r.options, r.operands, at);
    if c.ordering.Permute? {
      forall i | at <= i < |w| && |w[i]| >= 2 && w[i][0] == '-' ensures "--" in w[start..at] {
        OptionWord(w[i]);
        OperandsAreNoOptions(c, args, i - at);
      }
    } else {
      if r.operands != [] {
        OptionWord(r.operands[0]);
      }
      Layout(words, words[..start], r.options, r.operands, at);
    }
  }

  /**
    Calling `lzo_getopt` until the options end gives the returns of the one pass over the original
    words, and leaves `argv` as the words used by options in their order, then the operands in theirs,
    with `optind` between them.
   */
  method ParseAll(argv: array<string>, start: nat, bad: int, shortopts: Option<string>, longopts: seq<LongOpt>)
    returns (g: Parser, returned: seq<Return>)
    requires start <= argv.Length
    modifies argv
    ensures var r := Scan(Configure(shortopts, longopts, bad), old(argv[start..]));
            && returned == Returns(r.events)
            && argv[..] == old(argv[..start]) + r.options + r.operands
            && g.optind == start + |r.options|
    ensures StartsWith(shortopts, '+') || StartsWith(shortopts, '-') ==>
              && argv[..] == old(argv[..])
              && (|| g.optind == argv.Length || (start < g.optind && argv[g.optind - 1] == "--")
                  || (StartsWith(shortopts, '+') && (|argv[g.optind]| < 2 || argv[g.optind][0] != '-')))
    ensures !StartsWith(shortopts, '+') && !StartsWith(shortopts, '-') ==>
              forall i :: g.optind <= i < argv.Length && |argv[i]| >= 2 && argv[i][0] == '-' ==>
                "--" in argv[start..g.optind]
    ensures var c, args := Configure(shortopts, longopts, bad), old(argv[start..]);
            && OperandsReturned(shortopts, c, args, returned, g.optind - start, argv[g.optind..])
            && MissingReturned(shortopts, c, args, returned, bad)
    ensures multiset(argv[..]) == multiset(old(argv[..]))
  {
    hide *;
    ghost var words := argv[..];
    assert words[start..] == argv[start..];
    g, returned := CallAll(argv, start, bad, shortopts, longopts);
    RunMeaning(shortopts, longopts, bad, words[start..]);
    ArgvMeaning(shortopts, longopts, bad, words, start, argv[..], g.optind);
  }
}
