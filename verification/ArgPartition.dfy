/** What scanning a whole argument list means, independently of how the scanner
    moves argv about: which elements belong to options, in what order, and what
    is reported. */
module ArgPartition {
  import opened Bytes
  import opened OptionGrammar

  const DASH_DASH := "--"

  /** An element that does not start an option: anything but a dash and more. */
  predicate IsOperand(arg: string) { |arg| < 2 || arg[0] != '-' }

  predicate AllOperands(a: seq<string>) { forall i :: 0 <= i < |a| ==> IsOperand(a[i]) }

  function Head(a: seq<string>): Option<string> {
    if a == [] then None else Some(a[0])
  }

  /** Where decoding of an option element starts: past "-", or past "--" when
      long options are in use. */
  function OptionText(cfg: Config, elem: string): (s: string)
    requires !IsOperand(elem) && elem != DASH_DASH
    ensures s != ""
  {
    if cfg.longopts.Some? && elem[1] == '-' then elem[2..] else elem[1..]
  }

  /** All the steps inside one element. */
  datatype Taken = Taken(events: seq<Event>, advance: nat, starved: bool)

  function Element(cfg: Config, elem: string, nextchar: string, next: Option<string>): (r: Taken)
    requires nextchar != ""
    ensures r.advance == 1 || (r.advance == 2 && next.Some?)
    ensures r.starved ==> r.advance == 1 && next.None?
    decreases |nextchar|
  {
    var d := Decode(cfg, elem, nextchar, next);
    if d.advance > 0 then Taken([d.event], d.advance, d.starved)
    else
      var r := Element(cfg, elem, d.nextchar, next);
      Taken([d.event] + r.events, r.advance, r.starved)
  }

  /** The meaning of an argument list: the elements that belong to options (with
      `--`, if it ends them), the operands, what is reported, whether the last
      option wanted an argument that is not there, and whether `--` was met. */
  datatype Meaning = Meaning(opts: seq<string>, operands: seq<string>, events: seq<Event>, starved: bool, ended: bool)

  function Scan(cfg: Config, a: seq<string>): (m: Meaning)
    decreases |a|
  {
    if a == [] then Meaning([], [], [], false, false)
    else if IsOperand(a[0]) then
      var m := Scan(cfg, a[1..]);
      m.(operands := [a[0]] + m.operands)
    else if a[0] == DASH_DASH then Meaning([DASH_DASH], a[1..], [], false, true)
    else After(cfg, a, Element(cfg, a[0], OptionText(cfg, a[0]), Head(a[1..])))
  }

  /** The same from the middle of the first element. */
  function After(cfg: Config, a: seq<string>, r: Taken): (m: Meaning)
    requires r.advance == 1 || r.advance == 2
    requires r.advance <= |a|
    decreases |a|, 0
  {
    var m := Scan(cfg, a[r.advance..]);
    Meaning(a[..r.advance] + m.opts, m.operands, r.events + m.events, r.starved || m.starved, m.ended)
  }

  // One step of the scan, by what the first element is.

  lemma {:induction false} ScanNothing(cfg: Config)
    ensures Scan(cfg, []) == Meaning([], [], [], false, false)
  {
  }

  lemma {:induction false} ScanOperand(cfg: Config, a: seq<string>)
    requires a != [] && IsOperand(a[0])
    ensures var m := Scan(cfg, a[1..]); Scan(cfg, a) == m.(operands := [a[0]] + m.operands)
  {
  }

  lemma {:induction false} ScanDashDash(cfg: Config, a: seq<string>)
    requires a != [] && a[0] == DASH_DASH
    ensures Scan(cfg, a) == Meaning([DASH_DASH], a[1..], [], false, true)
  {
  }

  lemma {:induction false} ScanOption(cfg: Config, a: seq<string>)
    requires a != [] && !IsOperand(a[0]) && a[0] != DASH_DASH
    ensures Scan(cfg, a) == After(cfg, a, Element(cfg, a[0], OptionText(cfg, a[0]), Head(a[1..])))
  {
  }

  // ------------------------------------------------- scanning without permuting

  /** What a scan reports that does not permute, and how many elements it uses. */
  datatype Straight = Straight(events: seq<Event>, used: nat)

  /** Operands are either reported like options with the code 1, or end the scan. */
  function InOrder(cfg: Config, all: bool, a: seq<string>): (m: Straight)
    decreases |a|
  {
    if a == [] then Straight([], 0)
    else if IsOperand(a[0]) then
      if all then
        var m := InOrder(cfg, all, a[1..]);
        Straight([Event(1, Some(a[0]))] + m.events, 1 + m.used)
      else Straight([], 0)
    else if a[0] == DASH_DASH then Straight([], 1)
    else Onward(cfg, all, a, Element(cfg, a[0], OptionText(cfg, a[0]), Head(a[1..])))
  }

  /** The same from the middle of the first element. */
  function Onward(cfg: Config, all: bool, a: seq<string>, r: Taken): (m: Straight)
    requires r.advance == 1 || r.advance == 2
    requires r.advance <= |a|
    decreases |a|, 0
  {
    var m := InOrder(cfg, all, a[r.advance..]);
    Straight(r.events + m.events, r.advance + m.used)
  }

  /** One step inside the first element. */
  lemma {:induction false} OnwardStep(cfg: Config, all: bool, a: seq<string>, nextchar: string)
    requires nextchar != "" && a != []
    ensures var next := Head(a[1..]);
            var d, m := Decode(cfg, a[0], nextchar, next), Onward(cfg, all, a, Element(cfg, a[0], nextchar, next));
            && d.advance <= |a|
            && var m' := if d.advance > 0 then InOrder(cfg, all, a[d.advance..])
                         else Onward(cfg, all, a, Element(cfg, a[0], d.nextchar, next));
               m.events == [d.event] + m'.events && m.used == d.advance + m'.used
  {
    hide Decode, InOrder;
    var next := Head(a[1..]);
    var d := Decode(cfg, a[0], nextchar, next);
    if d.advance == 0 {
      var r := Element(cfg, a[0], d.nextchar, next);
      Regroup([d.event], r.events, InOrder(cfg, all, a[r.advance..]).events);
    }
  }

  /** What one call does to the list ahead, decoding its first element at
      `nextchar`, or from its beginning: None when the scan ends there. */
  function FirstMove(cfg: Config, all: bool, a: seq<string>, nextchar: string): (d: Option<Decoded>)
    requires nextchar != "" ==> a != []
    ensures d.Some? ==> a != [] && d.value.advance <= |a| && (d.value.nextchar != "" <==> d.value.advance == 0)
    ensures d.Some? ==> |d.value.nextchar| < if nextchar == "" then |a[0]| + 1 else |nextchar|
  {
    if nextchar != "" then Some(Decode(cfg, a[0], nextchar, Head(a[1..])))
    else if a == [] || a[0] == DASH_DASH then None
    else if IsOperand(a[0]) then if all then Some(Decoded(Event(1, Some(a[0])), 1, "", false)) else None
    else Some(Decode(cfg, a[0], OptionText(cfg, a[0]), Head(a[1..])))
  }

  /** What is reported from there on. */
  function From(cfg: Config, all: bool, a: seq<string>, nextchar: string): (m: Straight)
    requires nextchar != "" ==> a != []
  {
    if nextchar == "" then InOrder(cfg, all, a)
    else Onward(cfg, all, a, Element(cfg, a[0], nextchar, Head(a[1..])))
  }

  /** After a move, what is ahead. */
  function Behind(cfg: Config, all: bool, a: seq<string>, d: Decoded): (m: Straight)
    requires d.advance <= |a| && (d.nextchar != "" ==> d.advance == 0 && a != [])
  {
    var m := From(cfg, all, a[d.advance..], d.nextchar);
    Straight([d.event] + m.events, d.advance + m.used)
  }

  /** A scan is its first move and the rest. */
  lemma {:induction false} MoveByMove(cfg: Config, all: bool, a: seq<string>, nextchar: string)
    requires nextchar != "" ==> a != []
    ensures var d := FirstMove(cfg, all, a, nextchar);
            if d.None? then From(cfg, all, a, nextchar).events == []
            else a != [] && From(cfg, all, a, nextchar) == Behind(cfg, all, a, d.value)
  {
    hide Decode;
    if nextchar != "" {
      OnwardStep(cfg, all, a, nextchar);
      assert a[0..] == a;
    } else if a != [] && a[0] != DASH_DASH && !IsOperand(a[0]) {
      OnwardStep(cfg, all, a, OptionText(cfg, a[0]));
      assert a[0..] == a;
    }
  }

  /** A scan whose first move is made with the options of c1 and every later one with
      those of c0. */
  function Forgetful(c1: Config, c0: Config, all: bool, a: seq<string>): (m: Straight) {
    var d := FirstMove(c1, all, a, "");
    if d.None? then InOrder(c1, all, a) else Behind(c0, all, a, d.value)
  }

  // ------------------------------------------------- with the prefix left on

  /** c0 is c1 with a prefix in front of the option string. */
  predicate Prefixed(c1: Config, c0: Config) {
    c0.optstring != "" && c0.optstring[0] in {'-', '+'} && c1 == c0.(optstring := c0.optstring[1..])
  }

  /** What a prefix left on means where it is met as an option character: it takes
      an argument if the option string behind it begins with colons. */
  function PrefixEvent(optstring: string, prefix: char, rest: string, next: Option<string>): Event {
    if At(optstring, 0) != ':' then Event(prefix as int, None)
    else if rest != "" then Event(prefix as int, Some(rest))
    else if At(optstring, 1) == ':' then Event(prefix as int, None)
    else if next.None? then Event(QUESTION, None)
    else Event(prefix as int, next)
  }

  /** The step meets the prefix character, and no long option is looked up or found. */
  predicate MeetsPrefix(c: Config, prefix: char, elem: string, nextchar: string)
    requires nextchar != ""
  {
    && nextchar[0] == prefix
    && (|| c.longopts.None?
        || (At(elem, 1) != '-' && (|| !c.longOnly
                                   || (|elem| <= 2 && At(elem, 1) == prefix)
                                   || (|elem| <= 2 && At(elem, 1) in c.optstring)
                                   || Lookup(c.longopts.value, nextchar[..FirstIndex(nextchar, '=', 0)]).NoMatch?)))
  }

  /** A step that reports the same with the prefix left on: the prefix met as an
      option happens to be what the step reports, or no argument is missed whose
      code a colon behind the prefix has changed. */
  predicate Unharmed(c: Config, prefix: char, elem: string, nextchar: string, next: Option<string>)
    requires nextchar != ""
  {
    var d := Decode(c, elem, nextchar, next);
    if MeetsPrefix(c, prefix, elem, nextchar) then d.event == PrefixEvent(c.optstring, prefix, nextchar[1..], next)
    else !(d.starved && At(c.optstring, 0) == ':')
  }

  predicate MoveUnharmed(c: Config, prefix: char, a: seq<string>, nextchar: string)
    requires a != []
  {
    if nextchar != "" then Unharmed(c, prefix, a[0], nextchar, Head(a[1..]))
    else if a[0] == DASH_DASH || IsOperand(a[0]) then true
    else Unharmed(c, prefix, a[0], OptionText(c, a[0]), Head(a[1..]))
  }

  /** So it is of every move that a scan with the stripped option string makes. */
  ghost predicate AllUnharmed(c: Config, prefix: char, all: bool, a: seq<string>, nextchar: string)
    requires nextchar != "" ==> a != []
    decreases |a|, |nextchar| + if nextchar == "" && a != [] then |a[0]| + 1 else 0
  {
    var d := FirstMove(c, all, a, nextchar);
    d.None? || (&& MoveUnharmed(c, prefix, a, nextchar)
                && (d.value.advance > 0 ==> AllUnharmed(c, prefix, all, a[d.value.advance..], ""))
                && (d.value.advance == 0 ==> AllUnharmed(c, prefix, all, a, d.value.nextchar)))
  }

  predicate EndOf(nextchar: string, elem: string) {
    0 < |nextchar| < |elem| && nextchar == elem[|elem| - |nextchar|..]
  }

  lemma {:induction false} IndexBehind(s: string, c: char, from: nat)
    requires 1 <= from <= |s|
    ensures FirstIndex(s, c, from) == 1 + FirstIndex(s[1..], c, from - 1)
    decreases |s| - from
  {
    if from < |s| && s[from] != c { IndexBehind(s, c, from + 1); }
  }

  lemma PrefixedIndex(c1: Config, c0: Config, c: char)
    requires Prefixed(c1, c0)
    ensures FirstIndex(c0.optstring, c, 0) == if c == c0.optstring[0] then 0 else 1 + FirstIndex(c1.optstring, c, 0)
  {
    IndexBehind(c0.optstring, c, 1);
  }

  lemma ShortAlike(c1: Config, c0: Config, nextchar: string, next: Option<string>)
    requires Prefixed(c1, c0) && nextchar != ""
    ensures var d1, d0 := DecodeShort(c1, nextchar, next), DecodeShort(c0, nextchar, next);
            && (d0.event == d1.event ==> d0.advance == d1.advance && d0.nextchar == d1.nextchar)
            && if nextchar[0] == c0.optstring[0] then d0.event == PrefixEvent(c1.optstring, nextchar[0], nextchar[1..], next)
               else d0.event == d1.event <==> !(d1.starved && At(c1.optstring, 0) == ':')
  {
    hide FirstIndex;
    PrefixedIndex(c1, c0, nextchar[0]);
  }

  lemma FoundLongAlike(c1: Config, c0: Config, p: LongOpt, nextchar: string, next: Option<string>)
    requires Prefixed(c1, c0)
    ensures var d1, d0 := FoundLong(c1, p, nextchar, next), FoundLong(c0, p, nextchar, next);
            && (d0.event == d1.event ==> d0.advance == d1.advance && d0.nextchar == d1.nextchar)
            && (d0.event == d1.event <==> !(d1.starved && At(c1.optstring, 0) == ':'))
  {
  }

  /** Just these steps report the same with the prefix left on, and then they move
      the same. */
  lemma DecodeAlike(c1: Config, c0: Config, elem: string, nextchar: string, next: Option<string>)
    requires Prefixed(c1, c0) && EndOf(nextchar, elem)
    ensures var d1, d0 := Decode(c1, elem, nextchar, next), Decode(c0, elem, nextchar, next);
            && (d0.event == d1.event <==> Unharmed(c1, c0.optstring[0], elem, nextchar, next))
            && (d0.event == d1.event ==> d0.advance == d1.advance && d0.nextchar == d1.nextchar)
  {
    hide FirstIndex, Decode, Unharmed;
    PrefixedIndex(c1, c0, At(elem, 1));
    if !TriesLong(c0, elem) {
      if !TriesLong(c1, elem) { NoLongAlike(c1, c0, elem, nextchar, next); } else { PairAlike(c1, c0, elem, nextchar, next); }
    } else {
      LongAlike(c1, c0, elem, nextchar, next);
    }
  }

  lemma NoLongAlike(c1: Config, c0: Config, elem: string, nextchar: string, next: Option<string>)
    requires Prefixed(c1, c0) && EndOf(nextchar, elem) && !TriesLong(c0, elem) && !TriesLong(c1, elem)
    ensures var d1, d0 := Decode(c1, elem, nextchar, next), Decode(c0, elem, nextchar, next);
            && (d0.event == d1.event <==> Unharmed(c1, c0.optstring[0], elem, nextchar, next))
            && (d0.event == d1.event ==> d0.advance == d1.advance && d0.nextchar == d1.nextchar)
  {
    hide FirstIndex, DecodeShort, FoundLong, Lookup, PrefixEvent;
    ShortAlike(c1, c0, nextchar, next);
  }

  /** A dash and the prefix: only without it long options are tried. */
  lemma PairAlike(c1: Config, c0: Config, elem: string, nextchar: string, next: Option<string>)
    requires Prefixed(c1, c0) && EndOf(nextchar, elem) && !TriesLong(c0, elem) && TriesLong(c1, elem)
    ensures var d1, d0 := Decode(c1, elem, nextchar, next), Decode(c0, elem, nextchar, next);
            && (d0.event == d1.event <==> Unharmed(c1, c0.optstring[0], elem, nextchar, next))
            && (d0.event == d1.event ==> d0.advance == d1.advance && d0.nextchar == d1.nextchar)
  {
    hide DecodeShort, FoundLong, Lookup, PrefixEvent;
    PrefixedIndex(c1, c0, At(elem, 1));
    ShortAlike(c1, c0, nextchar, next);
    assert nextchar[0] == elem[1] == c0.optstring[0];
    OneCharMoves(c1, elem, nextchar, next);
    OneCharMoves(c0, elem, nextchar, next);
  }

  lemma LongAlike(c1: Config, c0: Config, elem: string, nextchar: string, next: Option<string>)
    requires Prefixed(c1, c0) && EndOf(nextchar, elem) && TriesLong(c0, elem)
    ensures var d1, d0 := Decode(c1, elem, nextchar, next), Decode(c0, elem, nextchar, next);
            && (d0.event == d1.event <==> Unharmed(c1, c0.optstring[0], elem, nextchar, next))
            && (d0.event == d1.event ==> d0.advance == d1.advance && d0.nextchar == d1.nextchar)
  {
    hide FirstIndex, DecodeShort, FoundLong, Lookup, PrefixEvent;
    PrefixedIndex(c1, c0, nextchar[0]);
    PrefixedIndex(c1, c0, At(elem, 1));
    ShortAlike(c1, c0, nextchar, next);
    var r := Lookup(c1.longopts.value, nextchar[..FirstIndex(nextchar, '=', 0)]);
    if r.Match? {
      FoundLongAlike(c1, c0, c1.longopts.value[r.index], nextchar, next);
    } else if |nextchar| > 1 {
      PrefixShort(c1, c0, nextchar, next);
    } else if nextchar[0] == c0.optstring[0] {
      OneCharMoves(c1, elem, nextchar, next);
      OneCharMoves(c0, elem, nextchar, next);
    }
  }

  /** Of the last character of an element: whether the next element is used shows. */
  lemma OneCharMoves(cfg: Config, elem: string, nextchar: string, next: Option<string>)
    requires |nextchar| == 1 && nextchar[0] in {'-', '+'}
    ensures var d := Decode(cfg, elem, nextchar, next);
            d.nextchar == "" && d.advance == if d.event.arg.Some? then 2 else 1
  {
    assert nextchar[1..] == "";
  }

  /** With the prefix left on, the prefix character is an option. */
  lemma PrefixShort(c1: Config, c0: Config, nextchar: string, next: Option<string>)
    requires Prefixed(c1, c0) && |nextchar| > 1
    ensures nextchar[0] == c0.optstring[0] ==> DecodeShort(c0, nextchar, next).event.code == nextchar[0] as int
  {
  }

  /** A step inside an element leaves an end of it. */
  lemma StaysEnd(cfg: Config, elem: string, nextchar: string, next: Option<string>)
    requires EndOf(nextchar, elem)
    ensures var d := Decode(cfg, elem, nextchar, next); d.nextchar != "" ==> EndOf(d.nextchar, elem)
  {
    hide Lookup, FirstIndex;
    assert nextchar[1..] == elem[|elem| - |nextchar| + 1..];
  }

  lemma TextIsEnd(cfg: Config, elem: string)
    requires !IsOperand(elem) && elem != DASH_DASH
    ensures EndOf(OptionText(cfg, elem), elem)
  {
  }

  lemma SameStraight(e0: Event, m0: Straight, e1: Event, m1: Straight, n: nat)
    ensures [e0] + m0.events == [e1] + m1.events <==> e0 == e1 && m0.events == m1.events
    ensures e0 == e1 && m0 == m1 ==> Straight([e0] + m0.events, n + m0.used) == Straight([e1] + m1.events, n + m1.used)
  {
    assert ([e0] + m0.events)[0] == e0 && ([e1] + m1.events)[0] == e1;
    assert ([e0] + m0.events)[1..] == m0.events && ([e1] + m1.events)[1..] == m1.events;
  }

  /** The move both make from a place in the list, if they report the same. */
  lemma MoveAlike(c1: Config, c0: Config, all: bool, a: seq<string>, nextchar: string)
    requires Prefixed(c1, c0) && (nextchar != "" ==> a != [] && EndOf(nextchar, a[0]))
    ensures var d1, d0 := FirstMove(c1, all, a, nextchar), FirstMove(c0, all, a, nextchar);
            && (d1.None? <==> d0.None?)
            && (d1.Some? ==> (d0.value.event == d1.value.event <==> MoveUnharmed(c1, c0.optstring[0], a, nextchar)))
            && (d1.Some? && d0.value.event == d1.value.event ==>
                  d0.value.advance == d1.value.advance && d0.value.nextchar == d1.value.nextchar)
            && (d1.Some? && d1.value.nextchar != "" ==> a != [] && EndOf(d1.value.nextchar, a[0]))
  {
    hide Decode, EndOf, Unharmed;
    if nextchar != "" {
      DecodeAlike(c1, c0, a[0], nextchar, Head(a[1..]));
      StaysEnd(c1, a[0], nextchar, Head(a[1..]));
    } else if a != [] && a[0] != DASH_DASH && !IsOperand(a[0]) {
      var text := OptionText(c1, a[0]);
      TextIsEnd(c1, a[0]);
      DecodeAlike(c1, c0, a[0], text, Head(a[1..]));
      StaysEnd(c1, a[0], text, Head(a[1..]));
    }
  }

  /** Two scans report the same if and only if they do so at every move. */
  lemma {:induction false} AlikeExactly(c1: Config, c0: Config, all: bool, a: seq<string>, nextchar: string)
    requires Prefixed(c1, c0) && (nextchar != "" ==> a != [] && EndOf(nextchar, a[0]))
    ensures From(c0, all, a, nextchar).events == From(c1, all, a, nextchar).events <==> AllUnharmed(c1, c0.optstring[0], all, a, nextchar)
    ensures AllUnharmed(c1, c0.optstring[0], all, a, nextchar) ==> From(c0, all, a, nextchar).used == From(c1, all, a, nextchar).used
    decreases |a|, |nextchar| + if nextchar == "" && a != [] then |a[0]| + 1 else 0
  {
    MoveByMove(c1, all, a, nextchar);
    MoveByMove(c0, all, a, nextchar);
    MoveAlike(c1, c0, all, a, nextchar);
    var d1, d0 := FirstMove(c1, all, a, nextchar), FirstMove(c0, all, a, nextchar);
    if d1.Some? {
      hide From, FirstMove, MoveUnharmed;
      if d1.value.advance > 0 {
        AlikeExactly(c1, c0, all, a[d1.value.advance..], "");
      } else {
        AlikeExactly(c1, c0, all, a, d1.value.nextchar);
        assert a[0..] == a;
      }
      SameStraight(d0.value.event, From(c0, all, a[d0.value.advance..], d0.value.nextchar),
                   d1.value.event, From(c1, all, a[d1.value.advance..], d1.value.nextchar), d1.value.advance);
    }
  }

  /** Every move after the first is unharmed. */
  ghost predicate LaterUnharmed(c: Config, prefix: char, all: bool, a: seq<string>) {
    var d := FirstMove(c, all, a, "");
    d.None? || AllUnharmed(c, prefix, all, a[d.value.advance..], d.value.nextchar)
  }

  /** A scan that forgets that the prefix was stripped reports what it should if and
      only if no later move meets the prefix as an option that it is not, or misses
      an argument whose code has changed. */
  lemma PrefixMatters(c1: Config, c0: Config, all: bool, a: seq<string>)
    requires Prefixed(c1, c0)
    ensures Forgetful(c1, c0, all, a).events == InOrder(c1, all, a).events <==> LaterUnharmed(c1, c0.optstring[0], all, a)
    ensures LaterUnharmed(c1, c0.optstring[0], all, a) ==> Forgetful(c1, c0, all, a) == InOrder(c1, all, a)
  {
    hide InOrder, AllUnharmed, FirstMove;
    var d := FirstMove(c1, all, a, "");
    MoveByMove(c1, all, a, "");
    MoveAlike(c1, c0, all, a, "");
    if d.Some? {
      var rest, next := a[d.value.advance..], d.value.nextchar;
      if next != "" { assert rest == a; }
      AlikeExactly(c1, c0, all, rest, next);
      SameStraight(d.value.event, From(c0, all, rest, next), d.value.event, From(c1, all, rest, next), d.value.advance);
    }
  }

  /** With the option string `+a` the list `-a -+` is one known option and one that
      is not; with the prefix left on both are known. */
  lemma PrefixIsTakenForOption(all: bool)
    ensures var c1, c0 := Config("a", None, false, true), Config("+a", None, false, true);
            var a := ["-a", "-+"];
            && !LaterUnharmed(c1, '+', all, a)
            && InOrder(c1, all, a).events != Forgetful(c1, c0, all, a).events
  {
    hide InOrder, FirstIndex;
    var c1, c0 := Config("a", None, false, true), Config("+a", None, false, true);
    var a := ["-a", "-+"];
    assert FirstIndex("a", 'a', 0) == 0 && FirstIndex("a", '+', 0) == 1;
    assert a[0][1..] == "a" && a[1..] == ["-+"] && "a"[1..] == "" && "-+"[1..] == "+" && "+"[1..] == "";
    assert !MoveUnharmed(c1, '+', ["-+"], "");
    PrefixMatters(c1, c0, all, a);
  }

  lemma NothingForgotten(c: Config, all: bool, a: seq<string>)
    ensures Forgetful(c, c, all, a) == InOrder(c, all, a)
  {
    hide InOrder, FirstMove;
    MoveByMove(c, all, a, "");
  }

  // ------------------------------------------------------ a stable partition

  /** `a` is `x` and `y` shuffled together, each in its own order. */
  ghost predicate IsMerge(a: seq<string>, x: seq<string>, y: seq<string>) {
    if a == [] then x == [] && y == []
    else
      || (x != [] && x[0] == a[0] && IsMerge(a[1..], x[1..], y))
      || (y != [] && y[0] == a[0] && IsMerge(a[1..], x, y[1..]))
  }

  lemma {:induction false} MergeLeft(a: seq<string>, x: seq<string>, y: seq<string>, k: nat)
    requires k <= |a| && IsMerge(a[k..], x, y)
    ensures IsMerge(a, a[..k] + x, y)
    decreases k
  {
    if k > 0 {
      assert a[1..][k - 1..] == a[k..];
      MergeLeft(a[1..], x, y, k - 1);
      assert (a[..k] + x)[1..] == a[1..][..k - 1] + x;
    } else {
      assert a[..0] + x == x && a[0..] == a;
    }
  }

  lemma {:induction false} MergeAllRight(a: seq<string>)
    ensures IsMerge(a, [], a)
  {
    if a != [] { MergeAllRight(a[1..]); }
  }

  /** Options and operands are a stable partition of the list: both keep their
      order, and nothing else is in the list. */
  lemma {:induction false} ScanIsStablePartition(cfg: Config, a: seq<string>)
    ensures IsMerge(a, Scan(cfg, a).opts, Scan(cfg, a).operands)
    decreases |a|
  {
    if a != [] {
      if IsOperand(a[0]) {
        ScanIsStablePartition(cfg, a[1..]);
        var m := Scan(cfg, a[1..]);
        assert ([a[0]] + m.operands)[1..] == m.operands;
      } else if a[0] == DASH_DASH {
        MergeAllRight(a[1..]);
      } else {
        var r := Element(cfg, a[0], OptionText(cfg, a[0]), Head(a[1..]));
        ScanIsStablePartition(cfg, a[r.advance..]);
        var m := Scan(cfg, a[r.advance..]);
        MergeLeft(a, m.opts, m.operands, r.advance);
      }
    }
  }

  lemma {:induction false} MergeIsPermutation(a: seq<string>, x: seq<string>, y: seq<string>)
    requires IsMerge(a, x, y)
    ensures multiset(a) == multiset(x + y)
    decreases |a|
  {
    if a == [] {
      assert x + y == [];
    } else {
      assert a == [a[0]] + a[1..];
      if x != [] && x[0] == a[0] && IsMerge(a[1..], x[1..], y) {
        MergeIsPermutation(a[1..], x[1..], y);
        assert x + y == [a[0]] + (x[1..] + y);
      } else {
        MergeIsPermutation(a[1..], x, y[1..]);
        assert y == [a[0]] + y[1..];
        assert multiset(x + y) == multiset(x) + multiset([a[0]]) + multiset(y[1..]);
      }
    }
  }

  // ------------------------------------------------- scanning the result again

  /** A step looks at the next element only to take it as an argument. */
  lemma NextMattersOnlyIfTaken(cfg: Config, elem: string, nextchar: string, next: Option<string>, other: Option<string>)
    requires nextchar != ""
    ensures var d := Decode(cfg, elem, nextchar, next);
            && (!d.starved && d.advance < 2 ==> Decode(cfg, elem, nextchar, other) == d)
            && (d.starved && other.Some? ==> Decode(cfg, elem, nextchar, other).advance == 2)
  {
  }

  lemma {:induction false} ElementNext(cfg: Config, elem: string, nextchar: string, next: Option<string>, other: Option<string>)
    requires nextchar != ""
    ensures var r := Element(cfg, elem, nextchar, next);
            && (!r.starved && r.advance < 2 ==> Element(cfg, elem, nextchar, other) == r)
            && (r.starved && other.Some? ==> Element(cfg, elem, nextchar, other).advance == 2)
    decreases |nextchar|
  {
    NextMattersOnlyIfTaken(cfg, elem, nextchar, next, other);
    var d := Decode(cfg, elem, nextchar, next);
    if d.advance == 0 {
      ElementNext(cfg, elem, d.nextchar, next, other);
    }
  }

  lemma {:induction false} StarvedIsLast(cfg: Config, a: seq<string>)
    ensures var m := Scan(cfg, a); m.starved ==> !m.ended
    decreases |a|
  {
    if a != [] {
      if IsOperand(a[0]) {
        StarvedIsLast(cfg, a[1..]);
      } else if a[0] != DASH_DASH {
        var r := Element(cfg, a[0], OptionText(cfg, a[0]), Head(a[1..]));
        StarvedIsLast(cfg, a[r.advance..]);
        assert r.starved ==> a[r.advance..] == [];
      }
    }
  }

  lemma {:induction false} OperandsLookLikeOperands(cfg: Config, a: seq<string>)
    ensures var m := Scan(cfg, a); m.ended || AllOperands(m.operands)
    decreases |a|
  {
    if a != [] {
      if IsOperand(a[0]) {
        OperandsLookLikeOperands(cfg, a[1..]);
      } else if a[0] != DASH_DASH {
        var r := Element(cfg, a[0], OptionText(cfg, a[0]), Head(a[1..]));
        OperandsLookLikeOperands(cfg, a[r.advance..]);
      }
    }
  }

  lemma {:induction false} ScanOperands(cfg: Config, t: seq<string>)
    requires AllOperands(t)
    ensures Scan(cfg, t) == Meaning([], t, [], false, false)
  {
    if t != [] {
      ScanOperands(cfg, t[1..]);
      assert [t[0]] + t[1..] == t;
    }
  }

  /** A list that begins as `a` does, with other options and operands behind its
      first option, is scanned over that option as `a` is. */
  lemma SameFirstOption(cfg: Config, a: seq<string>, b: seq<string>)
    requires a != [] && !IsOperand(a[0]) && a[0] != DASH_DASH
    requires var r := Element(cfg, a[0], OptionText(cfg, a[0]), Head(a[1..]));
             r.advance <= |b| && b[..r.advance] == a[..r.advance] && (r.starved ==> |b| == 1)
    ensures Scan(cfg, b) == After(cfg, b, Element(cfg, a[0], OptionText(cfg, a[0]), Head(a[1..])))
  {
    hide Element, Scan, After;
    var text := OptionText(cfg, a[0]);
    var r := Element(cfg, a[0], text, Head(a[1..]));
    assert b[0] == b[..r.advance][0] == a[..r.advance][0] == a[0];
    ScanOption(cfg, b);
    if r.advance == 2 {
      assert b[1] == b[..2][1] == a[..2][1] == a[1];
    } else if r.starved {
      assert a[1..] == [] && b[1..] == [];
    } else {
      ElementNext(cfg, a[0], text, Head(a[1..]), Head(b[1..]));
    }
  }

  /** Scanning the options with operands `t` behind them means the same as the
      original scan, with operands `t`. */
  lemma {:induction false} Rescan(cfg: Config, a: seq<string>, t: seq<string>)
    requires var m := Scan(cfg, a); (m.ended || AllOperands(t)) && (m.starved ==> t == [])
    ensures var m := Scan(cfg, a); Scan(cfg, m.opts + t) == m.(operands := t)
    decreases |a|
  {
    hide Scan, Element, AllOperands, Decode;
    var m := Scan(cfg, a);
    if a == [] {
      ScanNothing(cfg);
      assert m.opts + t == t;
      ScanOperands(cfg, t);
    } else if IsOperand(a[0]) {
      ScanOperand(cfg, a);
      Rescan(cfg, a[1..], t);
    } else if a[0] == DASH_DASH {
      ScanDashDash(cfg, a);
      ScanDashDash(cfg, m.opts + t);
      assert (m.opts + t)[1..] == t;
    } else {
      ScanOption(cfg, a);
      var r := Element(cfg, a[0], OptionText(cfg, a[0]), Head(a[1..]));
      var k := r.advance;
      Rescan(cfg, a[k..], t);
      StarvedTakesAll(cfg, a);
      var m1, b := Scan(cfg, a[k..]), m.opts + t;
      assert b[..k] == a[..k] && b[k..] == m1.opts + t;
      SameFirstOption(cfg, a, b);
    }
  }

  /** An option that went without its argument was the last element. */
  lemma StarvedTakesAll(cfg: Config, a: seq<string>)
    requires a != [] && !IsOperand(a[0]) && a[0] != DASH_DASH
    ensures var r := Element(cfg, a[0], OptionText(cfg, a[0]), Head(a[1..]));
            r.starved ==> |a| == 1 && r.advance == 1 && Scan(cfg, a[r.advance..]) == Meaning([], [], [], false, false)
  {
    hide Scan;
    var r := Element(cfg, a[0], OptionText(cfg, a[0]), Head(a[1..]));
    ScanNothing(cfg);
    if r.starved {
      assert a[1..] == [];
    }
  }

  /** An option left without its argument swallows whatever is put behind it. */
  lemma {:induction false} RescanStarved(cfg: Config, a: seq<string>, t: seq<string>)
    requires Scan(cfg, a).starved && t != []
    ensures |Scan(cfg, Scan(cfg, a).opts + t).opts| > |Scan(cfg, a).opts|
    decreases |a|
  {
    var m := Scan(cfg, a);
    if IsOperand(a[0]) {
      RescanStarved(cfg, a[1..], t);
    } else if a[0] != DASH_DASH {
      var text := OptionText(cfg, a[0]);
      var r := Element(cfg, a[0], text, Head(a[1..]));
      var k := r.advance;
      var m1 := Scan(cfg, a[k..]);
      var b := m.opts + t;
      assert b[0] == a[0] && b[k..] == m1.opts + t && b[..k] == a[..k];
      ElementNext(cfg, a[0], text, Head(a[1..]), Head(b[1..]));
      var r' := Element(cfg, b[0], text, Head(b[1..]));
      assert Scan(cfg, b) == After(cfg, b, r');
      if r.starved {
        assert a[k..] == [];
      } else {
        RescanStarved(cfg, a[k..], t);
        if k == 2 { assert Head(b[1..]) == Head(a[1..]); }
      }
    }
  }

  /** The permuted list means what the original list meant, and scanning it
      again would leave it alone, exactly when the last option did not go
      without its argument while there were operands to mistake for one. */
  lemma PermutingKeepsMeaning(cfg: Config, a: seq<string>)
    ensures var m := Scan(cfg, a);
            Scan(cfg, m.opts + m.operands) == m <==> !(m.starved && m.operands != [])
  {
    var m := Scan(cfg, a);
    OperandsLookLikeOperands(cfg, a);
    if m.starved && m.operands != [] {
      RescanStarved(cfg, a, m.operands);
    } else {
      Rescan(cfg, a, m.operands);
    }
  }
}
