/** What options look like when they are written down, and that scanning a list
    reads what was written: each option with its argument, and each operand. */
module OptionSpelling {
  import opened Bytes
  import opened OptionGrammar
  import opened ArgPartition

  /** What an option string says about a character where it first lists it. */
  datatype Takes = Nothing | Required | Optional

  predicate MarkedAt(o: string, t: nat, k: Takes) {
    match k
    case Nothing => At(o, t + 1) != ':'
    case Required => At(o, t + 1) == ':' && At(o, t + 2) != ':'
    case Optional => At(o, t + 1) == ':' && At(o, t + 2) == ':'
  }

  ghost predicate Declares(o: string, c: char, k: Takes) {
    c != ':' && exists t: nat :: t < |o| && o[t] == c && c !in o[..t] && MarkedAt(o, t, k)
  }

  /** A single dash starts a short option, whatever follows. */
  predicate ShortOnly(cfg: Config) { cfg.longopts.None? || !cfg.longOnly }

  /** The long option that a name stands for. */
  function Named(cfg: Config, name: string): Option<LongOpt> {
    if cfg.longopts.Some? && Lookup(cfg.longopts.value, name).Match? then Some(cfg.longopts.value[Lookup(cfg.longopts.value, name).index])
    else None
  }

  // ------------------------------------------------------- a step inside an element

  lemma IndexIs(o: string, c: char, t: nat)
    requires t < |o| && o[t] == c && c !in o[..t]
    ensures FirstIndex(o, c, 0) == t
  {
    forall j | 0 <= j < t ensures o[j] != c { assert o[j] == o[..t][j]; }
  }

  /** A short option: alone; with its argument behind it or in the next element, or
      without it; and with an argument behind it that it may have. */
  lemma ShortStep(cfg: Config, elem: string, c: char, rest: string, next: Option<string>, k: Takes)
    requires Declares(cfg.optstring, c, k)
    requires cfg.longopts.None? || (At(elem, 1) != '-' && (!cfg.longOnly || (|elem| == 2 && At(elem, 1) in cfg.optstring)))
    ensures var d, none := Decode(cfg, elem, [c] + rest, next), Event(c as int, None);
            match k
            case Nothing => d == Decoded(none, if rest == "" then 1 else 0, rest, false)
            case Optional => d == Decoded(if rest == "" then none else Event(c as int, Some(rest)), 1, "", false)
            case Required =>
              if rest != "" then d == Decoded(Event(c as int, Some(rest)), 1, "", false)
              else if next.Some? then d == Decoded(Event(c as int, next), 2, "", false)
              else d == Decoded(Event(if cfg.optstring != "" && cfg.optstring[0] == ':' then ':' as int else '?' as int, None), 1, "", true)
  {
    hide Lookup;
    var o := cfg.optstring;
    var t: nat :| t < |o| && o[t] == c && c !in o[..t] && MarkedAt(o, t, k);
    IndexIs(o, c, t);
    assert ([c] + rest)[1..] == rest;
  }

  /** A character that is not listed is reported as such. */
  lemma UnknownStep(cfg: Config, elem: string, c: char, rest: string, next: Option<string>)
    requires c !in cfg.optstring || c == ':'
    requires cfg.longopts.None? || (At(elem, 1) != '-' && !cfg.longOnly)
    ensures Decode(cfg, elem, [c] + rest, next) == Decoded(Event('?' as int, None), if rest == "" then 1 else 0, rest, false)
  {
    assert ([c] + rest)[1..] == rest;
  }

  lemma NameEnds(name: string, rest: string)
    requires '=' !in name && (rest != "" ==> rest[0] == '=')
    ensures FirstIndex(name + rest, '=', 0) == |name| && (name + rest)[..|name|] == name
  {
    if rest != "" { assert (name + rest)[|name|] == '='; }
    forall j | 0 <= j < |name| ensures (name + rest)[j] != '=' { assert (name + rest)[j] == name[j]; }
  }

  /** A long option with an argument behind an equals sign: it is the text behind the
      sign. One that takes none is then an error, or the argument is passed over. */
  lemma LongStepWith(cfg: Config, name: string, value: string, next: Option<string>)
    requires '=' !in name && Named(cfg, name).Some?
    ensures var p := Named(cfg, name).value;
            var code := if p.flag then 0 else p.val;
            Decode(cfg, "--" + name + "=" + value, name + "=" + value, next)
            == Decoded(if p.hasArg != 0 then Event(code, Some(value))
                       else if cfg.opterr then Event('?' as int, None) else Event(code, None), 1, "", false)
  {
    hide Lookup, FirstIndex;
    var text := name + "=" + value;
    assert text == name + ("=" + value);
    NameEnds(name, "=" + value);
    assert text[|name| + 1..] == value;
  }

  /** A long option without one takes the next element if it needs an argument. */
  lemma LongStep(cfg: Config, name: string, next: Option<string>)
    requires name != "" && '=' !in name && Named(cfg, name).Some?
    ensures var p := Named(cfg, name).value;
            var code := if p.flag then 0 else p.val;
            Decode(cfg, "--" + name, name, next)
            == if p.hasArg != 1 then Decoded(Event(code, None), 1, "", false)
               else if next.Some? then Decoded(Event(code, next), 2, "", false)
               else Decoded(Event(if cfg.optstring != "" && cfg.optstring[0] == ':' then ':' as int else '?' as int, None), 1, "", true)
  {
    hide Lookup, FirstIndex;
    assert name + "" == name;
    NameEnds(name, "");
  }

  /** A name that stands for no option, or for several, is an error. */
  lemma NoSuchName(cfg: Config, name: string, next: Option<string>)
    requires name != "" && '=' !in name && cfg.longopts.Some? && Named(cfg, name).None?
    ensures Decode(cfg, "--" + name, name, next) == Decoded(Event('?' as int, None), 1, "", false)
  {
    hide Lookup, FirstIndex;
    assert name + "" == name;
    NameEnds(name, "");
  }

  // ------------------------------------------------------------- a whole list

  /** One thing to be written: an operand; short options in one element; a short
      option with its argument, behind it or in the next element; and the same for
      a long name. */
  datatype Item =
    | Operand(text: string)
    | Flags(chars: string)
    | With(c: char, value: string, apart: bool)
    | Name(name: string)
    | NameWith(name: string, value: string, apart: bool)

  ghost predicate Fits(cfg: Config, x: Item) {
    match x
    case Operand(text) => |text| < 2 || text[0] != '-'
    case Flags(cs) =>
      && cs != "" && cs[0] != '-' && (|cs| == 1 || ShortOnly(cfg))
      && forall i :: 0 <= i < |cs| ==> Declares(cfg.optstring, cs[i], Nothing)
    case With(c, value, apart) =>
      && c != '-'
      && if apart then Declares(cfg.optstring, c, Required)
         else value != "" && ShortOnly(cfg) && (Declares(cfg.optstring, c, Required) || Declares(cfg.optstring, c, Optional))
    case Name(name) => name != "" && '=' !in name && Named(cfg, name).Some? && Named(cfg, name).value.hasArg != 1
    case NameWith(name, value, apart) =>
      && name != "" && '=' !in name && Named(cfg, name).Some?
      && if apart then Named(cfg, name).value.hasArg == 1 else Named(cfg, name).value.hasArg != 0
  }

  function Spell(x: Item): seq<string> {
    match x
    case Operand(text) => [text]
    case Flags(cs) => ["-" + cs]
    case With(c, value, apart) => if apart then ["-" + [c], value] else ["-" + ([c] + value)]
    case Name(name) => ["--" + name]
    case NameWith(name, value, apart) => if apart then ["--" + name, value] else ["--" + name + "=" + value]
  }

  function LongCode(cfg: Config, name: string): int {
    if Named(cfg, name).None? || Named(cfg, name).value.flag then 0 else Named(cfg, name).value.val
  }

  function FlagEvents(cs: string): (es: seq<Event>)
    ensures |es| == |cs| && forall i :: 0 <= i < |cs| ==> es[i] == Event(cs[i] as int, None)
  {
    seq(|cs|, i requires 0 <= i < |cs| => Event(cs[i] as int, None))
  }

  function EventsOf(cfg: Config, x: Item): seq<Event> {
    match x
    case Operand(_) => []
    case Flags(cs) => FlagEvents(cs)
    case With(c, value, _) => [Event(c as int, Some(value))]
    case Name(name) => [Event(LongCode(cfg, name), None)]
    case NameWith(name, value, _) => [Event(LongCode(cfg, name), Some(value))]
  }

  /** The steps inside an element of short options. */
  lemma {:induction false} FlagsElement(cfg: Config, elem: string, cs: string, next: Option<string>)
    requires cs != "" && forall i :: 0 <= i < |cs| ==> Declares(cfg.optstring, cs[i], Nothing)
    requires |elem| >= 2 && elem[1] != '-' && (ShortOnly(cfg) || (|elem| == 2 && elem[1] == cs[0]))
    requires |cs| < |elem|
    ensures Element(cfg, elem, cs, next) == Taken(FlagEvents(cs), 1, false)
    decreases |cs|
  {
    hide Decode;
    assert [cs[0]] + cs[1..] == cs;
    assert |elem| == 2 && elem[1] == cs[0] ==> elem[1] in cfg.optstring;
    ShortStep(cfg, elem, cs[0], cs[1..], next, Nothing);
    if |cs| > 1 {
      FlagsElement(cfg, elem, cs[1..], next);
    }
    assert FlagEvents(cs) == [Event(cs[0] as int, None)] + FlagEvents(cs[1..]);
  }

  lemma OneStepElement(cfg: Config, elem: string, text: string, next: Option<string>, d: Decoded)
    requires text != "" && Decode(cfg, elem, text, next) == d && d.advance > 0
    ensures Element(cfg, elem, text, next) == Taken([d.event], d.advance, d.starved)
  {
    hide Decode;
  }

  /** The first element of an option, read to its end. */
  lemma ItemElement(cfg: Config, x: Item, next: Option<string>)
    requires Fits(cfg, x) && !x.Operand?
    requires |Spell(x)| == 2 ==> next == Some(Spell(x)[1])
    ensures var e := Spell(x)[0];
            && !IsOperand(e) && e != DASH_DASH
            && Element(cfg, e, OptionText(cfg, e), next) == Taken(EventsOf(cfg, x), |Spell(x)|, false)
  {
    hide Decode, Element, Lookup, Declares;
    var e := Spell(x)[0];
    match x {
      case Flags(cs) =>
        assert e[1..] == cs;
        FlagsElement(cfg, e, cs, next);
      case With(c, value, apart) =>
        DeclaredIsListed(cfg.optstring, c);
        var k := if Declares(cfg.optstring, c, Required) then Required else Optional;
        ShortStep(cfg, e, c, if apart then "" else value, next, k);
        assert e[1..] == [c] + if apart then "" else value;
        OneStepElement(cfg, e, [c] + if apart then "" else value, next, Decoded(Event(c as int, Some(value)), |Spell(x)|, "", false));
      case Name(name) =>
        LongStep(cfg, name, next);
        assert e[2..] == name;
        OneStepElement(cfg, e, name, next, Decoded(Event(LongCode(cfg, name), None), 1, "", false));
      case NameWith(name, value, apart) =>
        if apart {
          LongStep(cfg, name, next);
          assert e[2..] == name;
          OneStepElement(cfg, e, name, next, Decoded(Event(LongCode(cfg, name), Some(value)), 2, "", false));
        } else {
          LongStepWith(cfg, name, value, next);
          assert e[2..] == name + "=" + value;
          OneStepElement(cfg, e, name + "=" + value, next, Decoded(Event(LongCode(cfg, name), Some(value)), 1, "", false));
        }
    }
  }

  lemma DeclaredIsListed(o: string, c: char)
    ensures forall k :: Declares(o, c, k) ==> c in o
  {
  }

  /** What the scan makes of one item in front of others. */
  lemma ItemScanned(cfg: Config, x: Item, rest: seq<string>)
    requires Fits(cfg, x)
    ensures var m := Scan(cfg, rest);
            Scan(cfg, Spell(x) + rest)
            == if x.Operand? then m.(operands := [x.text] + m.operands)
               else Meaning(Spell(x) + m.opts, m.operands, EventsOf(cfg, x) + m.events, m.starved, m.ended)
  {
    hide Element, Fits, EventsOf, Scan;
    var a := Spell(x) + rest;
    assert a[|Spell(x)|..] == rest && a[..|Spell(x)|] == Spell(x) && a[0] == Spell(x)[0];
    if x.Operand? {
      assert IsOperand(x.text) by { OperandFits(cfg, x); }
      ScanOperand(cfg, a);
    } else {
      ItemElement(cfg, x, Head(a[1..]));
      ScanOption(cfg, a);
    }
  }

  lemma OperandFits(cfg: Config, x: Item)
    requires Fits(cfg, x) && x.Operand?
    ensures IsOperand(x.text)
  {
  }

  function SpellAll(xs: seq<Item>): seq<string> {
    if xs == [] then [] else Spell(xs[0]) + SpellAll(xs[1..])
  }

  function AllEvents(cfg: Config, xs: seq<Item>): seq<Event> {
    if xs == [] then [] else EventsOf(cfg, xs[0]) + AllEvents(cfg, xs[1..])
  }

  function AllOptions(xs: seq<Item>): seq<string> {
    if xs == [] then [] else (if xs[0].Operand? then [] else Spell(xs[0])) + AllOptions(xs[1..])
  }

  function Operands(xs: seq<Item>): seq<string> {
    if xs == [] then [] else (if xs[0].Operand? then [xs[0].text] else []) + Operands(xs[1..])
  }

  ghost predicate AllFit(cfg: Config, xs: seq<Item>) {
    forall i :: 0 <= i < |xs| ==> Fits(cfg, xs[i])
  }

  /** A list that was written item by item is read as these items; what stands behind
      it is read as it would be alone. */
  lemma {:induction false} SpelledIsScanned(cfg: Config, xs: seq<Item>, rest: seq<string>)
    requires AllFit(cfg, xs)
    ensures var m := Scan(cfg, rest);
            Scan(cfg, SpellAll(xs) + rest)
            == Meaning(AllOptions(xs) + m.opts, Operands(xs) + m.operands, AllEvents(cfg, xs) + m.events, m.starved, m.ended)
    decreases |xs|
  {
    hide Scan, Fits, EventsOf, Spell;
    var m := Scan(cfg, rest);
    if xs == [] {
      assert [] + rest == rest && [] + m.opts == m.opts && [] + m.operands == m.operands && [] + m.events == m.events;
    } else {
      var x, more := xs[0], SpellAll(xs[1..]) + rest;
      assert SpellAll(xs) + rest == Spell(x) + more;
      ItemScanned(cfg, x, more);
      SpelledIsScanned(cfg, xs[1..], rest);
      Joined(if x.Operand? then [] else Spell(x), AllOptions(xs[1..]), m.opts);
      Joined(if x.Operand? then [x.text] else [], Operands(xs[1..]), m.operands);
      Joined(EventsOf(cfg, x), AllEvents(cfg, xs[1..]), m.events);
      if x.Operand? { NoEvents(cfg, x); }
      assert [] + (AllOptions(xs[1..]) + m.opts) == AllOptions(xs[1..]) + m.opts;
      assert [] + (Operands(xs[1..]) + m.operands) == Operands(xs[1..]) + m.operands;
      assert [] + (AllEvents(cfg, xs[1..]) + m.events) == AllEvents(cfg, xs[1..]) + m.events;
    }
  }

  /** Without permuting: operands are reported with the code 1, or the first one ends
      the scan. */
  function EventsInOrder(cfg: Config, all: bool, xs: seq<Item>): seq<Event> {
    if xs == [] || (xs[0].Operand? && !all) then []
    else (if xs[0].Operand? then [Event(1, Some(xs[0].text))] else EventsOf(cfg, xs[0])) + EventsInOrder(cfg, all, xs[1..])
  }

  function UsedInOrder(all: bool, xs: seq<Item>): nat {
    if xs == [] || (xs[0].Operand? && !all) then 0 else |Spell(xs[0])| + UsedInOrder(all, xs[1..])
  }

  lemma ItemInOrder(cfg: Config, all: bool, x: Item, rest: seq<string>)
    requires Fits(cfg, x)
    ensures var m := InOrder(cfg, all, rest);
            InOrder(cfg, all, Spell(x) + rest)
            == if x.Operand? && !all then Straight([], 0)
               else Straight((if x.Operand? then [Event(1, Some(x.text))] else EventsOf(cfg, x)) + m.events, |Spell(x)| + m.used)
  {
    hide Element, Fits, EventsOf;
    var a := Spell(x) + rest;
    assert a[|Spell(x)|..] == rest && a[0] == Spell(x)[0];
    if x.Operand? {
      OperandFits(cfg, x);
    } else {
      ItemElement(cfg, x, Head(a[1..]));
    }
  }

  /** The same for a scan that does not permute. */
  lemma {:induction false} SpelledIsReadInOrder(cfg: Config, all: bool, xs: seq<Item>)
    requires AllFit(cfg, xs)
    ensures InOrder(cfg, all, SpellAll(xs)) == Straight(EventsInOrder(cfg, all, xs), UsedInOrder(all, xs))
    decreases |xs|
  {
    hide Fits, EventsOf, Spell, Element;
    if xs != [] {
      ItemInOrder(cfg, all, xs[0], SpellAll(xs[1..]));
      SpelledIsReadInOrder(cfg, all, xs[1..]);
    }
  }

  lemma NoEvents(cfg: Config, x: Item)
    requires x.Operand?
    ensures EventsOf(cfg, x) == []
  {
  }

  lemma Joined<T>(a: seq<T>, b: seq<T>, c: seq<T>)
    ensures (a + b) + c == a + (b + c)
  {
  }
}
