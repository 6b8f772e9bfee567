/** How one argv element is decoded, and what a whole argument list means. */
module OptionGrammar {
  import opened Bytes

  /** A long option: `hasArg` is 0 for none, 1 for required, 2 for optional. */
  datatype LongOpt = LongOpt(name: string, hasArg: int, flag: bool, val: int)

  datatype Config = Config(optstring: string, longopts: Option<seq<LongOpt>>, longOnly: bool, opterr: bool)

  /** A character of a C string, NUL at its end. */
  function At(s: string, i: nat): char {
    if i < |s| then s[i] else '\0'
  }

  /** What a call reports: the option code and its argument. */
  datatype Event = Event(code: int, arg: Option<string>)

  const QUESTION := '?' as int

  // ---------------------------------------------------------------- look-ups

  function FirstIndex(s: string, c: char, from: nat): (i: nat)
    requires from <= |s|
    ensures from <= i <= |s|
    ensures i < |s| ==> s[i] == c
    ensures forall j :: from <= j < i ==> s[j] != c
    decreases |s| - from
  {
    if from == |s| || s[from] == c then from else FirstIndex(s, c, from + 1)
  }

  method MyIndex(s: string, c: char) returns (i: nat)
    ensures i == FirstIndex(s, c, 0)
  {
    i := 0;
    while i < |s|
      invariant i <= |s| && FirstIndex(s, c, 0) == FirstIndex(s, c, i)
    {
      if s[i] == c { return; }
      i := i + 1;
    }
  }

  function FirstExact(lo: seq<LongOpt>, name: string, from: nat): (i: nat)
    requires from <= |lo|
    ensures from <= i <= |lo|
    decreases |lo| - from
  {
    if from == |lo| || lo[from].name == name then from else FirstExact(lo, name, from + 1)
  }

  function FirstAbbreviated(lo: seq<LongOpt>, name: string, from: nat): (i: nat)
    requires from <= |lo|
    ensures from <= i <= |lo|
    decreases |lo| - from
  {
    if from == |lo| || name <= lo[from].name then from else FirstAbbreviated(lo, name, from + 1)
  }

  datatype Found = NoMatch | Ambiguous | Match(index: nat)

  /** A long name stands for the option it spells, or else for the only option
      it abbreviates. */
  function Lookup(lo: seq<LongOpt>, name: string): (r: Found)
    ensures r.Match? ==> r.index < |lo|
  {
    var e := FirstExact(lo, name, 0);
    if e < |lo| then Match(e)
    else
      var f := FirstAbbreviated(lo, name, 0);
      if f == |lo| then NoMatch
      else if FirstAbbreviated(lo, name, f + 1) == |lo| then Match(f)
      else Ambiguous
  }

  lemma {:induction false} FirstFound(lo: seq<LongOpt>, name: string, from: nat)
    requires from <= |lo|
    ensures var i := FirstExact(lo, name, from);
            (i < |lo| ==> lo[i].name == name) && forall j :: from <= j < i ==> lo[j].name != name
    ensures var i := FirstAbbreviated(lo, name, from);
            (i < |lo| ==> name <= lo[i].name) && forall j :: from <= j < i ==> !(name <= lo[j].name)
    decreases |lo| - from
  {
    if from < |lo| { FirstFound(lo, name, from + 1); }
  }

  /** What looking up a long name comes to: the first option it spells; if there
      is none, the one option it abbreviates; nothing when it abbreviates none,
      and no choice when it abbreviates several. */
  lemma LookupMeans(lo: seq<LongOpt>, name: string)
    ensures var r := Lookup(lo, name);
            var spelled := exists i :: 0 <= i < |lo| && lo[i].name == name;
            && (r.NoMatch? <==> forall i :: 0 <= i < |lo| ==> !(name <= lo[i].name))
            && (r.Ambiguous? <==> !spelled && exists i, j :: 0 <= i < j < |lo| && name <= lo[i].name && name <= lo[j].name)
            && (r.Match? && spelled ==> lo[r.index].name == name && forall j :: 0 <= j < r.index ==> lo[j].name != name)
            && (r.Match? && !spelled ==> name <= lo[r.index].name && forall j :: 0 <= j < |lo| && name <= lo[j].name ==> j == r.index)
  {
    hide FirstExact, FirstAbbreviated;
    var f := FirstAbbreviated(lo, name, 0);
    FirstFound(lo, name, 0);
    if f < |lo| {
      var g := FirstAbbreviated(lo, name, f + 1);
      FirstFound(lo, name, f + 1);
      assert g < |lo| ==> name <= lo[f].name && name <= lo[g].name;
    }
  }

  method FindLong(lo: seq<LongOpt>, name: string) returns (r: Found)
    ensures r == Lookup(lo, name)
  {
    var found, ambig := None, false;
    var i := 0;
    while i < |lo|
      invariant 0 <= i <= |lo|
      invariant FirstExact(lo, name, 0) == FirstExact(lo, name, i)
      invariant found.None? ==> FirstAbbreviated(lo, name, 0) == FirstAbbreviated(lo, name, i) && !ambig
      invariant found.Some? ==> FirstAbbreviated(lo, name, 0) == found.value < i
      invariant found.Some? && !ambig ==> FirstAbbreviated(lo, name, found.value + 1) == FirstAbbreviated(lo, name, i)
      invariant found.Some? && ambig ==> FirstAbbreviated(lo, name, found.value + 1) < i
    {
      if name <= lo[i].name {
        if |name| == |lo[i].name| {
          assert name == lo[i].name;
          return Match(i);
        } else if found.None? {
          found := Some(i);
        } else {
          ambig := true;
        }
      }
      i := i + 1;
    }
    r := if ambig then Ambiguous else if found.Some? then Match(found.value) else NoMatch;
  }

  // -------------------------------------------------------- decoding an element

  /** One step inside an element: what is reported, how far ooptind moves, what
      is left of the element, and whether a required argument was missing. */
  datatype Decoded = Decoded(event: Event, advance: nat, nextchar: string, starved: bool)

  /** The element is scanned as a long option. */
  predicate TriesLong(cfg: Config, elem: string) {
    cfg.longopts.Some?
    && (At(elem, 1) == '-'
        || (cfg.longOnly && (|elem| > 2 || FirstIndex(cfg.optstring, At(elem, 1), 0) == |cfg.optstring|)))
  }

  function MissingCode(cfg: Config): int {
    if At(cfg.optstring, 0) == ':' then ':' as int else QUESTION
  }

  function FoundLong(cfg: Config, p: LongOpt, nextchar: string, next: Option<string>): (d: Decoded)
    ensures d.advance in {1, 2} && d.nextchar == ""
    ensures d.advance == 2 ==> next.Some?
  {
    var e := FirstIndex(nextchar, '=', 0);
    var code := if p.flag then 0 else p.val;
    if e < |nextchar| then
      if p.hasArg != 0 then Decoded(Event(code, Some(nextchar[e + 1..])), 1, "", false)
      else if cfg.opterr then Decoded(Event(QUESTION, None), 1, "", false)
      else Decoded(Event(code, None), 1, "", false)
    else if p.hasArg == 1 then
      if next.Some? then Decoded(Event(code, next), 2, "", false)
      else Decoded(Event(MissingCode(cfg), None), 1, "", true)
    else Decoded(Event(code, None), 1, "", false)
  }

  function DecodeShort(cfg: Config, nextchar: string, next: Option<string>): (d: Decoded)
    requires nextchar != ""
    ensures d.advance <= 2 && (d.advance == 0 <==> d.nextchar != "")
    ensures |d.nextchar| < |nextchar|
    ensures d.advance == 2 ==> next.Some?
  {
    var c, rest := nextchar[0], nextchar[1..];
    var t := FirstIndex(cfg.optstring, c, 0);
    var step := if rest == "" then 1 else 0;
    if t == |cfg.optstring| || c == ':' then Decoded(Event(QUESTION, None), step, rest, false)
    else if At(cfg.optstring, t + 1) != ':' then Decoded(Event(c as int, None), step, rest, false)
    else if rest != "" then Decoded(Event(c as int, Some(rest)), 1, "", false)
    else if At(cfg.optstring, t + 2) == ':' then Decoded(Event(c as int, None), 1, "", false)
    else if next.None? then Decoded(Event(MissingCode(cfg), None), 1, "", true)
    else Decoded(Event(c as int, next), 2, "", false)
  }

  /** Decode at `nextchar` inside `elem`; `next` is the argv element after it. */
  function Decode(cfg: Config, elem: string, nextchar: string, next: Option<string>): (d: Decoded)
    requires nextchar != ""
    ensures d.advance <= 2 && (d.advance == 0 <==> d.nextchar != "")
    ensures |d.nextchar| < |nextchar|
    ensures d.advance == 2 ==> next.Some?
  {
    if !TriesLong(cfg, elem) then DecodeShort(cfg, nextchar, next)
    else
      match Lookup(cfg.longopts.value, nextchar[..FirstIndex(nextchar, '=', 0)])
      case Ambiguous => Decoded(Event(QUESTION, None), 1, "", false)
      case Match(i) => FoundLong(cfg, cfg.longopts.value[i], nextchar, next)
      case NoMatch =>
        if !cfg.longOnly || At(elem, 1) == '-' || FirstIndex(cfg.optstring, nextchar[0], 0) == |cfg.optstring|
        then Decoded(Event(QUESTION, None), 1, "", false)
        else DecodeShort(cfg, nextchar, next)
  }

  /** The scanner's code for one step, with its searching loops. */
  method DecodeStep(cfg: Config, elem: string, nextchar: string, next: Option<string>) returns (d: Decoded)
    requires nextchar != ""
    ensures d == Decode(cfg, elem, nextchar, next)
  {
    var second := MyIndex(cfg.optstring, At(elem, 1));
    if cfg.longopts.Some?
       && (At(elem, 1) == '-' || (cfg.longOnly && (|elem| > 2 || second == |cfg.optstring|)))
    {
      var nameend := 0;
      while nameend < |nextchar| && nextchar[nameend] != '='
        invariant nameend <= |nextchar| && FirstIndex(nextchar, '=', 0) == FirstIndex(nextchar, '=', nameend)
      {
        nameend := nameend + 1;
      }
      var r := FindLong(cfg.longopts.value, nextchar[..nameend]);
      if r.Ambiguous? { return Decoded(Event(QUESTION, None), 1, "", false); }
      if r.Match? {
        var p := cfg.longopts.value[r.index];
        var arg := None;
        var advance := 1;
        if nameend < |nextchar| {
          if p.hasArg != 0 {
            arg := Some(nextchar[nameend + 1..]);
          } else if cfg.opterr {
            return Decoded(Event(QUESTION, None), 1, "", false);
          }
        } else if p.hasArg == 1 {
          if next.Some? {
            arg, advance := next, 2;
          } else {
            return Decoded(Event(if At(cfg.optstring, 0) == ':' then ':' as int else QUESTION, None), 1, "", true);
          }
        }
        return Decoded(Event(if p.flag then 0 else p.val, arg), advance, "", false);
      }
      var known := MyIndex(cfg.optstring, nextchar[0]);
      if !cfg.longOnly || At(elem, 1) == '-' || known == |cfg.optstring| {
        return Decoded(Event(QUESTION, None), 1, "", false);
      }
    }
    var c, rest := nextchar[0], nextchar[1..];
    var temp := MyIndex(cfg.optstring, c);
    var advance := if rest == "" then 1 else 0;
    if temp == |cfg.optstring| || c == ':' {
      return Decoded(Event(QUESTION, None), advance, rest, false);
    }
    var code := c as int;
    var arg, starved := None, false;
    if At(cfg.optstring, temp + 1) == ':' {
      if At(cfg.optstring, temp + 2) == ':' {
        if rest != "" {
          arg, advance := Some(rest), advance + 1;
        }
      } else if rest != "" {
        arg, advance := Some(rest), advance + 1;
      } else if next.None? {
        code := if At(cfg.optstring, 0) == ':' then ':' as int else QUESTION;
        starved := true;
      } else {
        arg, advance := next, advance + 1;
      }
      rest := "";
    }
    d := Decoded(Event(code, arg), advance, rest, starved);
  }
}
