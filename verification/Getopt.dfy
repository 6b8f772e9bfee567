/** The re-entrant scanner: one option per call, argv permuted as it goes. */
module Getopt {
  import opened Bytes

  import opened ArgvRotation
  import opened OptionGrammar
  import opened ArgPartition
  import opened OptionSpelling

  datatype Ordering = RequireOrder | Permute | ReturnInOrder

  /** A meaning with what has been settled already put in front. */
  function Settled(opts: seq<string>, operands: seq<string>, seen: Seen, m: Meaning): Meaning {
    Meaning(opts + m.opts, operands + m.operands, seen.events + m.events, seen.starved || m.starved, m.ended)
  }

  /** What has been reported so far. */
  datatype Seen = Seen(events: seq<Event>, starved: bool)
  {
    function Add(d: Decoded): Seen { Seen(events + [d.event], starved || d.starved) }
  }

  /** How far a permuting scan has got: argv[1..first] and argv[last..ind] are
      the options seen, argv[first..last] the operands skipped, argv[ind..] is
      untouched, and `m` is what the untouched part means. */
  ghost predicate Progress(cfg: Config, orig: seq<string>, a: seq<string>, first: nat, last: nat, ind: nat,
                           seen: Seen, m: Meaning)
  {
    && 1 <= first <= last <= ind <= |a| == |orig|
    && a[0] == orig[0] && a[ind..] == orig[ind..]
    && Scan(cfg, orig[1..]) == Settled(a[1..first] + a[last..ind], a[first..last], seen, m)
  }

  lemma ProgressStart(cfg: Config, orig: seq<string>)
    requires |orig| >= 1
    ensures Progress(cfg, orig, orig, 1, 1, 1, Seen([], false), Scan(cfg, orig[1..]))
  {
    var m := Scan(cfg, orig[1..]);
    assert [] + m.opts == m.opts && [] + m.operands == m.operands && [] + m.events == m.events;
    assert orig[1..1] + orig[1..1] == [];
  }

  lemma ExchangedParts(a: seq<string>, first: nat, last: nat, ind: nat)
    requires 1 <= first <= last <= ind <= |a|
    ensures var b, f := Exchanged(a, first, last, ind), first + (ind - last);
            b[0] == a[0] && b[1..f] == a[1..first] + a[last..ind] && b[f..ind] == a[first..last] && b[ind..] == a[ind..]
  {
  }

  /** Options seen since the last operands are moved in front of them. */
  lemma ProgressExchange(cfg: Config, orig: seq<string>, a: seq<string>, first: nat, last: nat, ind: nat, seen: Seen, m: Meaning)
    requires Progress(cfg, orig, a, first, last, ind, seen, m)
    ensures Progress(cfg, orig, Exchanged(a, first, last, ind), first + (ind - last), ind, ind, seen, m)
  {
    hide Exchanged;
    ExchangedParts(a, first, last, ind);
    var b, f := Exchanged(a, first, last, ind), first + (ind - last);
    assert b[1..f] + b[ind..ind] == b[1..f];
  }

  lemma ProgressNoOperands(cfg: Config, orig: seq<string>, a: seq<string>, first: nat, ind: nat, seen: Seen, m: Meaning)
    requires Progress(cfg, orig, a, first, first, ind, seen, m)
    ensures Progress(cfg, orig, a, ind, ind, ind, seen, m)
  {
    hide Scan, Settled;
    Joined(a, 1, first, ind);
    assert a[ind..ind] == a[first..first];
    assert a[1..ind] + a[ind..ind] == a[1..ind];
  }

  lemma Joined(a: seq<string>, i: nat, j: nat, k: nat)
    requires i <= j <= k <= |a|
    ensures a[i..j] + a[j..k] == a[i..k]
  {
  }

  lemma TailAt(a: seq<string>, b: seq<string>, ind: nat)
    requires ind < |a| == |b| && a[ind..] == b[ind..]
    ensures a[ind] == b[ind] == b[ind..][0] && a[ind + 1..] == b[ind + 1..] == b[ind..][1..]
  {
    assert a[ind..][0] == a[ind] && a[ind..][1..] == a[ind + 1..];
  }

  lemma ProgressSkip(cfg: Config, orig: seq<string>, a: seq<string>, first: nat, ind: nat, seen: Seen)
    requires ind < |orig|
    requires Progress(cfg, orig, a, first, ind, ind, seen, Scan(cfg, orig[ind..]))
    requires IsOperand(a[ind])
    ensures Progress(cfg, orig, a, first, ind + 1, ind + 1, seen, Scan(cfg, orig[ind + 1..]))
  {
    hide Scan;
    TailAt(a, orig, ind);
    ScanOperand(cfg, orig[ind..]);
    var m := Scan(cfg, orig[ind + 1..]);
    Joined(a, first, ind, ind + 1);
    assert a[ind..ind + 1] == [a[ind]];
    assert a[first..ind] + ([a[ind]] + m.operands) == a[first..ind + 1] + m.operands;
    assert a[ind..ind] == a[ind + 1..ind + 1];
  }

  /** A step that stays inside the element at ind. */
  lemma ProgressStep(cfg: Config, orig: seq<string>, a: seq<string>, first: nat, last: nat, ind: nat, seen: Seen,
                     nextchar: string, next: Option<string>)
    requires nextchar != "" && ind < |orig| && (next.Some? ==> ind + 1 < |orig|)
    requires Decode(cfg, orig[ind], nextchar, next).advance == 0
    requires Progress(cfg, orig, a, first, last, ind, seen, After(cfg, orig[ind..], Element(cfg, orig[ind], nextchar, next)))
    ensures var d := Decode(cfg, orig[ind], nextchar, next);
            Progress(cfg, orig, a, first, last, ind, seen.Add(d), After(cfg, orig[ind..], Element(cfg, orig[ind], d.nextchar, next)))
  {
    hide Decode, Scan;
    var d := Decode(cfg, orig[ind], nextchar, next);
    DecodeInsideNotStarved(cfg, orig[ind], nextchar, next);
    var r := Element(cfg, orig[ind], d.nextchar, next);
    var m := Scan(cfg, orig[ind..][r.advance..]);
    assert seen.events + (([d.event] + r.events) + m.events) == (seen.events + [d.event]) + (r.events + m.events);
  }

  lemma DecodeInsideNotStarved(cfg: Config, elem: string, nextchar: string, next: Option<string>)
    requires nextchar != "" && Decode(cfg, elem, nextchar, next).advance == 0
    ensures !Decode(cfg, elem, nextchar, next).starved
  {
  }

  /** The step that finishes the element at ind, with its argument if it took one. */
  lemma ProgressTake(cfg: Config, orig: seq<string>, a: seq<string>, first: nat, last: nat, ind: nat, seen: Seen,
                     nextchar: string, next: Option<string>)
    requires nextchar != "" && ind < |orig| && (next.Some? ==> ind + 1 < |orig|)
    requires Decode(cfg, orig[ind], nextchar, next).advance > 0
    requires Progress(cfg, orig, a, first, last, ind, seen, After(cfg, orig[ind..], Element(cfg, orig[ind], nextchar, next)))
    ensures var d := Decode(cfg, orig[ind], nextchar, next);
            Progress(cfg, orig, a, first, last, ind + d.advance, seen.Add(d), Scan(cfg, orig[ind + d.advance..]))
  {
    hide Decode, Scan;
    var d := Decode(cfg, orig[ind], nextchar, next);
    var k := d.advance;
    var m := Scan(cfg, orig[ind + k..]);
    assert orig[ind..][k..] == orig[ind + k..];
    assert a[ind..ind + k] == orig[ind..][..k] by { assert a[ind..][..k] == a[ind..ind + k]; }
    assert (a[1..first] + a[last..ind]) + (orig[ind..][..k] + m.opts) == (a[1..first] + a[last..ind + k]) + m.opts;
    assert seen.events + ([d.event] + m.events) == (seen.events + [d.event]) + m.events;
    assert a[ind + k..] == a[ind..][k..];
  }

  /** The scan has ended: argv holds the options and then the operands. */
  ghost predicate Finished(cfg: Config, orig: seq<string>, a: seq<string>, ind: nat, seen: Seen)
    requires |orig| >= 1
  {
    var m := Scan(cfg, orig[1..]);
    && a == [orig[0]] + m.opts + m.operands
    && ind == 1 + |m.opts|
    && seen == Seen(m.events, m.starved)
  }

  /** Finished with nothing left to look at. */
  lemma FinishedAtEnd(cfg: Config, orig: seq<string>, a: seq<string>, first: nat, seen: Seen)
    requires |a| == |orig|
    requires Progress(cfg, orig, a, first, |a|, |a|, seen, Scan(cfg, orig[|a|..]))
    ensures Finished(cfg, orig, a, first, seen)
  {
    var n := |a|;
    assert orig[n..] == [];
    assert a[n..n] == [];
    assert (a[1..first] + a[n..n]) + [] == a[1..first];
    assert a[first..n] + [] == a[first..];
    assert seen.events + [] == seen.events;
    assert a == [a[0]] + a[1..first] + a[first..];
  }

  /** Finished at `--`, once it too has been moved in front of the operands. */
  lemma FinishedAtDashDash(cfg: Config, orig: seq<string>, a: seq<string>, first: nat, ind: nat, seen: Seen)
    requires ind < |orig|
    requires Progress(cfg, orig, a, first, ind, ind, seen, Scan(cfg, orig[ind..]))
    requires a[ind] == DASH_DASH
    ensures Finished(cfg, orig, Exchanged(a, first, ind, ind + 1), first + 1, seen)
  {
    hide Exchanged, Scan;
    TailAt(a, orig, ind);
    ScanDashDash(cfg, orig[ind..]);
    ExchangedParts(a, first, ind, ind + 1);
    var b, f := Exchanged(a, first, ind, ind + 1), first + 1;
    var opts, operands := a[1..first] + a[ind..ind + 1], a[first..ind] + a[ind + 1..];
    assert a[ind..ind] == [] && a[ind..ind + 1] == [DASH_DASH];
    assert (a[1..first] + a[ind..ind]) + [DASH_DASH] == opts;
    assert seen.events + [] == seen.events;
    assert Scan(cfg, orig[1..]) == Meaning(opts, operands, seen.events, seen.starved, true);
    ThreeParts(b, f, ind + 1);
  }

  lemma ThreeParts(b: seq<string>, f: nat, i: nat)
    requires 1 <= f <= i <= |b|
    ensures b == [b[0]] + b[1..f] + (b[f..i] + b[i..])
  {
  }

  function OrderingFor(optstring: string, posixlyCorrect: bool): Ordering {
    if At(optstring, 0) == '-' then ReturnInOrder
    else if At(optstring, 0) == '+' || posixlyCorrect then RequireOrder
    else Permute
  }

  /** The option string without the prefix that picks an ordering. */
  function Stripped(optstring: string): string {
    if At(optstring, 0) in {'-', '+'} then optstring[1..] else optstring
  }

  /** Only the first call strips the prefix. Every later one takes it for an option
      character, and reports a missing argument with the code of the first call if
      and only if the string behind the prefix does not begin with a colon. */
  lemma PrefixIsForgotten(cfg: Config)
    requires At(cfg.optstring, 0) in {'-', '+'}
    ensures FirstIndex(cfg.optstring, At(cfg.optstring, 0), 0) < |cfg.optstring|
    ensures MissingCode(cfg) == MissingCode(cfg.(optstring := Stripped(cfg.optstring)))
            <==> At(Stripped(cfg.optstring), 0) != ':'
  {
  }

  lemma WhatIsForgotten(cfg: Config, all: bool, a: seq<string>)
    ensures var c1 := cfg.(optstring := Stripped(cfg.optstring));
            var m := Forgetful(c1, cfg, all, a);
            && (var d := FirstMove(c1, all, a, "");
                m == if d.None? then InOrder(c1, all, a) else Behind(cfg, all, a, d.value))
            && (m.events == InOrder(c1, all, a).events
                <==> (Stripped(cfg.optstring) == cfg.optstring || LaterUnharmed(c1, cfg.optstring[0], all, a)))
  {
    hide InOrder, FirstMove, LaterUnharmed;
    var c1 := cfg.(optstring := Stripped(cfg.optstring));
    if c1 == cfg {
      NothingForgotten(cfg, all, a);
    } else {
      PrefixMatters(c1, cfg, all, a);
    }
  }

  datatype Where = AtEnd | AtOperand | AtOption

  class Scanner {
    var ooptind: nat
    var firstNonopt: nat
    var lastNonopt: nat
    var nextchar: string          // rest of the element being decoded; a null pointer counts as empty
    var ordering: Ordering
    var ooptarg: Option<string>

    ghost var orig: seq<string>   // argv when the scan began
    ghost var seen: Seen

    /** The invariant of a permuting scan between two calls. */
    ghost predicate Running(cfg: Config, argv: array<string>)
      reads `ordering, `ooptind, `firstNonopt, `lastNonopt, `nextchar, `orig, `seen, argv
    {
      && ordering.Permute? && 0 < ooptind <= |orig|
      && if nextchar == "" then
           Progress(cfg, orig, argv[..], firstNonopt, lastNonopt, ooptind, seen, Scan(cfg, orig[ooptind..]))
         else
           && ooptind < |orig|
           && Progress(cfg, orig, argv[..], firstNonopt, lastNonopt, ooptind, seen,
                       After(cfg, orig[ooptind..], Element(cfg, orig[ooptind], nextchar, Head(orig[ooptind + 1..]))))
    }

    /** What is ahead of a scan that does not permute. */
    ghost function Ahead(cfg: Config, argv: array<string>): Straight
      requires ooptind <= argv.Length && (nextchar != "" ==> ooptind < argv.Length)
      reads `ordering, `ooptind, `nextchar, argv
    {
      From(cfg, ordering.ReturnInOrder?, argv[ooptind..], nextchar)
    }

    /** The move that a call makes which does not permute. */
    ghost function Move(cfg: Config, argv: array<string>): Option<Decoded>
      requires ooptind <= argv.Length && (nextchar != "" ==> ooptind < argv.Length)
      reads `ordering, `ooptind, `nextchar, argv
    {
      FirstMove(cfg, ordering.ReturnInOrder?, argv[ooptind..], nextchar)
    }

    constructor ()
      ensures ooptind == 0 && nextchar == ""
    {
      ooptind, firstNonopt, lastNonopt, nextchar, ordering, ooptarg := 0, 0, 0, "", Permute, None;
      orig, seen := [], Seen([], false);
    }

    /** Start a scan; a leading `-` or `+`, or POSIXLY_CORRECT, picks the ordering. */
    method Initialize(optstring: string, posixlyCorrect: bool, ghost argv: array<string>) returns (rest: string)
      modifies this
      ensures firstNonopt == lastNonopt == ooptind == 1 && nextchar == ""
      ensures ordering == OrderingFor(optstring, posixlyCorrect)
      ensures rest == Stripped(optstring)
      ensures optstring != "" && optstring[0] == '-' ==> ordering == ReturnInOrder && rest == optstring[1..]
      ensures optstring != "" && optstring[0] == '+' ==> ordering == RequireOrder && rest == optstring[1..]
      ensures optstring == "" || optstring[0] !in {'-', '+'} ==> ordering == (if posixlyCorrect then RequireOrder else Permute) && rest == optstring
      ensures orig == argv[..] && seen == Seen([], false) && ooptarg == old(ooptarg)
    {
      firstNonopt, lastNonopt, ooptind := 1, 1, 1;
      nextchar := "";
      rest := optstring;
      if At(optstring, 0) == '-' {
        ordering := ReturnInOrder;
        rest := optstring[1..];
      } else if At(optstring, 0) == '+' {
        ordering := RequireOrder;
        rest := optstring[1..];
      } else if posixlyCorrect {
        ordering := RequireOrder;
      } else {
        ordering := Permute;
      }
      orig, seen := argv[..], Seen([], false);
    }

    /** exchange(): rotate the options behind the skipped operands in front of them. */
    method ExchangeOptions(argv: array<string>)
      requires firstNonopt <= lastNonopt <= ooptind <= argv.Length
      modifies this`firstNonopt, this`lastNonopt, argv
      ensures argv[..] == Exchanged(old(argv[..]), old(firstNonopt), old(lastNonopt), ooptind)
      ensures firstNonopt == old(firstNonopt) + (ooptind - old(lastNonopt)) && lastNonopt == ooptind
    {
      Exchange(argv, firstNonopt, lastNonopt, ooptind);
      firstNonopt := firstNonopt + (ooptind - lastNonopt);
      lastNonopt := ooptind;
    }

    /** Tidy up the operands skipped so far and skip any more that follow. */
    method SkipOperands(cfg: Config, argv: array<string>)
      requires Running(cfg, argv) && nextchar == ""
      modifies this`firstNonopt, this`lastNonopt, this`ooptind, argv
      ensures Running(cfg, argv) && lastNonopt == ooptind >= old(ooptind)
      ensures ooptind < |orig| ==> !IsOperand(argv[ooptind])
    {
      hide Progress, Exchanged, Scan;
      ProgressBounds(cfg, orig, argv[..], firstNonopt, lastNonopt, ooptind, seen, Scan(cfg, orig[ooptind..]));
      if firstNonopt != lastNonopt && lastNonopt != ooptind {
        ProgressExchange(cfg, orig, argv[..], firstNonopt, lastNonopt, ooptind, seen, Scan(cfg, orig[ooptind..]));
        ExchangeOptions(argv);
      } else if lastNonopt != ooptind {
        ProgressNoOperands(cfg, orig, argv[..], firstNonopt, ooptind, seen, Scan(cfg, orig[ooptind..]));
        firstNonopt := ooptind;
      }
      while ooptind < argv.Length && IsOperand(argv[ooptind])
        invariant old(ooptind) <= ooptind <= |orig| == argv.Length
        invariant Progress(cfg, orig, argv[..], firstNonopt, ooptind, ooptind, seen, Scan(cfg, orig[ooptind..]))
      {
        ProgressSkip(cfg, orig, argv[..], firstNonopt, ooptind, seen);
        ooptind := ooptind + 1;
      }
      lastNonopt := ooptind;
    }

    lemma ProgressBounds(cfg: Config, orig: seq<string>, a: seq<string>, first: nat, last: nat, ind: nat, seen: Seen, m: Meaning)
      requires Progress(cfg, orig, a, first, last, ind, seen, m)
      ensures 1 <= first <= last <= ind <= |a| == |orig|
      ensures ind < |a| ==> a[ind] == orig[ind]
      ensures ind + 1 < |a| ==> a[ind + 1] == orig[ind + 1]
    {
      if ind < |a| { assert a[ind] == a[ind..][0]; }
      if ind + 1 < |a| { assert a[ind + 1] == a[ind..][1]; }
    }

    /** Move to the next element: the end, an operand to hand out, or an option. */
    method NextElement(cfg: Config, argv: array<string>) returns (w: Where)
      requires nextchar == "" && 0 < ooptind <= argv.Length
      requires ordering.Permute? ==> Running(cfg, argv)
      requires !ordering.Permute? ==> firstNonopt == lastNonopt <= ooptind
      modifies this`firstNonopt, this`lastNonopt, this`ooptind, this`nextchar, argv
      ensures !ordering.Permute? ==> argv[..] == old(argv[..])
      ensures !ordering.Permute? && !w.AtEnd? ==> firstNonopt == lastNonopt <= ooptind && ooptind == old(ooptind) < argv.Length
      ensures 0 < ooptind <= argv.Length && (!w.AtOption? ==> nextchar == "")
      ensures w.AtOption? ==> nextchar != "" && ooptind < argv.Length
      ensures w.AtOperand? ==> ooptind < argv.Length && IsOperand(argv[ooptind])
      ensures ordering.Permute? ==> !w.AtOperand?
      ensures ordering.Permute? && w.AtOption? ==> Running(cfg, argv) && ooptind >= old(ooptind)
      ensures ordering.Permute? && w.AtEnd? ==> Finished(cfg, orig, argv[..], ooptind, seen)
      ensures !ordering.Permute? && w.AtEnd? ==>
                && (old(ooptind) == argv.Length || old(argv[ooptind]) == DASH_DASH)
                && ooptind == old(ooptind) + if old(ooptind) == argv.Length then 0 else 1
      ensures w.AtOption? ==> !IsOperand(argv[ooptind]) && argv[ooptind] != DASH_DASH && nextchar == OptionText(cfg, argv[ooptind])
    {
      hide Progress, Exchanged, Finished, Scan, Element, After;
      if ordering.Permute? {
        SkipOperands(cfg, argv);
        ProgressBounds(cfg, orig, argv[..], firstNonopt, lastNonopt, ooptind, seen, Scan(cfg, orig[ooptind..]));
      }
      if ooptind != argv.Length && argv[ooptind] == DASH_DASH {
        if ordering.Permute? {
          FinishedAtDashDash(cfg, orig, argv[..], firstNonopt, ooptind, seen);
          ExchangedNothing(argv[..], ooptind, ooptind, ooptind + 1);
        }
        ooptind := ooptind + 1;
        if firstNonopt != lastNonopt && lastNonopt != ooptind {
          ExchangeOptions(argv);
        } else if firstNonopt == lastNonopt {
          firstNonopt := ooptind;
        }
        lastNonopt := argv.Length;
        ooptind := argv.Length;
        if firstNonopt != lastNonopt { ooptind := firstNonopt; }
        return AtEnd;
      }
      if ooptind == argv.Length {
        if ordering.Permute? { FinishedAtEnd(cfg, orig, argv[..], firstNonopt, seen); }
        if firstNonopt != lastNonopt { ooptind := firstNonopt; }
        return AtEnd;
      }
      if IsOperand(argv[ooptind]) { return AtOperand; }
      nextchar := if cfg.longopts.Some? && argv[ooptind][1] == '-' then argv[ooptind][2..] else argv[ooptind][1..];
      assert nextchar == OptionText(cfg, argv[ooptind]);
      if ordering.Permute? {
        assert orig[ooptind..][1..] == orig[ooptind + 1..];
        ScanOption(cfg, orig[ooptind..]);
      }
      w := AtOption;
    }

    /** Decode the option at nextchar and move past what it used. */
    method DecodeHere(cfg: Config, argv: array<string>) returns (event: Event)
      requires nextchar != "" && ooptind < argv.Length
      requires ordering.Permute? ==> Running(cfg, argv)
      modifies this`ooptind, this`nextchar, this`ooptarg, this`seen
      ensures ordering.Permute? ==> Running(cfg, argv) && seen.events == old(seen.events) + [event]
      ensures old(ooptind) <= ooptind <= argv.Length && (nextchar != "" ==> ooptind < argv.Length)
      ensures var d := Decode(cfg, argv[old(ooptind)], old(nextchar), Head(argv[old(ooptind) + 1..]));
              event == d.event && ooptind == old(ooptind) + d.advance && nextchar == d.nextchar
      ensures ooptarg == event.arg
    {
      hide Progress, Element, After, Scan;
      var next := if ooptind + 1 < argv.Length then Some(argv[ooptind + 1]) else None;
      if ordering.Permute? {
        ProgressBounds(cfg, orig, argv[..], firstNonopt, lastNonopt, ooptind, seen,
                       After(cfg, orig[ooptind..], Element(cfg, orig[ooptind], nextchar, Head(orig[ooptind + 1..]))));
        assert next == Head(orig[ooptind + 1..]);
      }
      var d := DecodeStep(cfg, argv[ooptind], nextchar, next);
      if ordering.Permute? {
        if d.advance == 0 {
          ProgressStep(cfg, orig, argv[..], firstNonopt, lastNonopt, ooptind, seen, nextchar, next);
        } else {
          ProgressTake(cfg, orig, argv[..], firstNonopt, lastNonopt, ooptind, seen, nextchar, next);
        }
      }
      ooptind := ooptind + d.advance;
      nextchar := d.nextchar;
      ooptarg := d.event.arg;
      seen := seen.Add(d);
      event := d.event;
    }

    /** A call of a scan that has begun. */
    method NextEvent(cfg: Config, argv: array<string>) returns (done: bool, event: Event)
      requires 0 < ooptind <= argv.Length && (nextchar != "" ==> ooptind < argv.Length)
      requires if ordering.Permute? then Running(cfg, argv) else firstNonopt == lastNonopt <= ooptind
      modifies this`firstNonopt, this`lastNonopt, this`ooptind, this`nextchar, this`ooptarg, this`seen, argv
      ensures ooptind > 0 && ooptind <= argv.Length && (nextchar != "" ==> ooptind < argv.Length)
      ensures ooptarg == if done then old(ooptarg) else event.arg
      ensures ordering.Permute? && done ==> Finished(cfg, orig, argv[..], ooptind, seen) && seen == old(seen)
      ensures ordering.Permute? && !done ==> Running(cfg, argv) && seen.events == old(seen.events) + [event]
      ensures !ordering.Permute? ==> argv[..] == old(argv[..]) && (!done ==> firstNonopt == lastNonopt <= ooptind)
      ensures !ordering.Permute? ==>
                var d := old(Move(cfg, argv));
                if done then d.None? && nextchar == "" && ooptind == old(ooptind) + old(Ahead(cfg, argv)).used
                else d.Some? && event == d.value.event && ooptind == old(ooptind) + d.value.advance && nextchar == d.value.nextchar
    {
      hide Finished, Progress, Scan, Onward, Element, Running, Decode;
      ghost var a := argv[ooptind..];
      if a != [] { assert a[0] == argv[ooptind] && a[1..] == argv[ooptind + 1..]; }
      if nextchar == "" {
        var w := NextElement(cfg, argv);
        if w.AtEnd? { return true, Event(-1, None); }
        if w.AtOperand? {
          if ordering.RequireOrder? { return true, Event(-1, None); }
          ooptarg := Some(argv[ooptind]);
          ooptind := ooptind + 1;
          return false, Event(1, ooptarg);
        }
      }
      event := DecodeHere(cfg, argv);
      done := false;
    }

    lemma StartsRunning(cfg: Config, argv: array<string>)
      requires ordering.Permute? && argv.Length >= 1 && orig == argv[..]
      requires firstNonopt == lastNonopt == ooptind == 1 && nextchar == "" && seen == Seen([], false)
      ensures Running(cfg, argv)
    {
      ProgressStart(cfg, orig);
    }

    /** One call. `done` is the EOF return; otherwise `event` is the option found
        (or code 1 with an operand, when operands are returned in order). */
    method Next(cfg: Config, argv: array<string>, posixlyCorrect: bool) returns (done: bool, event: Event)
      requires argv.Length >= 1 && ooptind <= argv.Length
      requires nextchar != "" ==> ooptind < argv.Length
      requires ooptind > 0 && ordering.Permute? ==> Running(cfg, argv)
      requires ooptind > 0 && !ordering.Permute? ==> firstNonopt == lastNonopt <= ooptind
      modifies this, argv
      ensures ooptind > 0 && ooptind <= argv.Length && (nextchar != "" ==> ooptind < argv.Length)
      ensures ooptarg == if done then None else event.arg
      ensures old(ooptind) > 0 ==> ordering == old(ordering) && orig == old(orig)
      ensures old(ooptind) == 0 ==> orig == old(argv[..])
      ensures old(ooptind) == 0 ==> ordering == OrderingFor(cfg.optstring, posixlyCorrect)
      // permuting: the invariant after each option, and the partition at the end
      ensures ordering.Permute? && done ==> Finished(cfg, orig, argv[..], ooptind, seen)
      ensures ordering.Permute? && done ==> seen == if old(ooptind) == 0 then Seen([], false) else old(seen)
      ensures ordering.Permute? && !done ==> Running(cfg, argv)
      ensures ordering.Permute? && !done ==> seen.events == (if old(ooptind) == 0 then [] else old(seen.events)) + [event]
      // not permuting: argv is left alone, and the call makes the next move
      ensures !ordering.Permute? ==> argv[..] == old(argv[..])
      ensures !ordering.Permute? && !done ==> firstNonopt == lastNonopt <= ooptind
      ensures !ordering.Permute? ==>
                var all, start := ordering.ReturnInOrder?, if old(ooptind) == 0 then 1 else old(ooptind);
                var now := if old(ooptind) == 0 then cfg.(optstring := Stripped(cfg.optstring)) else cfg;
                var a, text := argv[start..], if old(ooptind) == 0 then "" else old(nextchar);
                var d := FirstMove(now, all, a, text);
                if done then d.None? && nextchar == "" && ooptind == start + From(now, all, a, text).used
                else d.Some? && event == d.value.event && ooptind == start + d.value.advance && nextchar == d.value.nextchar
    {
      hide Finished, Progress, Scan, InOrder, Onward, Element, Running, Decode;
      ooptarg := None;
      var now := cfg;
      if ooptind == 0 {
        var rest := Initialize(cfg.optstring, posixlyCorrect, argv);
        now := cfg.(optstring := rest);
        if ordering.Permute? { StartsRunning(now, argv); }
      }
      done, event := NextEvent(now, argv);
    }

    /** A whole permuting run: call until EOF. Whatever argv was, it ends as the
        stable partition of itself, options first, with ooptind at the first
        operand, and exactly the events of the original list have been reported. */
    method RunToEof(cfg: Config, argv: array<string>) returns (events: seq<Event>)
      requires argv.Length >= 1
      requires ooptind == 0
      requires At(cfg.optstring, 0) !in {'-', '+'}
      modifies this, argv
      ensures var m := Scan(cfg, old(argv[..])[1..]);
              && argv[..] == [old(argv[0])] + m.opts + m.operands
              && ooptind == 1 + |m.opts|
              && events == m.events
      ensures multiset(argv[..]) == multiset(old(argv[..]))
    {
      hide Scan;
      ghost var a := argv[..];
      events := [];
      var done, event := Next(cfg, argv, false);
      while !done
        invariant orig == a && argv.Length == |a| && ordering.Permute?
        invariant 0 < ooptind <= argv.Length && (nextchar != "" ==> ooptind < argv.Length)
        invariant if done then Finished(cfg, a, argv[..], ooptind, seen) && seen.events == events
                  else Running(cfg, argv) && seen.events == events + [event]
        decreases |Scan(cfg, a[1..]).events| - |events| - if done then 1 else 0
      {
        events := events + [event];
        done, event := Next(cfg, argv, false);
        if !done { EventsBounded(cfg, argv); }
      }
      PartitionPermutes(cfg, a, argv[..]);
    }

    /** A run over a list that was written item by item reports these items, and
        leaves the options in front of the operands. */
    method RunOverItems(cfg: Config, argv: array<string>, ghost xs: seq<Item>) returns (events: seq<Event>)
      requires argv.Length >= 1 && argv[1..] == SpellAll(xs) && AllFit(cfg, xs)
      requires ooptind == 0 && At(cfg.optstring, 0) !in {'-', '+'}
      modifies this, argv
      ensures events == AllEvents(cfg, xs)
      ensures argv[..] == [old(argv[0])] + AllOptions(xs) + Operands(xs) && ooptind == 1 + |AllOptions(xs)|
    {
      hide *;
      SpelledIsScanned(cfg, xs, []);
      ScanNothing(cfg);
      assert SpellAll(xs) + [] == SpellAll(xs) && AllEvents(cfg, xs) + [] == AllEvents(cfg, xs);
      assert AllOptions(xs) + [] == AllOptions(xs) && Operands(xs) + [] == Operands(xs);
      events := RunToEof(cfg, argv);
    }

    /** A whole run in one of the two orderings that do not permute: argv is left
        alone, and the events are those of a scan that strips the prefix of the
        option string for its first move and leaves it on for all the others. Without
        a prefix these are the events of the list; with one, if and only if no later
        move is harmed by it. */
    method RunInOrder(cfg: Config, argv: array<string>, posixlyCorrect: bool) returns (events: seq<Event>)
      requires argv.Length >= 1
      requires ooptind == 0
      requires !OrderingFor(cfg.optstring, posixlyCorrect).Permute?
      modifies this, argv
      ensures argv[..] == old(argv[..])
      ensures var all := OrderingFor(cfg.optstring, posixlyCorrect).ReturnInOrder?;
              var m := Forgetful(cfg.(optstring := Stripped(cfg.optstring)), cfg, all, argv[1..]);
              events == m.events && ooptind == 1 + m.used
      ensures var all, c1 := OrderingFor(cfg.optstring, posixlyCorrect).ReturnInOrder?, cfg.(optstring := Stripped(cfg.optstring));
              events == InOrder(c1, all, argv[1..]).events
              <==> (Stripped(cfg.optstring) == cfg.optstring || LaterUnharmed(c1, cfg.optstring[0], all, argv[1..]))
    {
      hide InOrder, Onward, Element, Decode, FirstMove, LaterUnharmed, Forgetful;
      ghost var all, a := OrderingFor(cfg.optstring, posixlyCorrect).ReturnInOrder?, argv[1..];
      ghost var c1 := cfg.(optstring := Stripped(cfg.optstring));
      WhatIsForgotten(cfg, all, a);
      events := [];
      var done, event := Next(cfg, argv, posixlyCorrect);
      if done {
        MoveByMove(c1, all, a, "");
      } else {
        assert argv[1..][ooptind - 1..] == argv[ooptind..];
        var more := Rest(cfg, argv, posixlyCorrect);
        events := [event] + more;
      }
    }

    /** The calls that follow one which has returned an option, up to EOF. */
    method Rest(cfg: Config, argv: array<string>, posixlyCorrect: bool) returns (events: seq<Event>)
      requires InOrderAt(argv)
      modifies this, argv
      ensures argv[..] == old(argv[..])
      ensures events == old(Ahead(cfg, argv)).events && ooptind == old(ooptind + Ahead(cfg, argv).used)
    {
      hide Ahead;
      events := [];
      ghost var m := Ahead(cfg, argv);
      var done, event := OneMore(cfg, argv, posixlyCorrect);
      while !done
        invariant argv[..] == old(argv[..]) && (!done ==> InOrderAt(argv))
        invariant m.events == events + if done then [] else [event] + Ahead(cfg, argv).events
        invariant old(ooptind) + m.used == ooptind + if done then 0 else Ahead(cfg, argv).used
        decreases |m.events| - |events| + if done then 0 else 1
      {
        Regroup(events, [event], Ahead(cfg, argv).events);
        events := events + [event];
        done, event := OneMore(cfg, argv, posixlyCorrect);
      }
    }

    /** Between two calls of a run that does not permute. */
    ghost predicate InOrderAt(argv: array<string>)
      reads this
    {
      && !ordering.Permute? && firstNonopt == lastNonopt <= ooptind
      && 0 < ooptind <= argv.Length && (nextchar != "" ==> ooptind < argv.Length)
    }

    method OneMore(cfg: Config, argv: array<string>, posixlyCorrect: bool) returns (done: bool, event: Event)
      requires InOrderAt(argv)
      modifies this, argv
      ensures argv[..] == old(argv[..]) && ooptind <= argv.Length && (!done ==> InOrderAt(argv))
      ensures old(Ahead(cfg, argv)).events == if done then [] else [event] + Ahead(cfg, argv).events
      ensures old(ooptind + Ahead(cfg, argv).used) == ooptind + if done then 0 else Ahead(cfg, argv).used
    {
      hide InOrder, Onward, Element, Decode, FirstMove, From;
      ghost var was, at := argv[ooptind..], ooptind;
      MoveByMove(cfg, ordering.ReturnInOrder?, was, nextchar);
      done, event := Next(cfg, argv, posixlyCorrect);
      if !done { assert was[ooptind - at..] == argv[ooptind..]; }
    }

    lemma EventsBounded(cfg: Config, argv: array<string>)
      requires Running(cfg, argv)
      ensures |seen.events| <= |Scan(cfg, orig[1..]).events|
    {
      hide Scan, After;
    }
  }

  lemma PartitionPermutes(cfg: Config, orig: seq<string>, a: seq<string>)
    requires |orig| >= 1
    requires var m := Scan(cfg, orig[1..]); a == [orig[0]] + m.opts + m.operands
    ensures multiset(a) == multiset(orig)
  {
    var m := Scan(cfg, orig[1..]);
    ScanIsStablePartition(cfg, orig[1..]);
    MergeIsPermutation(orig[1..], m.opts, m.operands);
    assert orig == [orig[0]] + orig[1..];
    assert a == [orig[0]] + (m.opts + m.operands);
  }
}
