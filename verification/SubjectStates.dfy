/** What the hub makes of a segments packet: the states of an agent's subjects
    and the segment addresses of their modules. */
module SubjectStates {
  import opened Bytes
  import opened SegmentReport

  const SEG_MAX_NO := 96
  const NO_ADDR: Long := 0xFFFF_FFFF      // -1
  const UNDEFINED: seq<byte> := [63, 63, 63, 63, 63, 63, 63]
  const OFF: seq<byte> := []
  const ON: seq<byte> := [79, 78]
  const DOT: byte := 46
  const LETTER_O: byte := 111

  /** A subject of some agent, and a module of some subject. */
  datatype SubjectInfo = SubjectInfo(name: seq<byte>, agent: nat)
  datatype ModuleInfo = ModuleInfo(subject: nat, nick: seq<byte>)

  /** The C string at the start of a buffer. */
  function CStr(s: seq<byte>): (r: seq<byte>)
    ensures 0 !in r
  {
    if s == [] || s[0] == 0 then [] else [s[0]] + CStr(s[1..])
  }

  lemma {:induction false} CStrMeans(s: seq<byte>)
    ensures var n := |CStr(s)|; n <= |s| && s[..n] == CStr(s) && (n < |s| ==> s[n] == 0)
  {
    if s != [] && s[0] != 0 {
      CStrMeans(s[1..]);
      assert CStr(s) == [s[0]] + CStr(s[1..]);
    }
  }

  // ---------------------------------------------------------------- look-ups

  predicate IsSubject(x: SubjectInfo, agent: nat, name: seq<byte>) { x.agent == agent && x.name == name }

  predicate IsModule(x: ModuleInfo, subject: nat, nick: seq<byte>) { x.subject == subject && x.nick == nick }

  /** The first subject of the agent with that name. */
  ghost predicate FirstSubject(subjects: seq<SubjectInfo>, agent: nat, name: seq<byte>, r: Option<nat>) {
    match r
    case None => forall i :: 0 <= i < |subjects| ==> !IsSubject(subjects[i], agent, name)
    case Some(k) => k < |subjects| && IsSubject(subjects[k], agent, name)
                    && forall i :: 0 <= i < k ==> !IsSubject(subjects[i], agent, name)
  }

  function FindSubject(subjects: seq<SubjectInfo>, agent: nat, name: seq<byte>): (r: Option<nat>)
    ensures FirstSubject(subjects, agent, name, r)
  {
    if subjects == [] then None
    else
      var n := |subjects| - 1;
      var before := FindSubject(subjects[..n], agent, name);
      if before.Some? then before else if IsSubject(subjects[n], agent, name) then Some(n) else None
  }

  ghost predicate FirstModule(modules: seq<ModuleInfo>, subject: nat, nick: seq<byte>, r: Option<nat>) {
    match r
    case None => forall i :: 0 <= i < |modules| ==> !IsModule(modules[i], subject, nick)
    case Some(k) => k < |modules| && IsModule(modules[k], subject, nick)
                    && forall i :: 0 <= i < k ==> !IsModule(modules[i], subject, nick)
  }

  function FindModule(modules: seq<ModuleInfo>, subject: nat, nick: seq<byte>): (r: Option<nat>)
    ensures FirstModule(modules, subject, nick, r)
  {
    if modules == [] then None
    else
      var n := |modules| - 1;
      var before := FindModule(modules[..n], subject, nick);
      if before.Some? then before else if IsModule(modules[n], subject, nick) then Some(n) else None
  }

  /** The name without a suffix ".o". */
  function WithoutSuffix(name: seq<byte>): seq<byte> {
    var l := |name|;
    if l > 2 && name[l - 2..] == [DOT, LETTER_O] then name[..l - 2] else name
  }

  /** A listed module is looked for as it is spelled, then without its suffix. */
  function ModuleOf(modules: seq<ModuleInfo>, subject: Option<nat>, name: seq<byte>): (r: Option<nat>)
    ensures r.Some? ==> subject.Some? && r.value < |modules| && modules[r.value].subject == subject.value
  {
    if subject.None? then None
    else
      var exact := FindModule(modules, subject.value, CStr(name));
      if exact.Some? then exact else FindModule(modules, subject.value, WithoutSuffix(CStr(name)))
  }

  /** A module is the first of its subject that is called so, or else the first that
      is called so but for ".o" at the end of the name given. */
  lemma ModuleOfMeans(modules: seq<ModuleInfo>, subject: nat, name: seq<byte>, r: Option<nat>)
    ensures ModuleOf(modules, None, name) == None
    ensures var full := CStr(name);
            ModuleOf(modules, Some(subject), name) == r
            <==> if exists i :: 0 <= i < |modules| && IsModule(modules[i], subject, full) then FirstModule(modules, subject, full, r)
                 else if exists t :: t != [] && full == t + [DOT, LETTER_O] then FirstModule(modules, subject, full[..|full| - 2], r)
                 else r == None
  {
    hide FindModule;
    var full := CStr(name);
    var f := FindModule(modules, subject, full);
    var g := FindModule(modules, subject, WithoutSuffix(full));
    assert FirstModule(modules, subject, full, f) && FirstModule(modules, subject, WithoutSuffix(full), g);
    if |full| > 2 && full[|full| - 2..] == [DOT, LETTER_O] {
      assert full == full[..|full| - 2] + [DOT, LETTER_O];
    }
    if r.Some? || f.None? {
      if FirstModule(modules, subject, full, r) { OneFirstModule(modules, subject, full, r); }
      if FirstModule(modules, subject, WithoutSuffix(full), r) { OneFirstModule(modules, subject, WithoutSuffix(full), r); }
    }
  }

  // ------------------------------------------------------- addresses reported

  /** One address reported for one segment of one known module. */
  datatype Hit = Hit(mod: nat, no: nat, addr: Long)

  predicate IsSegmentName(c: byte) { 32 <= c < 127 }

  function SegmentHits(mod: Option<nat>, ss: seq<Segment>): seq<Hit> {
    if ss == [] || mod.None? then []
    else
      var s := ss[|ss| - 1];
      SegmentHits(mod, ss[..|ss| - 1]) + if IsSegmentName(s.name) then [Hit(mod.value, s.name as int - 32, s.addr)] else []
  }

  function ModHits(modules: seq<ModuleInfo>, subject: Option<nat>, ms: seq<Mod>): seq<Hit> {
    if ms == [] then []
    else
      var m := ms[|ms| - 1];
      ModHits(modules, subject, ms[..|ms| - 1]) + SegmentHits(ModuleOf(modules, subject, m.name), m.segments)
  }

  /** All addresses a report gives, in packet order. */
  function Hits(subjects: seq<SubjectInfo>, modules: seq<ModuleInfo>, agent: nat, xs: seq<Subject>): seq<Hit> {
    if xs == [] then []
    else
      var x := xs[|xs| - 1];
      Hits(subjects, modules, agent, xs[..|xs| - 1])
      + ModHits(modules, FindSubject(subjects, agent, CStr(x.name)), x.mods)
  }

  /** The last address reported for a segment. */
  function LastHit(hits: seq<Hit>, mod: nat, no: nat): Option<Long> {
    if hits == [] then None
    else
      var h := hits[|hits| - 1];
      if h.mod == mod && h.no == no then Some(h.addr) else LastHit(hits[..|hits| - 1], mod, no)
  }

  /** Does this entry of a report speak of that segment of module m? */
  predicate SpeaksOf(mod: Option<nat>, s: Segment, m: nat, no: nat) {
    mod == Some(m) && 32 <= s.name < 127 && s.name as int == no + 32
  }

  /** The k-th segment of the j-th module of the i-th subject of the report is it. */
  ghost predicate Gives(subjects: seq<SubjectInfo>, modules: seq<ModuleInfo>, agent: nat, xs: seq<Subject>,
                        i: nat, j: nat, k: nat, m: nat, no: nat) {
    && i < |xs| && j < |xs[i].mods| && k < |xs[i].mods[j].segments|
    && SpeaksOf(ModuleOf(modules, FindSubject(subjects, agent, CStr(xs[i].name)), xs[i].mods[j].name),
                xs[i].mods[j].segments[k], m, no)
  }

  lemma {:induction false} LastInModule(mod: Option<nat>, ss: seq<Segment>, m: nat, no: nat) returns (k: nat)
    ensures match LastHit(SegmentHits(mod, ss), m, no)
            case None => forall q :: 0 <= q < |ss| ==> !SpeaksOf(mod, ss[q], m, no)
            case Some(a) => && k < |ss| && SpeaksOf(mod, ss[k], m, no) && ss[k].addr == a
                            && forall q :: k < q < |ss| ==> !SpeaksOf(mod, ss[q], m, no)
    decreases |ss|
  {
    k := 0;
    if ss != [] && mod.Some? {
      var n := |ss| - 1;
      var s := ss[n];
      k := LastInModule(mod, ss[..n], m, no);
      var more := if IsSegmentName(s.name) then [Hit(mod.value, s.name as int - 32, s.addr)] else [];
      LastHitOfTwo(SegmentHits(mod, ss[..n]), more, m, no);
      LastOfOne(more, m, no);
      assert forall q :: 0 <= q < n ==> ss[q] == ss[..n][q];
      if SpeaksOf(mod, s, m, no) { k := n; }
    }
  }

  lemma LastOfOne(hits: seq<Hit>, m: nat, no: nat)
    requires |hits| <= 1
    ensures LastHit(hits, m, no) == if hits != [] && hits[0].mod == m && hits[0].no == no then Some(hits[0].addr) else None
  {
  }

  lemma {:induction false} LastInMods(modules: seq<ModuleInfo>, subject: Option<nat>, ms: seq<Mod>, m: nat, no: nat) returns (j: nat, k: nat)
    ensures match LastHit(ModHits(modules, subject, ms), m, no)
            case None => forall p: nat, q: nat :: p < |ms| && q < |ms[p].segments| ==>
                           !SpeaksOf(ModuleOf(modules, subject, ms[p].name), ms[p].segments[q], m, no)
            case Some(a) =>
              && j < |ms| && k < |ms[j].segments|
              && SpeaksOf(ModuleOf(modules, subject, ms[j].name), ms[j].segments[k], m, no) && ms[j].segments[k].addr == a
              && forall p: nat, q: nat :: p < |ms| && q < |ms[p].segments| && (p > j || (p == j && q > k)) ==>
                   !SpeaksOf(ModuleOf(modules, subject, ms[p].name), ms[p].segments[q], m, no)
    decreases |ms|
  {
    hide SegmentHits, ModuleOf, SpeaksOf, LastHit;
    j, k := 0, 0;
    if ms == [] {
      NoModHits(modules, subject, m, no);
    } else {
      var n := |ms| - 1;
      j, k := LastInMods(modules, subject, ms[..n], m, no);
      assert forall p :: 0 <= p < n ==> ms[p] == ms[..n][p];
      var mod := ModuleOf(modules, subject, ms[n].name);
      var last := LastInModule(mod, ms[n].segments, m, no);
      LastHitOfTwo(ModHits(modules, subject, ms[..n]), SegmentHits(mod, ms[n].segments), m, no);
      if LastHit(SegmentHits(mod, ms[n].segments), m, no).Some? { j, k := n, last; }
    }
  }

  lemma NoModHits(modules: seq<ModuleInfo>, subject: Option<nat>, m: nat, no: nat)
    ensures LastHit(ModHits(modules, subject, []), m, no) == None
  {
  }

  lemma {:induction false} LastInReport(subjects: seq<SubjectInfo>, modules: seq<ModuleInfo>, agent: nat, xs: seq<Subject>,
                                        m: nat, no: nat) returns (i: nat, j: nat, k: nat)
    ensures match LastHit(Hits(subjects, modules, agent, xs), m, no)
            case None => forall h: nat, p: nat, q: nat :: !Gives(subjects, modules, agent, xs, h, p, q, m, no)
            case Some(a) =>
              && Gives(subjects, modules, agent, xs, i, j, k, m, no) && xs[i].mods[j].segments[k].addr == a
              && forall h: nat, p: nat, q: nat :: (h > i || (h == i && (p > j || (p == j && q > k)))) ==>
                   !Gives(subjects, modules, agent, xs, h, p, q, m, no)
    decreases |xs|
  {
    hide ModHits, ModuleOf, SpeaksOf, LastHit, FindSubject, CStr;
    i, j, k := 0, 0, 0;
    if xs == [] {
      NoReportHits(subjects, modules, agent, m, no);
    } else {
      var n := |xs| - 1;
      i, j, k := LastInReport(subjects, modules, agent, xs[..n], m, no);
      forall h: nat, p: nat, q: nat | h < n
        ensures Gives(subjects, modules, agent, xs, h, p, q, m, no) <==> Gives(subjects, modules, agent, xs[..n], h, p, q, m, no)
      {
        assert xs[h] == xs[..n][h];
      }
      var subject := FindSubject(subjects, agent, CStr(xs[n].name));
      var lastMod, last := LastInMods(modules, subject, xs[n].mods, m, no);
      LastHitOfTwo(Hits(subjects, modules, agent, xs[..n]), ModHits(modules, subject, xs[n].mods), m, no);
      if LastHit(ModHits(modules, subject, xs[n].mods), m, no).Some? { i, j, k := n, lastMod, last; }
    }
  }

  lemma NoReportHits(subjects: seq<SubjectInfo>, modules: seq<ModuleInfo>, agent: nat, m: nat, no: nat)
    ensures LastHit(Hits(subjects, modules, agent, []), m, no) == None
  {
  }

  /** The address that counts for a segment is the one in the last entry of the report
      that speaks of it, and there is none when no entry does. */
  lemma LastAddress(subjects: seq<SubjectInfo>, modules: seq<ModuleInfo>, agent: nat, xs: seq<Subject>, m: nat, no: nat)
    ensures match LastHit(Hits(subjects, modules, agent, xs), m, no)
            case None => forall i: nat, j: nat, k: nat :: !Gives(subjects, modules, agent, xs, i, j, k, m, no)
            case Some(a) => exists i: nat, j: nat, k: nat ::
              && Gives(subjects, modules, agent, xs, i, j, k, m, no) && xs[i].mods[j].segments[k].addr == a
              && forall h: nat, p: nat, q: nat :: (h > i || (h == i && (p > j || (p == j && q > k)))) ==>
                   !Gives(subjects, modules, agent, xs, h, p, q, m, no)
  {
    hide Gives, Hits, LastHit;
    var i, j, k := LastInReport(subjects, modules, agent, xs, m, no);
  }

  /** Does the report list subject k? */
  predicate Listed(subjects: seq<SubjectInfo>, agent: nat, xs: seq<Subject>, k: nat) {
    exists j :: 0 <= j < |xs| && FindSubject(subjects, agent, CStr(xs[j].name)) == Some(k)
  }

  function ListedIn(subjects: seq<SubjectInfo>, agent: nat, xs: seq<Subject>): nat -> bool {
    (k: nat) => Listed(subjects, agent, xs, k)
  }

  ghost predicate HitsOnly(modules: seq<ModuleInfo>, hits: seq<Hit>, wanted: nat -> bool) {
    forall h :: 0 <= h < |hits| ==>
      hits[h].mod < |modules| && hits[h].no < SEG_MAX_NO && wanted(modules[hits[h].mod].subject)
  }

  lemma {:induction false} SegmentHitsOnly(modules: seq<ModuleInfo>, mod: Option<nat>, ss: seq<Segment>, wanted: nat -> bool)
    requires mod.Some? ==> mod.value < |modules| && wanted(modules[mod.value].subject)
    ensures HitsOnly(modules, SegmentHits(mod, ss), wanted)
  {
    if ss != [] && mod.Some? { SegmentHitsOnly(modules, mod, ss[..|ss| - 1], wanted); }
  }

  lemma {:induction false} ModHitsOnly(modules: seq<ModuleInfo>, subject: Option<nat>, ms: seq<Mod>, wanted: nat -> bool)
    requires subject.Some? ==> wanted(subject.value)
    ensures HitsOnly(modules, ModHits(modules, subject, ms), wanted)
  {
    hide SegmentHits, ModuleOf;
    if ms != [] {
      var m := ms[|ms| - 1];
      ModHitsOnly(modules, subject, ms[..|ms| - 1], wanted);
      SegmentHitsOnly(modules, ModuleOf(modules, subject, m.name), m.segments, wanted);
    }
  }

  /** Addresses are only reported for modules of listed subjects. */
  lemma {:induction false} HitsAreListed(subjects: seq<SubjectInfo>, modules: seq<ModuleInfo>, agent: nat, xs: seq<Subject>, n: nat)
    requires n <= |xs|
    ensures HitsOnly(modules, Hits(subjects, modules, agent, xs[..n]), ListedIn(subjects, agent, xs))
  {
    hide ModHits, FindSubject, CStr;
    if n > 0 {
      var x := xs[n - 1];
      assert xs[..n][..n - 1] == xs[..n - 1];
      HitsAreListed(subjects, modules, agent, xs, n - 1);
      ModHitsOnly(modules, FindSubject(subjects, agent, CStr(x.name)), x.mods, ListedIn(subjects, agent, xs));
    }
  }

  lemma {:induction false} NoHit(modules: seq<ModuleInfo>, hits: seq<Hit>, wanted: nat -> bool, mod: nat, no: nat)
    requires HitsOnly(modules, hits, wanted) && mod < |modules| && !wanted(modules[mod].subject)
    ensures LastHit(hits, mod, no) == None
  {
    if hits != [] { NoHit(modules, hits[..|hits| - 1], wanted, mod, no); }
  }

  // --------------------------------------------------------- storing addresses

  predicate Shaped(addrs: seq<seq<Long>>, n: nat) {
    |addrs| == n && forall m :: 0 <= m < n ==> |addrs[m]| == SEG_MAX_NO
  }

  /** What storing an address at every hit in turn leaves. */
  ghost predicate Stored(was: seq<seq<Long>>, addrs: seq<seq<Long>>, hits: seq<Hit>, n: nat) {
    && Shaped(was, n) && Shaped(addrs, n)
    && forall m: nat, no: nat :: m < n && no < SEG_MAX_NO ==> StoredAt(was, addrs, hits, m, no)
  }

  ghost predicate StoredAt(was: seq<seq<Long>>, addrs: seq<seq<Long>>, hits: seq<Hit>, m: nat, no: nat)
    requires m < |was| && m < |addrs| && no < |was[m]| && no < |addrs[m]|
  {
    addrs[m][no] == match LastHit(hits, m, no) case None => was[m][no] case Some(a) => a
  }

  function Put(addrs: seq<seq<Long>>, h: Hit): seq<seq<Long>>
    requires h.mod < |addrs| && h.no < |addrs[h.mod]|
  {
    var row: seq<Long> := addrs[h.mod][h.no := h.addr];
    addrs[h.mod := row]
  }

  lemma StoreOneMore(was: seq<seq<Long>>, addrs: seq<seq<Long>>, hits: seq<Hit>, n: nat, h: Hit)
    requires Stored(was, addrs, hits, n) && h.mod < n && h.no < SEG_MAX_NO
    ensures Stored(was, Put(addrs, h), hits + [h], n)
  {
    var addrs' := Put(addrs, h);
    assert (hits + [h])[..|hits|] == hits;
    forall m: nat, no: nat | m < n && no < SEG_MAX_NO ensures StoredAt(was, addrs', hits + [h], m, no) {
      assert StoredAt(was, addrs, hits, m, no);
    }
  }

  lemma {:induction false} LastHitOfTwo(a: seq<Hit>, b: seq<Hit>, m: nat, no: nat)
    ensures LastHit(a + b, m, no) == if LastHit(b, m, no).Some? then LastHit(b, m, no) else LastHit(a, m, no)
  {
    if b == [] {
      assert a + b == a;
    } else {
      var n := |b| - 1;
      assert (a + b)[..|a| + n] == a + b[..n];
      LastHitOfTwo(a, b[..n], m, no);
    }
  }

  lemma StoreTwice(was: seq<seq<Long>>, mid: seq<seq<Long>>, addrs: seq<seq<Long>>, a: seq<Hit>, b: seq<Hit>, n: nat)
    requires Stored(was, mid, a, n) && Stored(mid, addrs, b, n)
    ensures Stored(was, addrs, a + b, n)
  {
    hide LastHit;
    forall m: nat, no: nat | m < n && no < SEG_MAX_NO ensures StoredAt(was, addrs, a + b, m, no) {
      assert StoredAt(was, mid, a, m, no) && StoredAt(mid, addrs, b, m, no);
      LastHitOfTwo(a, b, m, no);
    }
  }

  // --------------------------------------------------------------- the domain

  function Blank(): seq<Long> { seq(SEG_MAX_NO, _ => NO_ADDR) }

  /** The state of a subject after a report of its agent. One that calls itself
      "???????" cannot be told from one not heard of. */
  function NewState(x: SubjectInfo, agent: nat, listed: bool, clean: bool, was: seq<byte>): seq<byte> {
    if x.agent != agent then was
    else if listed then if x.name == UNDEFINED then OFF else x.name
    else if clean || was == UNDEFINED then OFF
    else was
  }

  lemma NewStateMeans(x: SubjectInfo, agent: nat, listed: bool, clean: bool, was: seq<byte>)
    ensures NewState(x, agent, listed, clean, was)
            == if x.agent != agent then was
               else if listed then if x.name == UNDEFINED then [] else x.name
               else if clean || was == UNDEFINED then [] else was
  {
  }

  class Domain {
    const subjects: seq<SubjectInfo>
    const modules: seq<ModuleInfo>
    var agentStates: seq<seq<byte>>
    var states: seq<seq<byte>>
    var addrs: seq<seq<Long>>

    /** Names come from the domain description and are neither empty nor hold a NUL. */
    ghost predicate Described() {
      && (forall k :: 0 <= k < |subjects| ==> subjects[k].name != [] && 0 !in subjects[k].name)
      && (forall m :: 0 <= m < |modules| ==> modules[m].subject < |subjects|)
    }

    /** A subject that is off has no addresses in any of its modules. */
    ghost predicate OffIsBlank()
      reads this
    {
      |addrs| == |modules| && |states| == |subjects| && Described()
      && forall m :: 0 <= m < |modules| && states[modules[m].subject] == OFF ==> addrs[m] == Blank()
    }

    ghost predicate Valid()
      reads this
    {
      Described() && |states| == |subjects| && Shaped(addrs, |modules|)
    }

    lemma ValidParts()
      requires Valid()
      ensures Described() && |states| == |subjects| && Shaped(addrs, |modules|)
    {
    }

    constructor (subjects: seq<SubjectInfo>, modules: seq<ModuleInfo>, agents: nat)
      requires forall k :: 0 <= k < |subjects| ==> subjects[k].name != [] && 0 !in subjects[k].name
      requires forall m :: 0 <= m < |modules| ==> modules[m].subject < |subjects|
      ensures Valid() && OffIsBlank() && |agentStates| == agents
      ensures this.subjects == subjects && this.modules == modules
    {
      this.subjects, this.modules := subjects, modules;
      agentStates := seq(agents, _ => OFF);
      states := seq(|subjects|, _ => OFF);
      addrs := seq(|modules|, _ => Blank());
    }

    /** ohubSetSubjectStateByRef: a subject that goes off loses its addresses. */
    method SetSubjectState(k: nat, state: seq<byte>) returns (changed: bool)
      requires Valid() && k < |states|
      modifies this`states, this`addrs
      ensures Valid() && changed == (old(states)[k] != state) && states == old(states)[k := state]
      ensures forall m :: 0 <= m < |modules| ==>
                addrs[m] == if changed && state == OFF && modules[m].subject == k then Blank() else old(addrs)[m]
    {
      if states[k] == state { return false; }
      states := states[k := state];
      changed := true;
      var isOff := state == OFF;
      for i := 0 to |modules|
        invariant Shaped(addrs, |modules|) && states == old(states)[k := state]
        invariant forall m :: 0 <= m < |modules| ==>
                    addrs[m] == if m < i && isOff && modules[m].subject == k then Blank() else old(addrs)[m]
      {
        if modules[i].subject == k && isOff { addrs := addrs[i := Blank()]; }
      }
    }

    /** The subject loop of ohubSetAgentState, when the agent goes away or is not
        heard of yet. */
    method SetAll(agent: nat, undef: bool) returns (changed: bool)
      requires Valid()
      modifies this`states, this`addrs
      ensures Valid()
      ensures forall k :: 0 <= k < |states| ==>
                states[k] == if subjects[k].agent != agent then old(states)[k] else if undef then UNDEFINED else OFF
      ensures forall m :: 0 <= m < |modules| ==>
                addrs[m] == if !undef && subjects[modules[m].subject].agent == agent && old(states)[modules[m].subject] != OFF
                            then Blank() else old(addrs)[m]
    {
      changed := false;
      for i := 0 to |subjects|
        invariant Valid()
        invariant forall k :: 0 <= k < |states| ==>
                    states[k] == if k >= i || subjects[k].agent != agent then old(states)[k] else if undef then UNDEFINED else OFF
        invariant forall m :: 0 <= m < |modules| ==>
                    addrs[m] == if modules[m].subject < i && !undef && subjects[modules[m].subject].agent == agent
                                   && old(states)[modules[m].subject] != OFF then Blank() else old(addrs)[m]
      {
        if subjects[i].agent == agent {
          if undef {
            states := states[i := UNDEFINED];
          } else {
            var c := SetSubjectState(i, OFF);
            changed := changed || c;
          }
        }
      }
    }

    /** ohubSetAgentState, without the watchers that wait for a subject. */
    method SetAgentState(agent: nat, state: seq<byte>) returns (changed: bool)
      requires Valid() && agent < |agentStates|
      modifies this
      ensures Valid() && agentStates == old(agentStates)[agent := if state in {UNDEFINED, OFF} then state
                                                                  else if old(agentStates)[agent] == state then state else ON]
      ensures state == UNDEFINED ==> addrs == old(addrs) && forall k :: 0 <= k < |states| ==>
                states[k] == if subjects[k].agent == agent then UNDEFINED else old(states)[k]
      ensures state == OFF && old(agentStates)[agent] != OFF ==> forall k :: 0 <= k < |states| ==>
                states[k] == if subjects[k].agent == agent then OFF else old(states)[k]
      ensures state !in {UNDEFINED, OFF} || (state == OFF && old(agentStates)[agent] == OFF) ==>
                states == old(states) && addrs == old(addrs)
      ensures old(OffIsBlank()) ==> OffIsBlank()
    {
      changed := false;
      var isUndef, isOff := state == UNDEFINED, state == OFF;
      if state == agentStates[agent] && !isUndef { return; }
      agentStates := agentStates[agent := if isUndef then UNDEFINED else if isOff then OFF else ON];
      if isUndef || isOff {
        changed := SetAll(agent, isUndef);
        assert isUndef ==> addrs == old(addrs);
      }
    }

    /** The segment loop of the second pass, over the packet b. */
    method TakeSegments(b: seq<byte>, start: nat, n: nat, mod: Option<nat>) returns (p: nat)
      requires Valid() && start <= |b| && ReadSegments(b[start..], n).Some?
      requires mod.Some? ==> mod.value < |modules|
      modifies this`addrs
      ensures Valid() && p <= |b| && b[p..] == ReadSegments(b[start..], n).value.rest
      ensures Stored(old(addrs), addrs, SegmentHits(mod, ReadSegments(b[start..], n).value.items), |modules|)
    {
      hide LastHit, SegmentHits, Un32;
      ghost var all := ReadSegments(b[start..], n).value;
      p := start;
      ghost var done: seq<Segment> := [];
      NoneStored(addrs, mod, |modules|);
      for k := 0 to n
        invariant Valid() && p <= |b| && ReadSegments(b[p..], n - k).Some?
        invariant ReadSegments(b[p..], n - k).value.rest == all.rest
        invariant done + ReadSegments(b[p..], n - k).value.items == all.items
        invariant Stored(old(addrs), addrs, SegmentHits(mod, done), |modules|)
      {
        ghost var s := Segment(b[p], Un32(b[p..][1..5]));
        ghost var more := ReadSegments(b[p..], n - k).value.items;
        assert b[p..][5..] == b[p + 5..] && b[p..][1..5] == b[p + 1..p + 5];
        var name, addr := b[p], Un32(b[p + 1..p + 5]);
        p := p + 5;
        SegmentStored(old(addrs), addrs, mod, done, s, |modules|);
        if mod.Some? && IsSegmentName(name) {
          addrs := Put(addrs, Hit(mod.value, name as int - 32, addr));
        }
        assert done + more == (done + [s]) + more[1..];
        done := done + [s];
      }
      assert done + [] == done;
    }

    /** The search of the second pass for a subject. */
    method LookUpSubject(agent: nat, name: seq<byte>) returns (r: Option<nat>)
      ensures r == FindSubject(subjects, agent, name)
    {
      for m := 0 to |subjects|
        invariant forall i :: 0 <= i < m ==> !IsSubject(subjects[i], agent, name)
      {
        if IsSubject(subjects[m], agent, name) {
          OneFirstSubject(subjects, agent, name, Some(m));
          return Some(m);
        }
      }
      OneFirstSubject(subjects, agent, name, None);
      return None;
    }

    method LookUpNick(subject: nat, nick: seq<byte>) returns (r: Option<nat>)
      ensures r == FindModule(modules, subject, nick)
    {
      for m := 0 to |modules|
        invariant forall i :: 0 <= i < m ==> !IsModule(modules[i], subject, nick)
      {
        if IsModule(modules[m], subject, nick) {
          OneFirstModule(modules, subject, nick, Some(m));
          return Some(m);
        }
      }
      OneFirstModule(modules, subject, nick, None);
      return None;
    }

    /** The search for a module: as spelled, then without ".o". */
    method LookUpModule(subject: Option<nat>, name: seq<byte>) returns (r: Option<nat>)
      ensures r == ModuleOf(modules, subject, name)
    {
      if subject.None? { return None; }
      var moduleName := CStr(name);
      r := LookUpNick(subject.value, moduleName);
      if r.None? {
        var l := |moduleName|;
        if l > 2 && moduleName[l - 2..] == [DOT, LETTER_O] { moduleName := moduleName[..l - 2]; }
        r := LookUpNick(subject.value, moduleName);
      }
    }

    /** One turn of the module loop. */
    method TakeMod(b: seq<byte>, start: nat, subject: Option<nat>) returns (p: nat)
      requires Valid() && start <= |b| && ReadMod(b[start..]).Some?
      modifies this`addrs
      ensures Valid() && p <= |b| && b[p..] == ReadMod(b[start..]).value.1
      ensures var m := ReadMod(b[start..]).value.0;
              Stored(old(addrs), addrs, SegmentHits(ModuleOf(modules, subject, m.name), m.segments), |modules|)
    {
      hide Stored, SegmentHits, ReadSegments, FindModule, CStr, Valid;
      var q := b[start] as int;
      var name := b[start + 1..start + 1 + q];
      assert b[start..][1..1 + q] == name;
      var mod := LookUpModule(subject, name);
      p := start + 1 + q;
      var n := b[p] as int;
      p := p + 1;
      assert b[start..][2 + q..] == b[p..];
      p := TakeSegments(b, p, n, mod);
    }

    /** The module loop of the second pass. */
    method TakeMods(b: seq<byte>, start: nat, n: nat, subject: Option<nat>) returns (p: nat)
      requires Valid() && start <= |b| && ReadMods(b[start..], n).Some?
      modifies this`addrs
      ensures Valid() && p <= |b| && b[p..] == ReadMods(b[start..], n).value.rest
      ensures Stored(old(addrs), addrs, ModHits(modules, subject, ReadMods(b[start..], n).value.items), |modules|)
    {
      hide *;
      ValidParts();
      NoHitsYet(addrs, subjects, modules, 0, subject);
      ghost var all := ReadMods(b[start..], n).value;
      p := start;
      ModsStart(b, p, n);
      ghost var done: seq<Mod> := [];
      for j := 0 to n
        invariant Valid() && ModsAhead(b, p, n - j, all, done)
        invariant Stored(old(addrs), addrs, ModHits(modules, subject, done), |modules|)
      {
        ModsTurn(b, p, n - j, all, done);
        ghost var m := ReadMod(b[p..]).value.0;
        ghost var mid := addrs;
        p := TakeMod(b, p, subject);
        ModStored(old(addrs), mid, addrs, modules, subject, done, m);
        done := done + [m];
      }
      ModsEnd(b, p, all, done);
    }

    /** One turn of the subject loop. */
    method TakeSubject(agent: nat, b: seq<byte>, start: nat) returns (p: nat, changed: bool)
      requires Valid() && start <= |b| && ReadSubject(b[start..]).Some?
      modifies this`states, this`addrs
      ensures Valid() && p <= |b| && b[p..] == ReadSubject(b[start..]).value.1
      ensures var x := ReadSubject(b[start..]).value.0;
              var found := FindSubject(subjects, agent, CStr(x.name));
              && Stored(old(addrs), addrs, ModHits(modules, found, x.mods), |modules|)
              && states == (if found.Some? then old(states)[found.value := subjects[found.value].name] else old(states))
              && changed == (states != old(states))
    {
      hide ModHits, ReadMods, FindSubject, CStr, LastHit;
      var q := b[start] as int;
      var name := CStr(b[start + 1..start + 1 + q]);
      assert b[start..][1..1 + q] == b[start + 1..start + 1 + q];
      var state := name;
      var found := LookUpSubject(agent, name);
      p := start + 1 + q;
      var n := b[p] as int;
      p := p + 1;
      assert b[start..][2 + q..] == b[p..];
      p := TakeMods(b, p, n, found);
      changed := false;
      if found.Some? {
        ghost var mid := addrs;
        changed := SetSubjectState(found.value, state);
        assert addrs == mid;
        if changed { assert states[found.value] != old(states)[found.value]; }
      }
    }

    /** The subject loop of the second pass. */
    method TakeSubjects(agent: nat, b: seq<byte>, start: nat, n: nat) returns (p: nat, changed: bool)
      requires Valid() && start <= |b| && ReadSubjects(b[start..], n).Some?
      modifies this`states, this`addrs
      ensures Valid() && p <= |b| && b[p..] == ReadSubjects(b[start..], n).value.rest
      ensures var xs := ReadSubjects(b[start..], n).value.items;
              && Stored(old(addrs), addrs, Hits(subjects, modules, agent, xs), |modules|)
              && Marked(subjects, old(states), states, agent, xs)
      ensures !changed ==> states == old(states)
    {
      hide *;
      ValidParts();
      NoHitsYet(addrs, subjects, modules, agent, None);
      NoneMarked(subjects, states, agent);
      ghost var all := ReadSubjects(b[start..], n).value;
      p, changed := start, false;
      SubjectsStart(b, p, n);
      ghost var done: seq<Subject> := [];
      for i := 0 to n
        invariant Valid() && SubjectsAhead(b, p, n - i, all, done)
        invariant Stored(old(addrs), addrs, Hits(subjects, modules, agent, done), |modules|)
        invariant Marked(subjects, old(states), states, agent, done)
        invariant !changed ==> states == old(states)
      {
        SubjectsTurn(b, p, n - i, all, done);
        ghost var x := ReadSubject(b[p..]).value.0;
        ghost var mid, states0 := addrs, states;
        var c;
        p, c := TakeSubject(agent, b, p);
        changed := changed || c;
        SubjectStored(old(addrs), mid, addrs, subjects, modules, agent, done, x);
        MarkedOneMore(subjects, old(states), states0, states, agent, done, x);
        done := done + [x];
      }
      SubjectsEnd(b, p, all, done);
    }

    /** The last loop: whoever has not been heard of is off. */
    method TurnOff(agent: nat) returns (changed: bool)
      requires Valid()
      modifies this`states, this`addrs
      ensures Valid()
      ensures forall k :: 0 <= k < |states| ==>
                states[k] == if subjects[k].agent == agent && old(states)[k] == UNDEFINED then OFF else old(states)[k]
      ensures forall m :: 0 <= m < |modules| ==>
                var k := modules[m].subject;
                addrs[m] == if subjects[k].agent == agent && old(states)[k] == UNDEFINED then Blank() else old(addrs)[m]
      ensures !changed ==> states == old(states)
    {
      changed := false;
      for i := 0 to |subjects|
        invariant Valid()
        invariant forall k :: 0 <= k < |states| ==>
                    states[k] == if k < i && subjects[k].agent == agent && old(states)[k] == UNDEFINED then OFF else old(states)[k]
        invariant forall m :: 0 <= m < |modules| ==>
                    var k := modules[m].subject;
                    addrs[m] == if k < i && subjects[k].agent == agent && old(states)[k] == UNDEFINED then Blank() else old(addrs)[m]
        invariant !changed ==> states == old(states)
      {
        if subjects[i].agent == agent && states[i] == UNDEFINED {
          var c := SetSubjectState(i, OFF);
          changed := changed || c;
        }
      }
    }

    lemma Outcome(agent: nat, r: Report, was: seq<seq<byte>>, wasAddrs: seq<seq<Long>>,
                  states0: seq<seq<byte>>, states1: seq<seq<byte>>, addrs1: seq<seq<Long>>)
      requires Valid() && |was| == |states0| == |states1| == |subjects| && Shaped(wasAddrs, |modules|) && Shaped(addrs1, |modules|)
      requires forall m :: 0 <= m < |modules| && was[modules[m].subject] == OFF ==> wasAddrs[m] == Blank()
      requires forall k :: 0 <= k < |states0| ==>
                 states0[k] == if r.clean && subjects[k].agent == agent then UNDEFINED else was[k]
      requires Marked(subjects, states0, states1, agent, r.subjects)
      requires Stored(wasAddrs, addrs1, Hits(subjects, modules, agent, r.subjects), |modules|)
      requires forall k :: 0 <= k < |states| ==>
                 states[k] == if subjects[k].agent == agent && states1[k] == UNDEFINED then OFF else states1[k]
      requires forall m :: 0 <= m < |modules| ==>
                 var k := modules[m].subject;
                 addrs[m] == if subjects[k].agent == agent && states1[k] == UNDEFINED then Blank() else addrs1[m]
      ensures forall k: nat :: k < |states| ==>
                states[k] == NewState(subjects[k], agent, Listed(subjects, agent, r.subjects, k), r.clean, was[k])
      ensures forall m: nat, no: nat :: m < |modules| && no < SEG_MAX_NO ==>
                addrs[m][no] == NewAddr(states[modules[m].subject], Hits(subjects, modules, agent, r.subjects), m, no, wasAddrs[m][no])
      ensures OffIsBlank()
    {
      var hits, xs := Hits(subjects, modules, agent, r.subjects), r.subjects;
      hide Hits, LastHit, FindSubject, CStr, NewState, Listed;
      forall k: nat | k < |states|
        ensures states[k] == NewState(subjects[k], agent, Listed(subjects, agent, xs, k), r.clean, was[k])
      {
        ListedHere(subjects, agent, xs, k);
        OutcomeState(subjects[k], agent, Listed(subjects, agent, xs, k), r.clean, was[k], states1[k]);
      }
      forall m: nat, no: nat | m < |modules| && no < SEG_MAX_NO
        ensures addrs[m][no] == NewAddr(states[modules[m].subject], hits, m, no, wasAddrs[m][no])
      {
        OutcomeAddr(agent, xs, was, wasAddrs, states0, states1, addrs1, m, no);
      }
      forall m | 0 <= m < |modules| && states[modules[m].subject] == OFF ensures addrs[m] == Blank() {
        forall no: nat | no < SEG_MAX_NO ensures addrs[m][no] == NO_ADDR {
          assert addrs[m][no] == NewAddr(states[modules[m].subject], hits, m, no, wasAddrs[m][no]);
        }
      }
    }

    lemma OutcomeAddr(agent: nat, xs: seq<Subject>, was: seq<seq<byte>>, wasAddrs: seq<seq<Long>>,
                      states0: seq<seq<byte>>, states1: seq<seq<byte>>, addrs1: seq<seq<Long>>, m: nat, no: nat)
      requires Valid() && |was| == |states0| == |states1| == |subjects| && Shaped(wasAddrs, |modules|) && Shaped(addrs1, |modules|)
      requires m < |modules| && no < SEG_MAX_NO
      requires was[modules[m].subject] == OFF ==> wasAddrs[m] == Blank()
      requires var k := modules[m].subject; states0[k] == was[k] || (subjects[k].agent == agent && states0[k] == UNDEFINED)
      requires Marked(subjects, states0, states1, agent, xs)
      requires Stored(wasAddrs, addrs1, Hits(subjects, modules, agent, xs), |modules|)
      requires var k := modules[m].subject;
               && states[k] == (if subjects[k].agent == agent && states1[k] == UNDEFINED then OFF else states1[k])
               && addrs[m] == if subjects[k].agent == agent && states1[k] == UNDEFINED then Blank() else addrs1[m]
      ensures addrs[m][no] == NewAddr(states[modules[m].subject], Hits(subjects, modules, agent, xs), m, no, wasAddrs[m][no])
    {
      var hits, k := Hits(subjects, modules, agent, xs), modules[m].subject;
      hide Hits, LastHit, FindSubject, CStr, Listed;
      assert StoredAt(wasAddrs, addrs1, hits, m, no);
      if !Listed(subjects, agent, xs, k) {
        assert xs[..|xs|] == xs;
        HitsAreListed(subjects, modules, agent, xs, |xs|);
        NoHit(modules, hits, ListedIn(subjects, agent, xs), m, no);
      } else {
        assert states1[k] == subjects[k].name != OFF;
      }
    }

    /** ohubHandleSegments. A packet that is not a report changes nothing. After a
        report every subject is in the state NewState gives, and every segment has
        the address NewAddr gives. */
    method HandleSegments(agent: nat, mem: seq<byte>, len: nat) returns (ok: bool, changed: bool)
      requires Valid() && OffIsBlank() && agent < |agentStates| && 1 <= len && len + 2 <= |mem|
      modifies this
      ensures Valid() && OffIsBlank()
      ensures ok <==> ReadReport(mem[..len]).Some?
      ensures !ok ==> states == old(states) && addrs == old(addrs) && agentStates == old(agentStates) && !changed
      ensures ok ==>
        var r := ReadReport(mem[..len]).value;
        && (forall k: nat :: k < |states| ==>
             states[k] == NewState(subjects[k], agent, Listed(subjects, agent, r.subjects, k), r.clean, old(states)[k]))
        && (forall m: nat, no: nat :: m < |modules| && no < SEG_MAX_NO ==>
             addrs[m][no] == NewAddr(states[modules[m].subject], Hits(subjects, modules, agent, r.subjects), m, no, old(addrs)[m][no]))
      // which is: listed subjects are in the state they are called by, others of the agent
      // off after a clean report, and nobody else is touched
      ensures ok ==>
        var r := ReadReport(mem[..len]).value;
        forall k: nat :: k < |states| ==>
          states[k] == if subjects[k].agent != agent then old(states)[k]
                       else if Listed(subjects, agent, r.subjects, k) then if subjects[k].name == UNDEFINED then [] else subjects[k].name
                       else if r.clean || old(states)[k] == UNDEFINED then [] else old(states)[k]
      ensures ok && !ReadReport(mem[..len]).value.clean && !changed ==> states == old(states)
      ensures ok ==> agentStates == if ReadReport(mem[..len]).value.clean then old(agentStates)[agent := UNDEFINED] else old(agentStates)
    {
      hide ReadSubjects, ReadReport, Hits, LastHit, FindSubject, CStr, Listed, NewState, NewAddr, Stored, Marked;
      ok := CheckReport(mem, len);
      changed := false;
      if !ok { return; }
      var b := mem[..len];
      ReportParts(b);
      ghost var r := ReadReport(b).value;
      var clean := b[0] != 0;
      if clean {
        var c := SetAgentState(agent, UNDEFINED);
      }
      ghost var states0, addrs0 := states, addrs;
      var n := b[1] as int;
      var p, c := TakeSubjects(agent, b, 2, n);
      ghost var states1, addrs1 := states, addrs;
      var d := TurnOff(agent);
      changed := c || d;
      Outcome(agent, r, old(states), old(addrs), states0, states1, addrs1);
      forall k: nat | k < |states|
        ensures states[k] == if subjects[k].agent != agent then old(states)[k]
                             else if Listed(subjects, agent, r.subjects, k) then if subjects[k].name == UNDEFINED then [] else subjects[k].name
                             else if r.clean || old(states)[k] == UNDEFINED then [] else old(states)[k]
      {
        NewStateMeans(subjects[k], agent, Listed(subjects, agent, r.subjects, k), r.clean, old(states)[k]);
      }
    }
  }

  /** What has been read and what lies ahead make up the whole list. */
  ghost predicate ModsAhead(b: seq<byte>, p: nat, n: nat, all: Got<Mod>, done: seq<Mod>) {
    && p <= |b| && ReadMods(b[p..], n).Some?
    && ReadMods(b[p..], n).value.rest == all.rest
    && done + ReadMods(b[p..], n).value.items == all.items
  }

  lemma ModsStart(b: seq<byte>, p: nat, n: nat)
    requires p <= |b| && ReadMods(b[p..], n).Some?
    ensures ModsAhead(b, p, n, ReadMods(b[p..], n).value, [])
  {
    hide ReadMods;
  }

  lemma ModsTurn(b: seq<byte>, p: nat, n: nat, all: Got<Mod>, done: seq<Mod>)
    requires n > 0 && ModsAhead(b, p, n, all, done)
    ensures p <= |b| && ReadMod(b[p..]).Some?
    ensures var (one, rest) := ReadMod(b[p..]).value;
            forall q: nat :: q <= |b| && b[q..] == rest ==> ModsAhead(b, q, n - 1, all, done + [one])
  {
    hide ReadMods, ReadMod;
    ReadModsStep(b[p..], n);
    Shift(done, ReadMod(b[p..]).value.0, ReadMods(b[p..], n).value.items, all.items);
  }

  lemma ModsEnd(b: seq<byte>, p: nat, all: Got<Mod>, done: seq<Mod>)
    requires ModsAhead(b, p, 0, all, done)
    ensures p <= |b| && all == Got(done, b[p..])
  {
    ReadModsNone(b[p..]);
    assert done + [] == done;
  }

  /** What has been read and what lies ahead make up the whole list. */
  ghost predicate SubjectsAhead(b: seq<byte>, p: nat, n: nat, all: Got<Subject>, done: seq<Subject>) {
    && p <= |b| && ReadSubjects(b[p..], n).Some?
    && ReadSubjects(b[p..], n).value.rest == all.rest
    && done + ReadSubjects(b[p..], n).value.items == all.items
  }

  lemma SubjectsStart(b: seq<byte>, p: nat, n: nat)
    requires p <= |b| && ReadSubjects(b[p..], n).Some?
    ensures SubjectsAhead(b, p, n, ReadSubjects(b[p..], n).value, [])
  {
    hide ReadSubjects;
  }

  lemma SubjectsTurn(b: seq<byte>, p: nat, n: nat, all: Got<Subject>, done: seq<Subject>)
    requires n > 0 && SubjectsAhead(b, p, n, all, done)
    ensures p <= |b| && ReadSubject(b[p..]).Some?
    ensures var (one, rest) := ReadSubject(b[p..]).value;
            forall q: nat :: q <= |b| && b[q..] == rest ==> SubjectsAhead(b, q, n - 1, all, done + [one])
  {
    hide ReadSubjects, ReadSubject;
    ReadSubjectsStep(b[p..], n);
    Shift(done, ReadSubject(b[p..]).value.0, ReadSubjects(b[p..], n).value.items, all.items);
  }

  lemma SubjectsEnd(b: seq<byte>, p: nat, all: Got<Subject>, done: seq<Subject>)
    requires SubjectsAhead(b, p, 0, all, done)
    ensures p <= |b| && all == Got(done, b[p..])
  {
    ReadSubjectsNone(b[p..]);
    assert done + [] == done;
  }

  /** Who has been listed is in its own state, everyone else is as before. */
  ghost predicate Marked(subjects: seq<SubjectInfo>, was: seq<seq<byte>>, states: seq<seq<byte>>, agent: nat, xs: seq<Subject>) {
    && |was| == |states| == |subjects|
    && forall k: nat :: k < |states| ==>
         states[k] == if Listed(subjects, agent, xs, k) then subjects[k].name else was[k]
  }

  lemma MarkedOneMore(subjects: seq<SubjectInfo>, was: seq<seq<byte>>, mid: seq<seq<byte>>, states: seq<seq<byte>>,
                      agent: nat, done: seq<Subject>, x: Subject)
    requires Marked(subjects, was, mid, agent, done)
    requires var found := FindSubject(subjects, agent, CStr(x.name));
             states == if found.Some? then mid[found.value := subjects[found.value].name] else mid
    ensures Marked(subjects, was, states, agent, done + [x])
  {
    hide FindSubject, CStr, Listed;
    ListedOneMore(subjects, agent, done, x);
  }

  lemma ListedHere(subjects: seq<SubjectInfo>, agent: nat, xs: seq<Subject>, k: nat)
    requires k < |subjects|
    ensures Listed(subjects, agent, xs, k) ==> subjects[k].agent == agent
  {
  }

  lemma ReportParts(b: seq<byte>)
    requires ReadReport(b).Some?
    ensures |b| >= 2 && (b[0] == 0 || b[0] == 1) && ReadSubjects(b[2..], b[1] as int).Some?
    ensures ReadReport(b).value == Report(b[0] == 1, ReadSubjects(b[2..], b[1] as int).value.items)
  {
    hide ReadSubjects;
  }

  lemma Shift<T>(done: seq<T>, x: T, more: seq<T>, all: seq<T>)
    requires done + more == all && more != [] && more[0] == x
    ensures (done + [x]) + more[1..] == all
  {
  }

  /** Before the last loop a listed subject is in its own state, and any other
      subject of the agent is unheard of after a clean start. */
  lemma OutcomeState(x: SubjectInfo, agent: nat, listed: bool, clean: bool, was: seq<byte>, mid: seq<byte>)
    requires listed ==> x.agent == agent
    requires mid == if listed then x.name else if clean && x.agent == agent then UNDEFINED else was
    ensures NewState(x, agent, listed, clean, was) == if x.agent == agent && mid == UNDEFINED then OFF else mid
  {
  }

  /** The address a segment has after a report: none when its subject is off,
      else the last one reported, else the one it had. */
  function NewAddr(state: seq<byte>, hits: seq<Hit>, m: nat, no: nat, was: Long): Long {
    if state == OFF then NO_ADDR
    else match LastHit(hits, m, no) case None => was case Some(a) => a
  }

  lemma OneFirstSubject(subjects: seq<SubjectInfo>, agent: nat, name: seq<byte>, r: Option<nat>)
    requires FirstSubject(subjects, agent, name, r)
    ensures r == FindSubject(subjects, agent, name)
  {
    var f := FindSubject(subjects, agent, name);
    assert FirstSubject(subjects, agent, name, f);
  }

  lemma OneFirstModule(modules: seq<ModuleInfo>, subject: nat, nick: seq<byte>, r: Option<nat>)
    requires FirstModule(modules, subject, nick, r)
    ensures r == FindModule(modules, subject, nick)
  {
    var f := FindModule(modules, subject, nick);
    assert FirstModule(modules, subject, nick, f);
  }

  lemma ModStored(was: seq<seq<Long>>, mid: seq<seq<Long>>, addrs: seq<seq<Long>>, modules: seq<ModuleInfo>,
                  subject: Option<nat>, done: seq<Mod>, m: Mod)
    requires Stored(was, mid, ModHits(modules, subject, done), |modules|)
    requires Stored(mid, addrs, SegmentHits(ModuleOf(modules, subject, m.name), m.segments), |modules|)
    ensures Stored(was, addrs, ModHits(modules, subject, done + [m]), |modules|)
  {
    hide Stored, SegmentHits, ModuleOf;
    assert (done + [m])[..|done|] == done;
    StoreTwice(was, mid, addrs, ModHits(modules, subject, done), SegmentHits(ModuleOf(modules, subject, m.name), m.segments), |modules|);
  }

  lemma SubjectStored(was: seq<seq<Long>>, mid: seq<seq<Long>>, addrs: seq<seq<Long>>, subjects: seq<SubjectInfo>,
                      modules: seq<ModuleInfo>, agent: nat, done: seq<Subject>, x: Subject)
    requires Stored(was, mid, Hits(subjects, modules, agent, done), |modules|)
    requires Stored(mid, addrs, ModHits(modules, FindSubject(subjects, agent, CStr(x.name)), x.mods), |modules|)
    ensures Stored(was, addrs, Hits(subjects, modules, agent, done + [x]), |modules|)
  {
    hide Stored, ModHits, FindSubject, CStr;
    assert (done + [x])[..|done|] == done;
    StoreTwice(was, mid, addrs, Hits(subjects, modules, agent, done), ModHits(modules, FindSubject(subjects, agent, CStr(x.name)), x.mods), |modules|);
  }

  lemma ListedOneMore(subjects: seq<SubjectInfo>, agent: nat, done: seq<Subject>, x: Subject)
    ensures forall k: nat :: Listed(subjects, agent, done + [x], k) <==>
              Listed(subjects, agent, done, k) || FindSubject(subjects, agent, CStr(x.name)) == Some(k)
  {
    hide FindSubject, CStr;
    var all := done + [x];
    assert all[|done|] == x;
    forall k: nat | Listed(subjects, agent, done, k) ensures Listed(subjects, agent, all, k) {
      var j :| 0 <= j < |done| && FindSubject(subjects, agent, CStr(done[j].name)) == Some(k);
      assert all[j] == done[j];
    }
  }

  lemma NoHitsYet(was: seq<seq<Long>>, subjects: seq<SubjectInfo>, modules: seq<ModuleInfo>, agent: nat, subject: Option<nat>)
    requires Shaped(was, |modules|)
    ensures Stored(was, was, ModHits(modules, subject, []), |modules|)
    ensures Stored(was, was, Hits(subjects, modules, agent, []), |modules|)
  {
    NoneStored(was, None, |modules|);
  }

  lemma NoneMarked(subjects: seq<SubjectInfo>, states: seq<seq<byte>>, agent: nat)
    requires |states| == |subjects|
    ensures Marked(subjects, states, states, agent, [])
  {
  }

  lemma NoneStored(was: seq<seq<Long>>, mod: Option<nat>, n: nat)
    requires Shaped(was, n)
    ensures SegmentHits(mod, []) == [] && Stored(was, was, [], n)
  {
  }

  lemma SegmentStored(was: seq<seq<Long>>, addrs: seq<seq<Long>>, mod: Option<nat>, done: seq<Segment>, s: Segment, n: nat)
    requires Stored(was, addrs, SegmentHits(mod, done), n) && (mod.Some? ==> mod.value < n)
    ensures var addrs' := if mod.Some? && IsSegmentName(s.name) then Put(addrs, Hit(mod.value, s.name as int - 32, s.addr)) else addrs;
            Stored(was, addrs', SegmentHits(mod, done + [s]), n)
  {
    hide LastHit;
    assert (done + [s])[..|done|] == done;
    if mod.Some? && IsSegmentName(s.name) {
      StoreOneMore(was, addrs, SegmentHits(mod, done), n, Hit(mod.value, s.name as int - 32, s.addr));
    } else {
      assert SegmentHits(mod, done) + [] == SegmentHits(mod, done);
    }
  }
}
