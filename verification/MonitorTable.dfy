/** The hub's monitor table: one record per monitored ooid with up to eight
    watcher slots and a reference count, found through the numeric tree hash, in
    which the value 0 is a tombstone. */
module MonitorTable {
  import opened Bytes
  import opened Quarks
  import opened SubjectStates
  import opened TreeHash

  const MAX_WATCH := 8
  const SECURING_LIMIT := 32

  type Watcher = nat

  datatype Monitor = Monitor(ooid: Long, refCount: int, watchers: seq<Option<Watcher>>, watchQty: int, securing: bool)

  // ----------------------------------------------------------- watcher slots

  function Occupied(ws: seq<Option<Watcher>>): (n: nat)
    ensures n <= |ws|
  {
    if ws == [] then 0 else Occupied(ws[..|ws| - 1]) + if ws[|ws| - 1].Some? then 1 else 0
  }

  lemma {:induction false} OccupiedUpdate(ws: seq<Option<Watcher>>, i: nat, w: Option<Watcher>)
    requires i < |ws|
    ensures Occupied(ws[i := w]) == Occupied(ws) - (if ws[i].Some? then 1 else 0) + (if w.Some? then 1 else 0)
    decreases |ws|
  {
    var n := |ws| - 1;
    if i == n {
      assert ws[i := w][..n] == ws[..n];
    } else {
      assert ws[i := w][..n] == ws[..n][i := w];
      OccupiedUpdate(ws[..n], i, w);
    }
  }

  lemma {:induction false} OccupiedPositive(ws: seq<Option<Watcher>>, i: nat)
    requires i < |ws| && ws[i].Some?
    ensures Occupied(ws) >= 1
    decreases |ws|
  {
    if i < |ws| - 1 { OccupiedPositive(ws[..|ws| - 1], i); }
  }

  lemma {:induction false} OccupiedNone(ws: seq<Option<Watcher>>)
    requires Occupied(ws) == 0
    ensures forall i :: 0 <= i < |ws| ==> ws[i].None?
    decreases |ws|
  {
    if ws != [] {
      OccupiedNone(ws[..|ws| - 1]);
      assert forall i :: 0 <= i < |ws| - 1 ==> ws[i] == ws[..|ws| - 1][i];
    }
  }

  /** The record invariant: the count is the number of occupied slots, no watcher
      has two, and none lies at or above watch_qty. */
  predicate Sound(m: Monitor) {
    && m.ooid != 0
    && |m.watchers| == MAX_WATCH
    && 0 <= m.watchQty <= MAX_WATCH
    && (forall i :: m.watchQty <= i < MAX_WATCH ==> m.watchers[i].None?)
    && (forall i, j :: 0 <= i < j < MAX_WATCH && m.watchers[i].Some? ==> m.watchers[i] != m.watchers[j])
    && m.refCount == Occupied(m.watchers)
  }

  predicate Watches(m: Monitor, w: Watcher) { Some(w) in m.watchers }

  /** Give slot i to watcher w. */
  function Attached(m: Monitor, i: nat, w: Watcher): Monitor
    requires i < |m.watchers|
  {
    m.(watchers := m.watchers[i := Some(w)], watchQty := if i >= m.watchQty then i + 1 else m.watchQty,
       refCount := m.refCount + 1)
  }

  lemma AttachedIsSound(m: Monitor, i: nat, w: Watcher)
    requires Sound(m) && i < MAX_WATCH && m.watchers[i].None? && !Watches(m, w)
    ensures Sound(Attached(m, i, w)) && Attached(m, i, w).refCount >= 1
    ensures forall x :: Watches(Attached(m, i, w), x) <==> Watches(m, x) || x == w
  {
    OccupiedUpdate(m.watchers, i, Some(w));
    var m' := Attached(m, i, w);
    forall x ensures Watches(m', x) <==> Watches(m, x) || x == w {
      if x == w { assert m'.watchers[i] == Some(x); }
      if Watches(m, x) {
        var j :| 0 <= j < MAX_WATCH && m.watchers[j] == Some(x);
        assert m'.watchers[j] == Some(x);
      }
    }
  }

  /** Clear slot i. */
  function Detached(m: Monitor, i: nat): Monitor
    requires i < |m.watchers|
  {
    m.(watchers := m.watchers[i := None], watchQty := if m.watchQty == i + 1 then m.watchQty - 1 else m.watchQty,
       refCount := m.refCount - 1)
  }

  lemma DetachedIsSound(m: Monitor, i: nat, w: Watcher)
    requires Sound(m) && i < MAX_WATCH && m.watchers[i] == Some(w)
    ensures Sound(Detached(m, i))
    ensures forall x :: Watches(Detached(m, i), x) <==> Watches(m, x) && x != w
  {
    OccupiedUpdate(m.watchers, i, None);
    var m' := Detached(m, i);
    forall x ensures Watches(m', x) <==> Watches(m, x) && x != w {
      if Watches(m, x) && x != w {
        var j :| 0 <= j < MAX_WATCH && m.watchers[j] == Some(x);
        assert m'.watchers[j] == Some(x);
      }
    }
  }

  lemma NobodyLeft(m: Monitor)
    requires Sound(m)
    ensures m.refCount == 0 <==> forall x :: !Watches(m, x)
  {
    if m.refCount == 0 {
      OccupiedNone(m.watchers);
    } else if forall x :: !Watches(m, x) {
      if i :| 0 <= i < MAX_WATCH && m.watchers[i].Some? {
        assert Watches(m, m.watchers[i].value);
      } else {
        NoneOccupied(m.watchers);
      }
    }
  }

  lemma {:induction false} NoneOccupied(ws: seq<Option<Watcher>>)
    requires forall i :: 0 <= i < |ws| ==> ws[i].None?
    ensures Occupied(ws) == 0
    decreases |ws|
  {
    if ws != [] { NoneOccupied(ws[..|ws| - 1]); }
  }

  // ------------------------------------------------------------- the table

  type Table = seq<Option<Monitor>>

  /** Slot 0 is never used; every live record is sound and has a watcher. */
  predicate TableSound(t: Table) {
    && (t != [] ==> t[0].None?)
    && forall no :: 0 <= no < |t| && t[no].Some? ==> Sound(t[no].value) && t[no].value.refCount >= 1
  }

  /** The relation the table stands for. */
  predicate Registered(t: Table, ooid: Long, w: Watcher) {
    exists no :: 0 <= no < |t| && t[no].Some? && t[no].value.ooid == ooid && Watches(t[no].value, w)
  }

  predicate LiveAt(t: Table, no: nat, ooid: Long) {
    no < |t| && t[no].Some? && t[no].value.ooid == ooid
  }

  /** The index finds every live monitor, and only live ones. */
  ghost predicate Indexed(t: Table, index: map<Int32, int>) {
    && (forall no: nat, ooid :: LiveAt(t, no, ooid) ==> AsInt(ooid) in index && index[AsInt(ooid)] == no)
    && (forall ooid: Long :: AsInt(ooid) in index && index[AsInt(ooid)] != 0
          ==> index[AsInt(ooid)] > 0 && LiveAt(t, index[AsInt(ooid)], ooid))
  }

  function Flagged(t: Table): (n: nat)
    ensures n <= |t|
  {
    if t == [] then 0
    else Flagged(t[..|t| - 1]) + if t[|t| - 1].Some? && t[|t| - 1].value.securing then 1 else 0
  }

  function IsFlagged(m: Option<Monitor>): nat { if m.Some? && m.value.securing then 1 else 0 }

  lemma {:induction false} FlaggedUpdate(t: Table, no: nat, m: Option<Monitor>)
    requires no < |t|
    ensures Flagged(t[no := m]) == Flagged(t) - IsFlagged(t[no]) + IsFlagged(m)
    ensures Flagged(t) >= IsFlagged(t[no])
    decreases |t|
  {
    var n := |t| - 1;
    if no == n {
      assert t[no := m][..n] == t[..n];
    } else {
      assert t[no := m][..n] == t[..n][no := m];
      FlaggedUpdate(t[..n], no, m);
    }
  }

  lemma {:induction false} FlaggedGrow(t: Table, k: nat)
    ensures Flagged(t + seq(k, _ => None)) == Flagged(t)
    decreases k
  {
    var t' := t + seq(k, _ => None);
    if k == 0 {
      assert t' == t;
    } else {
      assert t'[..|t'| - 1] == t + seq(k - 1, _ => None);
      FlaggedGrow(t, k - 1);
    }
  }

  /** The table with empty slots added. */
  predicate Grown(t: Table, t': Table) {
    t <= t' && forall no :: |t| <= no < |t'| ==> t'[no].None?
  }

  lemma GrownKeeps(t: Table, t': Table, index: map<Int32, int>)
    requires TableSound(t) && t'!= [] && Grown(t, t') && (t == [] ==> t'[0].None?)
    ensures TableSound(t') && (Indexed(t, index) ==> Indexed(t', index))
  {
    if Indexed(t, index) {
      forall no: nat, ooid | LiveAt(t', no, ooid) ensures AsInt(ooid) in index && index[AsInt(ooid)] == no {
        assert LiveAt(t, no, ooid);
      }
    }
  }

  lemma GrownSame(t: Table, t': Table)
    requires Grown(t, t')
    ensures forall o, x :: Registered(t', o, x) <==> Registered(t, o, x)
  {
    forall o, x ensures Registered(t', o, x) <==> Registered(t, o, x) {
      if Registered(t, o, x) {
        var no :| 0 <= no < |t| && t[no].Some? && t[no].value.ooid == o && Watches(t[no].value, x);
        assert t'[no] == t[no];
      }
    }
  }

  /** All eight slots of a live monitor of the ooid are taken. */
  ghost predicate Full(t: Table, ooid: Long) {
    exists no: nat :: LiveAt(t, no, ooid) && forall i :: 0 <= i < |t[no].value.watchers| ==> t[no].value.watchers[i].Some?
  }

  /** No live monitor has this ooid. */
  ghost predicate IsNew(t: Table, ooid: Long) { forall no: nat :: !LiveAt(t, no, ooid) }

  /** What is said of an ooid is what its only live monitor says. */
  lemma AtItsMonitor(t: Table, no: nat, ooid: Long, w: Watcher)
    requires LiveAt(t, no, ooid) && forall j: nat :: LiveAt(t, j, ooid) ==> j == no
    ensures Registered(t, ooid, w) <==> Watches(t[no].value, w)
    ensures Full(t, ooid) <==> forall i :: 0 <= i < |t[no].value.watchers| ==> t[no].value.watchers[i].Some?
  {
    if Registered(t, ooid, w) {
      var j :| 0 <= j < |t| && t[j].Some? && t[j].value.ooid == ooid && Watches(t[j].value, w);
      assert LiveAt(t, j, ooid);
    }
  }

  lemma ReplaceKeepsIndexed(t: Table, no: nat, m: Monitor, index: map<Int32, int>)
    requires Indexed(t, index) && no < |t| && t[no].Some? && m.ooid == t[no].value.ooid
    ensures Indexed(t[no := Some(m)], index)
  {
    var t' := t[no := Some(m)];
    forall j: nat, ooid ensures LiveAt(t', j, ooid) <==> LiveAt(t, j, ooid) {}
  }

  lemma NewIsIndexed(t: Table, no: nat, m: Monitor, index: map<Int32, int>, index': map<Int32, int>)
    requires Indexed(t, index) && 0 < no < |t| && t[no].None?
    requires forall j: nat :: !LiveAt(t, j, m.ooid)
    requires index' == index[AsInt(m.ooid) := no]
    ensures Indexed(t[no := Some(m)], index')
  {
    var t' := t[no := Some(m)];
    forall j: nat, ooid | LiveAt(t', j, ooid) ensures AsInt(ooid) in index' && index'[AsInt(ooid)] == j {
      if j != no { assert LiveAt(t, j, ooid) && ooid != m.ooid; }
    }
    forall ooid: Long | AsInt(ooid) in index' && index'[AsInt(ooid)] != 0
      ensures index'[AsInt(ooid)] > 0 && LiveAt(t', index'[AsInt(ooid)], ooid)
    {
      if ooid != m.ooid {
        assert AsInt(ooid) != AsInt(m.ooid);
        assert LiveAt(t, index[AsInt(ooid)], ooid);
      }
    }
  }

  lemma TombstoneIsIndexed(t: Table, no: nat, index: map<Int32, int>, index': map<Int32, int>)
    requires Indexed(t, index) && no < |t| && t[no].Some?
    requires index' == index[AsInt(t[no].value.ooid) := 0]
    ensures Indexed(t[no := None], index')
  {
    var t', gone := t[no := None], t[no].value.ooid;
    assert LiveAt(t, no, gone);
    forall j: nat, ooid | LiveAt(t', j, ooid) ensures AsInt(ooid) in index' && index'[AsInt(ooid)] == j {
      assert LiveAt(t, j, ooid);
    }
    forall ooid: Long | AsInt(ooid) in index' && index'[AsInt(ooid)] != 0
      ensures index'[AsInt(ooid)] > 0 && LiveAt(t', index'[AsInt(ooid)], ooid)
    {
      assert ooid != gone && AsInt(ooid) != AsInt(gone);
      assert LiveAt(t, index[AsInt(ooid)], ooid);
    }
  }

  /** When one record changes, the relation changes only through it. */
  lemma OnlyThisChanges(t: Table, t': Table, no: nat)
    requires no < |t| == |t'| && t' == t[no := t'[no]]
    ensures forall o, x :: Registered(t', o, x)
              <==> (t'[no].Some? && t'[no].value.ooid == o && Watches(t'[no].value, x)) || RegisteredBut(t, no, o, x)
    ensures forall o, x :: Registered(t, o, x)
              <==> (t[no].Some? && t[no].value.ooid == o && Watches(t[no].value, x)) || RegisteredBut(t, no, o, x)
  {
    forall o, x
      ensures Registered(t', o, x)
         <==> (t'[no].Some? && t'[no].value.ooid == o && Watches(t'[no].value, x)) || RegisteredBut(t, no, o, x)
      ensures Registered(t, o, x)
         <==> (t[no].Some? && t[no].value.ooid == o && Watches(t[no].value, x)) || RegisteredBut(t, no, o, x)
    {
      if j :| 0 <= j < |t| && j != no && t[j].Some? && t[j].value.ooid == o && Watches(t[j].value, x) {
        assert t'[j] == t[j];
      }
      if j :| 0 <= j < |t'| && j != no && t'[j].Some? && t'[j].value.ooid == o && Watches(t'[j].value, x) {
        assert t'[j] == t[j];
      }
    }
  }

  /** Monitors that stay keep their slot, their object and their flag, and those that go
      have lost their last watcher. */
  ghost predicate StayAsTheyAre(t: Table, t': Table) {
    && |t'| == |t|
    && forall j :: 0 <= j < |t| ==>
         && (t'[j].Some? ==> t[j].Some? && t'[j].value.ooid == t[j].value.ooid && t'[j].value.securing == t[j].value.securing)
         && (t'[j].None? && t[j].Some? ==> t[j].value.refCount == 1)
  }

  lemma WithoutStays(t: Table, t': Table, w: Watcher)
    requires TableSound(t) && |t'| == |t| && forall j :: 0 <= j < |t| ==> t'[j] == Without(t[j], w)
    ensures StayAsTheyAre(t, t')
  {
    hide Sound, Watches;
  }

  predicate RegisteredBut(t: Table, no: nat, ooid: Long, w: Watcher) {
    exists j :: 0 <= j < |t| && j != no && t[j].Some? && t[j].value.ooid == ooid && Watches(t[j].value, w)
  }

  /** What a register finds out on the way: whether the ooid resolves, whether its
      address is known, whether its agent is up and too busy, and the two allocations. */
  datatype Circumstances = Circumstances(resolves: bool, hasAddress: bool, agentUp: bool, busy: bool,
                                         roomForMonitor: bool, roomInIndex: bool)

  /** A securing pass sees, for each flagged monitor, an agent that is down, one
      with too many requests pending, a full send queue, or a free way. */
  datatype Way = Down | Pending | Overflow | Free

  class Hub {
    var mons: Table
    var securingQty: int
    const index: Tree<Int32>
    ghost var refused: bool         // has the index ever turned a monitor away?

    ghost predicate Valid()
      reads this, index
    {
      && TableSound(mons)
      && index.Valid()
      && securingQty == Flagged(mons)
      && (!refused ==> !index.bad && Indexed(mons, index.content))
    }

    constructor ()
      ensures Valid() && fresh(index) && mons == [] && !refused && index.content == map[]
    {
      NumberKeysLawful();
      mons, securingQty, refused := [], 0, false;
      index := new Tree(NumberKeys());
    }

    /** The live monitor of an ooid, 0 when there is none. */
    method Find(ooid: Long) returns (no: nat)
      requires Valid()
      ensures no != 0 ==> LiveAt(mons, no, ooid) && AsInt(ooid) in index.content
      ensures !refused ==> (no == 0 <==> forall j: nat :: !LiveAt(mons, j, ooid))
      ensures !refused ==> forall j: nat :: LiveAt(mons, j, ooid) ==> j == no
    {
      if mons == [] || ooid == 0 {
        assert forall j: nat :: LiveAt(mons, j, ooid) ==> Sound(mons[j].value);
        return 0;
      }
      var r := index.Find(AsInt(ooid));
      if !r.found || r.val <= 0 || r.val >= |mons| { return 0; }
      if mons[r.val].None? || mons[r.val].value.ooid != ooid { return 0; }
      no := r.val;
      assert LiveAt(mons, no, ooid);
    }

    /** A free slot, growing the table when there is none. */
    method Allocate() returns (no: nat)
      requires Valid()
      modifies this`mons
      ensures Valid()
      ensures 0 < no < |mons| && mons[no].None?
      ensures Grown(old(mons), mons)
    {
      no := 1;
      while no < |mons|
        invariant no >= 1
      {
        if mons[no].None? { return; }
        no := no + 1;
      }
      no := if |mons| <= 0 then 1 else |mons|;
      FlaggedGrow(mons, |mons| + 2);
      GrownKeeps(mons, mons + seq(|mons| + 2, _ => None), index.content);
      mons := mons + seq(|mons| + 2, _ => None);
    }

    /** A free slot for a watcher that has none yet. */
    static method SlotFor(ws: seq<Option<Watcher>>, w: Watcher) returns (r: Option<nat>)
      requires |ws| == MAX_WATCH
      ensures r.Some? ==> r.value < MAX_WATCH && ws[r.value].None? && Some(w) !in ws
      ensures r.None? ==> Some(w) in ws || forall i :: 0 <= i < MAX_WATCH ==> ws[i].Some?
    {
      var i := 0;
      while i < MAX_WATCH
        invariant 0 <= i <= MAX_WATCH && Some(w) !in ws[..i]
      {
        if ws[i] == Some(w) { return None; }
        i := i + 1;
      }
      assert ws[..i] == ws;
      i := 0;
      while i < MAX_WATCH && ws[i].Some?
        invariant 0 <= i <= MAX_WATCH && forall j :: 0 <= j < i ==> ws[j].Some?
      {
        i := i + 1;
      }
      r := if i >= MAX_WATCH then None else Some(i);
    }

    /** One more watcher for a live monitor. */
    method AttachMore(no: nat, w: Watcher) returns (ok: bool)
      requires Valid() && no < |mons| && mons[no].Some?
      modifies this`mons
      ensures Valid()
      ensures ok <==> !Watches(old(mons)[no].value, w) && exists i :: 0 <= i < MAX_WATCH && old(mons)[no].value.watchers[i].None?
      ensures !ok ==> mons == old(mons)
      ensures ok ==> |mons| == |old(mons)| && mons == old(mons)[no := mons[no]] && mons[no].Some?
                     && mons[no].value.ooid == old(mons)[no].value.ooid
                     && mons[no].value.securing == old(mons)[no].value.securing
                     && forall x :: Watches(mons[no].value, x) <==> Watches(old(mons)[no].value, x) || x == w
    {
      var m := mons[no].value;
      var slot := SlotFor(m.watchers, w);
      if slot.None? { return false; }
      var m' := Attached(m, slot.value, w);
      AttachedIsSound(m, slot.value, w);
      FlaggedUpdate(mons, no, Some(m'));
      if !refused { ReplaceKeepsIndexed(mons, no, m', index.content); }
      mons := mons[no := Some(m')];
      ok := true;
    }

    /** A new monitor with its first watcher, put in the index under its slot number. */
    method AttachNew(no: nat, ooid: Long, w: Watcher, c: Circumstances) returns (ok: bool)
      requires Valid() && 0 < no < |mons| && mons[no].None? && ooid != 0
      requires !refused ==> forall j: nat :: !LiveAt(mons, j, ooid)
      modifies this, index
      ensures Valid()
      ensures |mons| == |old(mons)| && mons == old(mons)[no := mons[no]] && mons[no].Some?
      ensures mons[no].value.ooid == ooid && forall x :: Watches(mons[no].value, x) <==> x == w
      ensures mons[no].value.securing == (ok && c.hasAddress && c.agentUp && c.busy)
      ensures refused == (old(refused) || !ok) && (!ok ==> index.content == old(index.content))
      ensures !old(index.bad) ==> (ok <==> AsInt(ooid) in old(index.content) || (c.roomInIndex && |old(index.nodes)| < USHORT))
    {
      hide Tree.Valid, Indexed, Flagged, AsInt;
      var m := Monitor(ooid, 0, seq(MAX_WATCH, _ => None), 0, false);
      NoneOccupied(m.watchers);
      var slot := SlotFor(m.watchers, w);
      AttachedIsSound(m, slot.value, w);
      m := Attached(m, slot.value, w);
      ok := index.Add(AsInt(ooid), no, true, c.roomInIndex);
      if ok && c.hasAddress && c.agentUp && c.busy {
        securingQty := securingQty + 1;
        m := m.(securing := true);
      }
      FlaggedUpdate(mons, no, Some(m));
      if !ok {
        refused := true;
      } else if !refused {
        NewIsIndexed(mons, no, m, old(index.content), index.content);
      }
      mons := mons[no := Some(m)];
    }

    /** Register watcher w with ooid: attach to the live monitor, or make one. It
        adds one pair to the relation or changes nothing. The one exception is a
        new monitor that the index has no room for: it fails, and yet the record
        stays behind, out of reach of Find. */
    method Register(ooid: Long, w: Watcher, c: Circumstances) returns (ok: bool, ghost turnedAway: bool)
      requires Valid() && ooid != 0
      modifies this, index
      ensures Valid()
      ensures refused == (old(refused) || turnedAway)
      ensures turnedAway ==> !ok && index.content == old(index.content)
      ensures ok || turnedAway
          ==> forall o, x :: Registered(mons, o, x) <==> Registered(old(mons), o, x) || (o == ooid && x == w)
      ensures !ok && !turnedAway ==> forall o, x :: Registered(mons, o, x) <==> Registered(old(mons), o, x)
      ensures (ok || turnedAway) && !old(refused) ==> !Registered(old(mons), ooid, w)
      // a new monitor waits for its agent if that is up and busy; no other flag changes
      ensures |old(mons)| <= |mons| && forall j :: 0 <= j < |mons| && mons[j].Some? ==>
                mons[j].value.securing == if j < |old(mons)| && old(mons)[j].Some? then old(mons)[j].value.securing
                                          else ok && c.hasAddress && c.agentUp && c.busy
      // exactly when it fails, and when the index turns a monitor away
      ensures !old(refused) ==> (turnedAway <==> IsNew(old(mons), ooid) && c.roomForMonitor && c.resolves
                                                 && !(AsInt(ooid) in old(index.content) || (c.roomInIndex && |old(index.nodes)| < USHORT)))
      ensures !old(refused) ==> (ok <==> if IsNew(old(mons), ooid)
                                          then c.roomForMonitor && c.resolves
                                               && (AsInt(ooid) in old(index.content) || (c.roomInIndex && |old(index.nodes)| < USHORT))
                                          else !Registered(old(mons), ooid, w) && !Full(old(mons), ooid))
    {
      turnedAway := false;
      var no := Find(ooid);
      ghost var mons0 := mons;
      if !refused && (no == 0 || !Watches(mons[no].value, w)) { NotYet(mons, no, ooid, w); }
      if no == 0 {
        if !c.roomForMonitor { return false, false; }
        no := Allocate();
        GrownSame(mons0, mons);
        if !c.resolves { return false, false; }
        ghost var mons1 := mons;
        assert !refused ==> forall j: nat :: LiveAt(mons1, j, ooid) ==> LiveAt(mons0, j, ooid);
        ok := AttachNew(no, ooid, w, c);
        turnedAway := !ok;
        OnlyThisChanges(mons1, mons, no);
        return;
      }
      ok := AttachMore(no, w);
      if ok { OnlyThisChanges(mons0, mons, no); }
      if !refused { AtItsMonitor(mons0, no, ooid, w); }
    }

    lemma NotYet(t: Table, no: nat, ooid: Long, w: Watcher)
      requires forall j: nat :: LiveAt(t, j, ooid) ==> j == no && no < |t| && !Watches(t[no].value, w)
      ensures !Registered(t, ooid, w)
    {
      if Registered(t, ooid, w) {
        var j :| 0 <= j < |t| && t[j].Some? && t[j].value.ooid == ooid && Watches(t[j].value, w);
        assert LiveAt(t, j, ooid);
      }
    }

    /** Clear a watcher's slot, drop the reference, and with the last reference
        the record, its place in the index and its securing flag. */
    method DetachAt(no: nat, i: nat, w: Watcher) returns (gone: bool)
      requires Valid() && no < |mons| && mons[no].Some?
      requires i < MAX_WATCH && mons[no].value.watchers[i] == Some(w)
      modifies this`mons, this`securingQty, index
      ensures Valid()
      ensures mons == old(mons)[no := After(old(mons)[no].value, i)]
      ensures gone <==> mons[no].None?
    {
      hide Tree.Valid, Flagged, AsInt;
      var m := mons[no].value;
      DetachedIsSound(m, i, w);
      var watchQty := if m.watchQty == i + 1 then m.watchQty - 1 else m.watchQty;
      m := m.(watchers := m.watchers[i := None], watchQty := watchQty);
      m := m.(refCount := m.refCount - 1);
      if m.refCount > 0 {
        FlaggedUpdate(mons, no, Some(m));
        if !refused { ReplaceKeepsIndexed(mons, no, m, index.content); }
        mons := mons[no := Some(m)];
        return false;
      }
      assert LiveAt(mons, no, m.ooid);
      var _ := index.Add(AsInt(m.ooid), 0, true, true);
      if !refused { TombstoneIsIndexed(mons, no, old(index.content), index.content); }
      FlaggedUpdate(mons, no, None);
      if m.securing {
        securingQty := securingQty - 1;
        assert securingQty >= 0;  // so the code's clamp at zero never acts
      }
      mons := mons[no := None];
      gone := true;
    }

    /** Unregister one watcher from one ooid. */
    method Unregister(ooid: Long, w: Watcher) returns (ok: bool)
      requires Valid()
      modifies this`mons, this`securingQty, index
      ensures Valid()
      ensures !ok ==> mons == old(mons)
      ensures !refused ==> (ok <==> Registered(old(mons), ooid, w))
      ensures !refused ==> forall o, x :: Registered(mons, o, x) <==> Registered(old(mons), o, x) && !(o == ooid && x == w)
      ensures StayAsTheyAre(old(mons), mons)
    {
      if ooid == 0 {
        NoneForZero(mons, w);
        return false;
      }
      ghost var mons0 := mons;
      var no := Find(ooid);
      if no == 0 {
        if !refused { NotYet(mons, no, ooid, w); }
        return false;
      }
      var i := mons[no].value.watchQty - 1;
      while i >= 0 && mons[no].value.watchers[i] != Some(w)
        invariant -1 <= i < mons[no].value.watchQty
        invariant forall j :: i < j < MAX_WATCH ==> mons[no].value.watchers[j] != Some(w)
      {
        i := i - 1;
      }
      if i < 0 {
        if !refused { NotYet(mons, no, ooid, w); }
        return false;
      }
      DetachedIsSound(mons[no].value, i, w);
      NobodyLeft(Detached(mons[no].value, i));
      var _ := DetachAt(no, i, w);
      OnlyThisChanges(mons0, mons, no);
      if !refused {
        assert LiveAt(mons0, no, ooid);
        forall x ensures !RegisteredBut(mons0, no, ooid, x) {
          if j :| 0 <= j < |mons0| && j != no && mons0[j].Some? && mons0[j].value.ooid == ooid && Watches(mons0[j].value, x) {
            assert LiveAt(mons0, j, ooid);
          }
        }
      }
      ok := true;
    }

    lemma NoneForZero(t: Table, w: Watcher)
      requires TableSound(t)
      ensures !Registered(t, 0, w)
    {
    }

    /** Take a watcher out of one record, if it is in it. */
    method RemoveWatchAt(no: nat, w: Watcher) returns (hit: bool)
      requires Valid() && no < |mons|
      modifies this`mons, this`securingQty, index
      ensures Valid()
      ensures mons == old(mons)[no := Without(old(mons)[no], w)]
      ensures hit <==> old(mons)[no].Some? && Watches(old(mons)[no].value, w)
    {
      if mons[no].None? { return false; }
      var m := mons[no].value;
      var i := 0;
      while i < MAX_WATCH && m.watchers[i] != Some(w)
        invariant 0 <= i <= MAX_WATCH && Some(w) !in m.watchers[..i]
      {
        i := i + 1;
      }
      if i >= MAX_WATCH {
        assert m.watchers[..i] == m.watchers;
        return false;
      }
      SlotIsUnique(m, i, w);
      var _ := DetachAt(no, i, w);
      hit := true;
    }

    /** A watcher goes away: all its pairs go, and the monitors left empty. */
    method RemoveWatch(w: Watcher) returns (qty: nat)
      requires Valid()
      modifies this`mons, this`securingQty, index
      ensures Valid()
      ensures |mons| == |old(mons)| && forall j :: 0 <= j < |mons| ==> mons[j] == Without(old(mons)[j], w)
      ensures qty == Pairs(old(mons), w) == |set j: nat | j < |old(mons)| && old(mons)[j].Some? && Watches(old(mons)[j].value, w)|
      ensures StayAsTheyAre(old(mons), mons)
      ensures forall o, x :: Registered(mons, o, x) <==> Registered(old(mons), o, x) && x != w
    {
      hide Without, Registered, Refines, Indexed, TableSound, Rooted;
      qty := 0;
      ghost var mons0 := mons;
      TableStart(mons0);
      WithoutNone(w);
      PairsFirst(mons0, w);
      var no := 1;
      while no < |mons|
        invariant 1 <= no && |mons| == |mons0| && (mons0 != [] ==> no <= |mons|)
        invariant Valid()
        invariant forall j :: 0 <= j < no && j < |mons| ==> mons[j] == Without(mons0[j], w)
        invariant forall j :: no <= j < |mons| ==> mons[j] == mons0[j]
        invariant mons0 != [] ==> qty == Pairs(mons0[..no], w)
        invariant mons0 == [] ==> qty == 0
      {
        var hit := RemoveWatchAt(no, w);
        if hit { qty := qty + 1; }
        assert mons0[..no + 1][..no] == mons0[..no];
        no := no + 1;
      }
      assert mons0 != [] ==> mons0[..no] == mons0;
      WithoutRelation(mons0, mons, w);
      WithoutStays(mons0, mons, w);
      PairsAreSlots(mons0, w);
    }

    /** One slot: if its monitor is in one of the modules, its quark gets its address. */
    method UpdateAt(d: Domain, mods: seq<int>, quark: Quark, no: nat) returns (hit: bool)
      requires Valid() && d.Valid() && no < |mons|
      modifies this`mons, this`securingQty, quark`physAddr
      ensures Valid() && hit == (old(mons)[no].Some? && quark.mod in mods)
      ensures hit ==> quark.physAddr == quark.Addr(d)
      ensures mons == if hit && quark.Addr(d) != NO_ADDR then old(mons)[no := WithFlag(old(mons)[no], true)] else old(mons)
      ensures !hit ==> quark.physAddr == old(quark.physAddr)
    {
      hide Quark.Addr, TableSound, Indexed, Flagged, Refines;
      if mons[no].None? { return false; }
      var i := 0;
      while i < |mods| && mods[i] != quark.mod
        invariant 0 <= i <= |mods| && quark.mod !in mods[..i]
      {
        i := i + 1;
      }
      if i == |mods| {
        assert mods[..i] == mods;
        return false;
      }
      hit := true;
      var _ := quark.RefineAddress(d);
      if quark.physAddr != NO_ADDR && !mons[no].value.securing {
        SetFlag(no, true);
        securingQty := securingQty + 1;
      }
    }

    /** Segments of modules have new addresses: the monitors in these modules, whose
        quarks are given by slot, get theirs, and those that have one are flagged. */
    method UpdateAddresses(d: Domain, mods: seq<int>, quarks: seq<Quark>) returns (qty: nat)
      requires Valid() && d.Valid() && |quarks| == |mons|
      requires forall i, j :: 0 <= i < j < |quarks| ==> quarks[i] != quarks[j]
      modifies this`mons, this`securingQty, quarks`physAddr
      ensures Valid() && |mons| == |old(mons)|
      ensures forall j :: 0 <= j < |mons| ==>
        if Concerned(old(mons), mods, quarks, j)
        then quarks[j].physAddr == quarks[j].Addr(d) && mons[j] == if quarks[j].Addr(d) != NO_ADDR then WithFlag(old(mons)[j], true) else old(mons)[j]
        else quarks[j].physAddr == old(quarks[j].physAddr) && mons[j] == old(mons)[j]
      ensures qty == |ConcernedUpTo(old(mons), mods, quarks, |mons|)|
    {
      hide Quark.Addr, TableSound, Sound, Indexed, Flagged, WithFlag, ConcernedUpTo, Refines;
      qty := 0;
      var no := 1;
      TableStart(mons);
      ghost var mons0 := mons;
      NobodyConcerned(mons0, mods, quarks);
      while no < |mons|
        invariant 1 <= no && |mons| == |mons0| && (mons0 != [] ==> no <= |mons|) && Valid()
        invariant forall j :: 0 <= j < |mons| && j < no ==>
          if Concerned(mons0, mods, quarks, j)
          then quarks[j].physAddr == quarks[j].Addr(d) && mons[j] == if quarks[j].Addr(d) != NO_ADDR then WithFlag(mons0[j], true) else mons0[j]
          else quarks[j].physAddr == old(quarks[j].physAddr) && mons[j] == mons0[j]
        invariant forall j :: no <= j < |mons| ==> quarks[j].physAddr == old(quarks[j].physAddr) && mons[j] == mons0[j]
        invariant qty == |ConcernedUpTo(mons0, mods, quarks, if mons0 == [] then 0 else no)|
      {
        ConcernedOneMore(mons0, mods, quarks, no);
        var hit := UpdateAt(d, mods, quarks[no], no);
        if hit { qty := qty + 1; }
        no := no + 1;
      }
    }

    /** Change one securing flag; the caller keeps the count. */
    method SetFlag(no: nat, flag: bool)
      requires Valid() && no < |mons| && mons[no].Some? && mons[no].value.securing != flag
      modifies this`mons
      ensures mons == old(mons)[no := WithFlag(old(mons)[no], flag)]
      ensures TableSound(mons) && (!refused ==> Indexed(mons, index.content))
      ensures Flagged(mons) == securingQty + if flag then 1 else -1
    {
      var m := mons[no].value.(securing := flag);
      FlaggedUpdate(mons, no, Some(m));
      if !refused { ReplaceKeepsIndexed(mons, no, m, index.content); }
      mons := mons[no := Some(m)];
    }

    /** Whether the pass takes up the monitor in slot no, and what it does then. */
    method SecureOne(no: nat, way: Way) returns (done: bool)
      requires Valid() && no < |mons|
      modifies this`mons, this`securingQty
      ensures Valid()
      ensures done <==> IsFlagged(old(mons)[no]) == 1 && (way.Down? || way.Free?)
      ensures mons == if done then old(mons)[no := WithFlag(old(mons)[no], false)] else old(mons)
      ensures securingQty == old(securingQty) - if done then 1 else 0
    {
      done := mons[no].Some? && mons[no].value.securing && !way.Pending? && !way.Overflow?;
      if done {
        SetFlag(no, false);
        securingQty := securingQty - 1;
      }
    }

    /** One pass over the deferred registrations, in slot order: the first 32 flagged
        monitors whose way is free, or whose agent is down, lose their flag. */
    method SecureMore(way: nat -> Way) returns (qty: nat)
      requires Valid()
      modifies this`mons, this`securingQty
      ensures Valid() && |mons| == |old(mons)|
      ensures forall no :: 0 <= no < |mons| ==> mons[no] == AfterSecuring(old(mons), way, no)
      // a monitor changes in its flag only, which goes when fewer than 32 were taken up
      // before it and its way is free or its agent down
      ensures forall no :: 0 <= no < |mons| && old(mons)[no].None? ==> mons[no].None?
      ensures forall no :: 0 <= no < |mons| && old(mons)[no].Some? ==>
                && mons[no].Some? && mons[no].value.ooid == old(mons)[no].value.ooid
                && mons[no].value.watchers == old(mons)[no].value.watchers && mons[no].value.refCount == old(mons)[no].value.refCount
                && mons[no].value.securing == (old(mons)[no].value.securing
                     && !(Takeables(old(mons), way, no) < 32 && (way(no).Free? || way(no).Down?)))
      ensures qty == AtMost(SECURING_LIMIT, Takeables(old(mons), way, |mons|)) == old(securingQty) - securingQty
      ensures (forall j: nat :: way(j).Down? || way(j).Free?) ==> qty == AtMost(SECURING_LIMIT, old(securingQty))
    {
      hide Refines, Indexed, TableSound, AfterSecuring, Takeables, Takeable, Flagged;
      ghost var t0 := mons;
      TableStart(mons);
      qty := TakeUp(way);
      SecuringMeans(t0, mons, way);
    }

    /** The loop of the pass. */
    method TakeUp(way: nat -> Way) returns (qty: nat)
      requires Valid()
      modifies this`mons, this`securingQty
      ensures Valid() && |mons| == |old(mons)|
      ensures forall no :: 0 <= no < |mons| ==> mons[no] == AfterSecuring(old(mons), way, no)
      ensures qty == AtMost(SECURING_LIMIT, Takeables(old(mons), way, |mons|)) == old(securingQty) - securingQty
      ensures (forall j: nat :: way(j).Down? || way(j).Free?) ==> qty == AtMost(SECURING_LIMIT, old(securingQty))
    {
      hide Refines, Indexed, TableSound, Rooted, AfterSecuring, Takeables, Takeable, Flagged;
      qty := 0;
      ghost var t0 := mons;
      SlotZero(mons);
      if forall j: nat :: way(j).Down? || way(j).Free? { AllTakeable(t0, way, |t0|); }
      if mons == [] || securingQty <= 0 {
        NothingFlagged(t0);
        NothingSecured(t0, way, 0);
        NoneToTake(t0, way, 0, |t0|);
        return;
      }
      var no := 1;
      NothingSecured(t0, way, 1);
      while no < |mons|
        invariant 1 <= no <= |mons| == |t0| && Valid()
        invariant qty == Takeables(t0, way, no) <= SECURING_LIMIT && qty == old(securingQty) - securingQty
        invariant Secured(t0, mons, way, no)
      {
        if qty >= SECURING_LIMIT || securingQty <= 0 { break; }
        SecuredStep(t0, mons, way, no);
        var done := SecureOne(no, way(no));
        if done { qty := qty + 1; }
        no := no + 1;
      }
      if qty >= SECURING_LIMIT {
        FullFrom(t0, way, no, |t0|);
      } else {
        if no < |mons| {
          NothingFlagged(mons);
          assert forall m: nat :: no <= m < |t0| ==> t0[m] == mons[m];
        }
        NoneToTake(t0, way, no, |t0|);
      }
    }

    lemma TableStart(t: Table)
      requires TableSound(t)
      ensures t != [] ==> t[0].None?
    {
    }

    lemma SlotZero(t: Table)
      requires TableSound(t)
      ensures t != [] ==> IsFlagged(t[0]) == 0
    {
    }

    lemma WithoutNone(w: Watcher)
      ensures Without(None, w) == None
    {
    }

    lemma PairsFirst(t: Table, w: Watcher)
      requires TableSound(t)
      ensures t != [] ==> Pairs(t[..1], w) == 0
      ensures t == [] ==> Pairs(t, w) == 0
    {
      if t != [] { assert t[..1][..0] == []; }
    }
  }

  // ------------------------------------------------------ a pass, slot by slot

  function AtMost(limit: nat, k: nat): nat { if k < limit then k else limit }

  predicate Takeable(m: Option<Monitor>, w: Way) { IsFlagged(m) == 1 && (w.Down? || w.Free?) }

  /** How many of the slots 1..n a pass without a limit would take up. */
  function Takeables(t: Table, way: nat -> Way, n: nat): (k: nat)
    requires n <= |t|
    ensures k <= n
  {
    if n <= 1 then 0 else Takeables(t, way, n - 1) + if Takeable(t[n - 1], way(n - 1)) then 1 else 0
  }

  /** What the pass leaves in a slot. */
  function AfterSecuring(t: Table, way: nat -> Way, no: nat): Option<Monitor>
    requires no < |t|
  {
    if 1 <= no && Takeables(t, way, no) < SECURING_LIMIT && Takeable(t[no], way(no)) then WithFlag(t[no], false) else t[no]
  }

  /** What the pass makes of the monitors, in plain words. */
  lemma SecuringMeans(t0: Table, t: Table, way: nat -> Way)
    requires |t| == |t0| && forall no :: 0 <= no < |t| ==> t[no] == AfterSecuring(t0, way, no)
    requires t0 != [] ==> t0[0].None?
    ensures forall no :: 0 <= no < |t| && t0[no].None? ==> t[no].None?
    ensures forall no :: 0 <= no < |t| && t0[no].Some? ==>
              && t[no].Some? && t[no].value.ooid == t0[no].value.ooid
              && t[no].value.watchers == t0[no].value.watchers && t[no].value.refCount == t0[no].value.refCount
              && t[no].value.securing == (t0[no].value.securing && !(Takeables(t0, way, no) < 32 && (way(no).Free? || way(no).Down?)))
  {
    hide Takeables;
  }

  /** The pass has got to slot no. */
  ghost predicate Secured(t0: Table, t: Table, way: nat -> Way, no: nat) {
    && no <= |t| == |t0|
    && (forall m: nat :: m < no ==> t[m] == AfterSecuring(t0, way, m))
    && (forall m: nat :: no <= m < |t| ==> t[m] == t0[m])
  }

  lemma NothingSecured(t: Table, way: nat -> Way, no: nat)
    requires no <= 1 && no <= |t|
    ensures Secured(t, t, way, no) && Takeables(t, way, no) == 0
  {
  }

  lemma SecuredStep(t0: Table, t: Table, way: nat -> Way, no: nat)
    requires Secured(t0, t, way, no) && 1 <= no < |t0| && Takeables(t0, way, no) < SECURING_LIMIT
    ensures t[no] == t0[no]
    ensures var done := IsFlagged(t[no]) == 1 && (way(no).Down? || way(no).Free?);
            && Secured(t0, if done then t[no := WithFlag(t[no], false)] else t, way, no + 1)
            && Takeables(t0, way, no + 1) == Takeables(t0, way, no) + if done then 1 else 0
  {
  }

  lemma {:induction false} NothingFlagged(t: Table)
    requires Flagged(t) == 0
    ensures forall no :: 0 <= no < |t| ==> IsFlagged(t[no]) == 0
  {
    if t != [] { NothingFlagged(t[..|t| - 1]); }
  }

  /** With nothing flagged from slot `from` on, the pass has done what it will do. */
  lemma {:induction false} NoneToTake(t: Table, way: nat -> Way, from: nat, n: nat)
    requires from <= n <= |t| && forall m :: from <= m < n ==> IsFlagged(t[m]) == 0
    ensures Takeables(t, way, n) == Takeables(t, way, from)
    ensures forall m: nat :: from <= m < n ==> AfterSecuring(t, way, m) == t[m]
  {
    if from < n { NoneToTake(t, way, from, n - 1); }
  }

  /** With 32 taken up before slot `from`, nothing from there on is touched. */
  lemma {:induction false} FullFrom(t: Table, way: nat -> Way, from: nat, n: nat)
    requires from <= n <= |t| && Takeables(t, way, from) >= SECURING_LIMIT
    ensures Takeables(t, way, n) >= SECURING_LIMIT
    ensures forall m: nat :: from <= m < n ==> AfterSecuring(t, way, m) == t[m]
  {
    if from < n { FullFrom(t, way, from, n - 1); }
  }

  lemma {:induction false} AllTakeable(t: Table, way: nat -> Way, n: nat)
    requires n <= |t| && (t != [] ==> IsFlagged(t[0]) == 0)
    requires forall j: nat :: way(j).Down? || way(j).Free?
    ensures Takeables(t, way, n) == Flagged(t[..n]) && (n == |t| ==> Takeables(t, way, n) == Flagged(t))
  {
    if n > 0 {
      assert t[..n][..n - 1] == t[..n - 1];
      AllTakeable(t, way, n - 1);
    }
    if n == |t| { assert t[..n] == t; }
  }

  /** The failing call: the first monitor of an empty table, when the index cannot
      grow. The caller is told that it failed, the pair is there, and the next
      look-up does not find it. */
  method FailedMonitorStays(ooid: Long, w: Watcher) returns (h: Hub, ok: bool, no: nat)
    requires ooid != 0
    ensures h.Valid() && !ok && no == 0 && Registered(h.mons, ooid, w)
  {
    h := new Hub();
    ghost var turnedAway;
    ok, turnedAway := h.Register(ooid, w, Circumstances(true, false, false, false, true, false));
    assert turnedAway;
    no := h.Find(ooid);
  }

  /** Slot j holds a monitor in one of the modules. */
  ghost predicate Concerned(t: Table, mods: seq<int>, quarks: seq<Quark>, j: nat)
    requires |quarks| == |t| && j < |t|
  {
    t[j].Some? && quarks[j].mod in mods
  }

  ghost function ConcernedUpTo(t: Table, mods: seq<int>, quarks: seq<Quark>, n: nat): set<nat>
    requires n <= |t| == |quarks|
  {
    set j: nat | j < n && Concerned(t, mods, quarks, j)
  }

  lemma NobodyConcerned(t: Table, mods: seq<int>, quarks: seq<Quark>)
    requires |t| == |quarks| && TableSound(t)
    ensures ConcernedUpTo(t, mods, quarks, if t == [] then 0 else 1) == {}
  {
  }

  lemma ConcernedOneMore(t: Table, mods: seq<int>, quarks: seq<Quark>, n: nat)
    requires n < |t| == |quarks|
    ensures |ConcernedUpTo(t, mods, quarks, n + 1)| == |ConcernedUpTo(t, mods, quarks, n)| + if Concerned(t, mods, quarks, n) then 1 else 0
  {
    var some := ConcernedUpTo(t, mods, quarks, n);
    assert ConcernedUpTo(t, mods, quarks, n + 1) == if Concerned(t, mods, quarks, n) then some + {n} else some;
  }

  function WithFlag(m: Option<Monitor>, flag: bool): Option<Monitor> {
    if m.Some? then Some(m.value.(securing := flag)) else None
  }

  /** The first slot a watcher has. */
  function SlotOf(ws: seq<Option<Watcher>>, w: Watcher): (i: nat)
    requires Some(w) in ws
    ensures i < |ws| && ws[i] == Some(w)
  {
    if ws[0] == Some(w) then 0 else 1 + SlotOf(ws[1..], w)
  }

  lemma SlotIsUnique(m: Monitor, i: nat, w: Watcher)
    requires Sound(m) && i < MAX_WATCH && m.watchers[i] == Some(w)
    ensures Watches(m, w) && SlotOf(m.watchers, w) == i
  {
  }

  /** What is left of a record when slot i is cleared. */
  function After(m: Monitor, i: nat): Option<Monitor>
    requires i < |m.watchers|
  {
    if m.refCount - 1 > 0 then Some(Detached(m, i)) else None
  }

  function Without(m: Option<Monitor>, w: Watcher): Option<Monitor> {
    if m.Some? && Watches(m.value, w) then After(m.value, SlotOf(m.value.watchers, w)) else m
  }

  /** How many records a watcher is registered with. */
  function Pairs(t: Table, w: Watcher): nat {
    if t == [] then 0
    else Pairs(t[..|t| - 1], w) + if t[|t| - 1].Some? && Watches(t[|t| - 1].value, w) then 1 else 0
  }

  lemma {:induction false} PairsAreSlots(t: Table, w: Watcher)
    ensures Pairs(t, w) == |set j: nat | j < |t| && t[j].Some? && Watches(t[j].value, w)|
    decreases |t|
  {
    hide Watches;
    var all := set j: nat | j < |t| && t[j].Some? && Watches(t[j].value, w);
    if t == [] {
      assert all == {};
    } else {
      var n := |t| - 1;
      PairsAreSlots(t[..n], w);
      var before := set j: nat | j < |t[..n]| && t[..n][j].Some? && Watches(t[..n][j].value, w);
      assert all == if n in all then before + {n} else before;
    }
  }

  /** Taking a watcher out of every record takes just its pairs out of the relation. */
  lemma WithoutRelation(t: Table, t': Table, w: Watcher)
    requires TableSound(t) && |t'| == |t|
    requires forall j :: 0 <= j < |t| ==> t'[j] == Without(t[j], w)
    ensures forall o, x :: Registered(t', o, x) <==> Registered(t, o, x) && x != w
  {
    forall j, x | 0 <= j < |t| && t[j].Some?
      ensures (t'[j].Some? && Watches(t'[j].value, x)) <==> Watches(t[j].value, x) && x != w
      ensures t'[j].Some? ==> t'[j].value.ooid == t[j].value.ooid
    {
      WithoutRecord(t[j].value, w, x);
    }
    forall o, x ensures Registered(t', o, x) <==> Registered(t, o, x) && x != w {
      if Registered(t, o, x) && x != w {
        var j :| 0 <= j < |t| && t[j].Some? && t[j].value.ooid == o && Watches(t[j].value, x);
        assert t'[j].Some? && Watches(t'[j].value, x);
      }
      if Registered(t', o, x) {
        var j :| 0 <= j < |t'| && t'[j].Some? && t'[j].value.ooid == o && Watches(t'[j].value, x);
        assert t[j].Some?;
      }
    }
  }

  lemma WithoutRecord(m: Monitor, w: Watcher, x: Watcher)
    requires Sound(m) && m.refCount >= 1
    ensures var m' := Without(Some(m), w);
            && ((m'.Some? && Watches(m'.value, x)) <==> Watches(m, x) && x != w)
            && (m'.Some? ==> m'.value.ooid == m.ooid)
  {
    if Watches(m, w) {
      var i := SlotOf(m.watchers, w);
      DetachedIsSound(m, i, w);
      NobodyLeft(Detached(m, i));
    }
  }
}
