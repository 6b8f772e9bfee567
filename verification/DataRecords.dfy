/** The hub's outstanding single-shot reads and writes: a growing array of
    records, request ids made of a slot number and a generation, a count of
    deferred writes, and one reply for each request. */
module DataRecords {
  import opened Bytes

  const MAX_RECORDS := 65535
  const GENERATIONS := 65535
  const SECURING_LIMIT := 32

  /** The securing flag: not deferred, deferred, or deferred by a watcher that
      has gone since ("pre-zombie"). */
  datatype Deferral = Clear | Deferred | PreZombie

  datatype Rec = Rec(busy: bool, id: Long, isWrite: bool, securing: Deferral, watcher: nat, agent: Option<nat>)

  const IDLE := Rec(false, 0, false, Clear, 0, None)

  // ------------------------------------------------------------- generations

  /** The id counter steps over multiples of 65536. */
  function NextId(n: Long): (m: Long) {
    var m := (n + 1) % 0x1_0000_0000;
    if m % 0x1_0000 == 0 then (m + 1) % 0x1_0000_0000 else m
  }

  /** The generation of the k-th allocation after the counter stood at `start`. */
  function Generation(start: Long, k: nat): (g: nat)
    requires k >= 1
    ensures 1 <= g <= GENERATIONS
  {
    (start % 0x1_0000 + k - 1) % GENERATIONS + 1
  }

  /** The low word of the counter runs through 1..65535 in a circle. */
  lemma NextGeneration(start: Long, n: Long, k: nat)
    requires if k == 0 then n == start else n % 0x1_0000 == Generation(start, k)
    ensures NextId(n) % 0x1_0000 == Generation(start, k + 1)
  {
    var g := n % 0x1_0000;
    LowWord(n);
    if k > 0 {
      var s := start % 0x1_0000 + k - 1;
      CircleStep(s);
    } else {
      CircleStart(g);
    }
  }

  lemma LowWord(n: Long)
    ensures var g := n % 0x1_0000; NextId(n) % 0x1_0000 == if g == 65535 then 1 else g + 1
  {
  }

  lemma CircleStep(s: nat)
    ensures (s + 1) % GENERATIONS == if s % GENERATIONS == GENERATIONS - 1 then 0 else s % GENERATIONS + 1
  {
  }

  lemma CircleStart(g: nat)
    requires g <= 65535
    ensures g % GENERATIONS + 1 == if g == 65535 then 1 else g + 1
  {
  }

  /** Two allocations have the same generation only a whole number of circles apart. */
  lemma SameGeneration(start: Long, i: nat, j: nat)
    requires 1 <= i <= j
    ensures Generation(start, i) == Generation(start, j) <==> (j - i) % GENERATIONS == 0
  {
    var s, t := start % 0x1_0000 + i - 1, start % 0x1_0000 + j - 1;
    assert s == s / GENERATIONS * GENERATIONS + s % GENERATIONS;
    assert t == t / GENERATIONS * GENERATIONS + t % GENERATIONS;
    if s % GENERATIONS == t % GENERATIONS {
      MultipleMod(t / GENERATIONS - s / GENERATIONS);
      assert j - i == (t / GENERATIONS - s / GENERATIONS) * GENERATIONS;
    }
    if (j - i) % GENERATIONS == 0 {
      AddMultiple(s, (j - i) / GENERATIONS);
      assert t == s + (j - i) / GENERATIONS * GENERATIONS;
    }
  }

  lemma MultipleMod(q: int)
    ensures q * GENERATIONS % GENERATIONS == 0
  {
  }

  lemma AddMultiple(s: nat, q: nat)
    ensures (s + q * GENERATIONS) % GENERATIONS == s % GENERATIONS
  {
  }

  // ------------------------------------------------------------------ counting

  function IsDeferred(r: Rec): nat { if r.securing != Clear then 1 else 0 }

  function DeferredIn(c: seq<Rec>): (n: nat) {
    if c == [] then 0 else DeferredIn(c[..|c| - 1]) + IsDeferred(c[|c| - 1])
  }

  lemma {:induction false} DeferredUpdate(c: seq<Rec>, no: nat, r: Rec)
    requires no < |c|
    ensures DeferredIn(c[no := r]) == DeferredIn(c) - IsDeferred(c[no]) + IsDeferred(r)
    ensures DeferredIn(c) >= IsDeferred(c[no])
    decreases |c|
  {
    var n := |c| - 1;
    if no == n {
      assert c[no := r][..n] == c[..n];
    } else {
      assert c[no := r][..n] == c[..n][no := r];
      DeferredUpdate(c[..n], no, r);
    }
  }

  lemma {:induction false} DeferredGrow(c: seq<Rec>, k: nat)
    ensures DeferredIn(c + seq(k, _ => IDLE)) == DeferredIn(c)
    decreases k
  {
    var c' := c + seq(k, _ => IDLE);
    if k == 0 {
      assert c' == c;
    } else {
      assert c'[..|c'| - 1] == c + seq(k - 1, _ => IDLE);
      DeferredGrow(c, k - 1);
    }
  }

  // ------------------------------------------------------------------ the books

  /** A request: the id it was given and the watcher that asked. */
  datatype Issue = Issue(id: Long, watcher: nat)

  /** A reply: the request answered, in the order of arrival, the watcher it is sent
      to, and whether that watcher had gone when it was sent. */
  datatype Reply = Reply(serial: nat, to: nat, gone: bool)

  function ReplyFor(r: Rec, serial: nat): Reply { Reply(serial, r.watcher, r.securing == PreZombie) }

  /** Which request a busy record serves, as its number in the order of arrival. */
  type Serials = seq<nat>

  predicate RecordSound(c: seq<Rec>, no: nat, serials: Serials, issued: seq<Issue>)
    requires no < |c| == |serials|
  {
    var r := c[no];
    && (r.busy ==> 1 <= no && r.id % 0x1_0000 == no && serials[no] < |issued| && issued[serials[no]] == Issue(r.id, r.watcher))
    && (r.securing != Clear ==> r.busy && r.isWrite && r.agent.Some?)
  }

  /** Every id ever issued carries the generation of its turn. */
  predicate IssuedSound(start: Long, next: Long, issued: seq<Issue>) {
    && (forall k :: 0 <= k < |issued| ==> issued[k].id / 0x1_0000 == Generation(start, k + 1))
    && (if issued == [] then next == start else next % 0x1_0000 == Generation(start, |issued|))
  }

  /** What has become of a request: it is live in a slot, its reply was sent, or it
      went without one, because its watcher had gone or there was no memory for the
      reply to a read. */
  datatype Fate = Live(no: nat) | Replied(i: nat) | Abandoned | NoMemory

  /** No request is forgotten: every one has the fate that is written down for it. */
  ghost predicate Accounted(c: seq<Rec>, serials: Serials, issued: seq<Issue>, replies: seq<Reply>, fates: seq<Fate>, gone: set<nat>)
    requires |c| == |serials|
  {
    && |fates| == |issued|
    && (forall s: nat :: s < |fates| ==> FateHolds(c, serials, issued[s], replies, fates[s], s, gone))
    && (forall no: nat :: no < |c| && c[no].busy ==> serials[no] < |fates| && fates[serials[no]] == Live(no))
    && (forall no: nat :: no < |c| && c[no].securing == PreZombie ==> c[no].watcher in gone)
  }

  ghost predicate FateHolds(c: seq<Rec>, serials: Serials, issue: Issue, replies: seq<Reply>, f: Fate, s: nat, gone: set<nat>)
    requires |c| == |serials|
  {
    match f
    case Live(no) => no < |c| && c[no].busy && serials[no] == s
    case Replied(i) => i < |replies| && replies[i].serial == s
    case Abandoned => issue.watcher in gone
    case NoMemory => true
  }

  /** Freeing a record, with a reply or for a cause. */
  lemma FreeKeepsAccount(c: seq<Rec>, serials: Serials, issued: seq<Issue>, replies: seq<Reply>, fates: seq<Fate>, gone: set<nat>,
                         no: nat, reply: bool, f: Fate)
    requires |c| == |serials| && no < |c| && c[no].busy && Accounted(c, serials, issued, replies, fates, gone)
    requires RecordSound(c, no, serials, issued)
    requires if reply then f == Replied(|replies|) else (f == Abandoned && c[no].watcher in gone) || f == NoMemory
    ensures serials[no] < |fates|
    ensures Accounted(c[no := IDLE], serials, issued, if reply then replies + [ReplyFor(c[no], serials[no])] else replies,
                      fates[serials[no] := f], gone)
  {
    var c', replies' := c[no := IDLE], if reply then replies + [ReplyFor(c[no], serials[no])] else replies;
    var fates' := fates[serials[no] := f];
    forall s: nat | s < |fates'| ensures FateHolds(c', serials, issued[s], replies', fates'[s], s, gone) {
      assert FateHolds(c, serials, issued[s], replies, fates[s], s, gone);
    }
  }

  /** Changing a record's flag; the watcher of a pre-zombie has gone. */
  lemma ChangeKeepsAccount(c: seq<Rec>, serials: Serials, issued: seq<Issue>, replies: seq<Reply>, fates: seq<Fate>, gone: set<nat>, no: nat, r: Rec)
    requires |c| == |serials| && no < |c| && c[no].busy && Accounted(c, serials, issued, replies, fates, gone)
    requires r.busy && r.watcher == c[no].watcher && (r.securing == PreZombie ==> r.watcher in gone)
    ensures Accounted(c[no := r], serials, issued, replies, fates, gone)
  {
    forall s: nat | s < |fates| ensures FateHolds(c[no := r], serials, issued[s], replies, fates[s], s, gone) {
      assert FateHolds(c, serials, issued[s], replies, fates[s], s, gone);
    }
  }

  lemma GrowKeepsAccount(c: seq<Rec>, serials: Serials, issued: seq<Issue>, replies: seq<Reply>, fates: seq<Fate>, gone: set<nat>, k: nat)
    requires |c| == |serials| && Accounted(c, serials, issued, replies, fates, gone)
    ensures Accounted(c + seq(k, _ => IDLE), serials + seq(k, _ => 0), issued, replies, fates, gone)
  {
    var c', serials' := c + seq(k, _ => IDLE), serials + seq(k, _ => 0);
    forall s: nat | s < |fates| ensures FateHolds(c', serials', issued[s], replies, fates[s], s, gone) {
      assert FateHolds(c, serials, issued[s], replies, fates[s], s, gone);
    }
  }

  lemma NewKeepsAccount(c: seq<Rec>, serials: Serials, issued: seq<Issue>, replies: seq<Reply>, fates: seq<Fate>, gone: set<nat>,
                        no: nat, r: Rec, issue: Issue)
    requires |c| == |serials| && Accounted(c, serials, issued, replies, fates, gone)
    requires no < |c| && !c[no].busy && r.busy && r.securing == Clear
    ensures Accounted(c[no := r], serials[no := |issued|], issued + [issue], replies, fates + [Live(no)], gone)
  {
    var c', serials' := c[no := r], serials[no := |issued|];
    forall s: nat | s < |issued| + 1
      ensures FateHolds(c', serials', (issued + [issue])[s], replies, (fates + [Live(no)])[s], s, gone)
    {
      if s < |issued| { assert FateHolds(c, serials, issued[s], replies, fates[s], s, gone); }
    }
  }

  lemma MoreGone(c: seq<Rec>, serials: Serials, issued: seq<Issue>, replies: seq<Reply>, fates: seq<Fate>, gone: set<nat>, w: nat)
    requires |c| == |serials| && Accounted(c, serials, issued, replies, fates, gone)
    ensures Accounted(c, serials, issued, replies, fates, gone + {w})
  {
    forall s: nat | s < |fates| ensures FateHolds(c, serials, issued[s], replies, fates[s], s, gone + {w}) {
      assert FateHolds(c, serials, issued[s], replies, fates[s], s, gone);
    }
  }

  /** Each request has at most one reply, to the watcher that asked, and none as long
      as it is live. */
  predicate RepliesSound(c: seq<Rec>, serials: Serials, issued: seq<Issue>, replies: seq<Reply>)
    requires |c| == |serials|
  {
    && (forall i, j :: 0 <= i < j < |replies| ==> replies[i].serial != replies[j].serial)
    && (forall i :: 0 <= i < |replies| ==> replies[i].serial < |issued| && replies[i].to == issued[replies[i].serial].watcher)
    && (forall no, i :: 0 <= no < |c| && c[no].busy && 0 <= i < |replies| ==> replies[i].serial != serials[no])
    && (forall no, m :: 0 <= no < m < |c| && c[no].busy && c[m].busy ==> serials[no] != serials[m])
  }

  ghost predicate Books(c: seq<Rec>, serials: Serials, issued: seq<Issue>, replies: seq<Reply>, start: Long, next: Long, securingQty: int) {
    && |c| == |serials| <= MAX_RECORDS
    && (forall no :: 0 <= no < |c| ==> RecordSound(c, no, serials, issued))
    && IssuedSound(start, next, issued)
    && RepliesSound(c, serials, issued, replies)
    && securingQty == DeferredIn(c)
  }

  /** Live ids are pairwise distinct: each carries its slot number. */
  lemma LiveIdsDistinct(c: seq<Rec>, serials: Serials, issued: seq<Issue>, replies: seq<Reply>, start: Long, next: Long, q: int, i: nat, j: nat)
    requires Books(c, serials, issued, replies, start, next, q)
    requires i < |c| && j < |c| && c[i].busy && c[j].busy && c[i].id == c[j].id
    ensures i == j
  {
    assert RecordSound(c, i, serials, issued) && RecordSound(c, j, serials, issued);
  }

  /** An id is not issued twice within 65535 allocations: if the id of a live
      record was also given to request k, the two are whole circles apart. */
  lemma StaleIdComesBackLate(c: seq<Rec>, serials: Serials, issued: seq<Issue>, replies: seq<Reply>, start: Long, next: Long, q: int, no: nat, k: nat)
    requires Books(c, serials, issued, replies, start, next, q)
    requires no < |c| && c[no].busy && k < |issued| && issued[k].id == c[no].id
    ensures var s := serials[no];
            k == s || (if k < s then s - k >= GENERATIONS && (s - k) % GENERATIONS == 0 else k - s >= GENERATIONS && (k - s) % GENERATIONS == 0)
  {
    assert RecordSound(c, no, serials, issued);
    var s := serials[no];
    if k < s {
      SameGeneration(start, k + 1, s + 1);
    } else if s < k {
      SameGeneration(start, s + 1, k + 1);
    }
  }

  lemma FreeKeepsReplies(c: seq<Rec>, serials: Serials, issued: seq<Issue>, replies: seq<Reply>, no: nat, reply: bool)
    requires |c| == |serials| && no < |c| && c[no].busy && RecordSound(c, no, serials, issued)
    requires RepliesSound(c, serials, issued, replies)
    ensures RepliesSound(c[no := IDLE], serials, issued, if reply then replies + [ReplyFor(c[no], serials[no])] else replies)
  {
    if reply {
      var last := ReplyFor(c[no], serials[no]);
      assert last.serial == serials[no] && last.to == issued[serials[no]].watcher;
    }
  }

  /** Freeing a record, with or without a reply to its request. */
  lemma FreeKeepsBooks(c: seq<Rec>, serials: Serials, issued: seq<Issue>, replies: seq<Reply>, start: Long, next: Long, q: int, no: nat, reply: bool)
    requires Books(c, serials, issued, replies, start, next, q)
    requires no < |c| && c[no].busy
    ensures Books(c[no := IDLE], serials, issued, if reply then replies + [ReplyFor(c[no], serials[no])] else replies, start, next, q - IsDeferred(c[no]))
  {
    hide RepliesSound, IssuedSound;
    assert RecordSound(c, no, serials, issued);
    DeferredUpdate(c, no, IDLE);
    FreeKeepsReplies(c, serials, issued, replies, no, reply);
    var c' := c[no := IDLE];
    forall m | 0 <= m < |c'| ensures RecordSound(c', m, serials, issued) {
      assert RecordSound(c, m, serials, issued);
    }
  }

  /** Changing a live record in anything but its id and its watcher. */
  lemma ChangeKeepsBooks(c: seq<Rec>, serials: Serials, issued: seq<Issue>, replies: seq<Reply>, start: Long, next: Long, q: int, no: nat, r: Rec)
    requires Books(c, serials, issued, replies, start, next, q)
    requires no < |c| && c[no].busy && r.busy && r.id == c[no].id && r.watcher == c[no].watcher
    requires r.securing != Clear ==> r.isWrite && r.agent.Some?
    ensures Books(c[no := r], serials, issued, replies, start, next, q - IsDeferred(c[no]) + IsDeferred(r))
  {
    DeferredUpdate(c, no, r);
    var c' := c[no := r];
    forall m | 0 <= m < |c'| ensures RecordSound(c', m, serials, issued) {
      assert RecordSound(c, m, serials, issued);
    }
  }

  lemma GrowKeepsBooks(c: seq<Rec>, serials: Serials, issued: seq<Issue>, replies: seq<Reply>, start: Long, next: Long, q: int, k: nat)
    requires Books(c, serials, issued, replies, start, next, q) && |c| + k <= MAX_RECORDS
    ensures Books(c + seq(k, _ => IDLE), serials + seq(k, _ => 0), issued, replies, start, next, q)
  {
    DeferredGrow(c, k);
    var c', serials' := c + seq(k, _ => IDLE), serials + seq(k, _ => 0);
    forall m | 0 <= m < |c'| ensures RecordSound(c', m, serials', issued) {
      if m < |c| { assert RecordSound(c, m, serials, issued); }
    }
  }

  /** A new request in an idle slot. */
  lemma NewKeepsBooks(c: seq<Rec>, serials: Serials, issued: seq<Issue>, replies: seq<Reply>, start: Long, next: Long, q: int, no: nat, r: Rec)
    requires Books(c, serials, issued, replies, start, next, q)
    requires 1 <= no < |c| && !c[no].busy
    requires r.busy && r.securing == Clear
    requires r.id == NextId(next) % 0x1_0000 * 0x1_0000 + no
    ensures Books(c[no := r], serials[no := |issued|], issued + [Issue(r.id, r.watcher)], replies, start, NextId(next), q)
  {
    assert RecordSound(c, no, serials, issued);
    DeferredUpdate(c, no, r);
    NextGeneration(start, next, |issued|);
    var c', serials', issued' := c[no := r], serials[no := |issued|], issued + [Issue(r.id, r.watcher)];
    assert IssuedSound(start, NextId(next), issued');
    forall m | 0 <= m < |c'| ensures RecordSound(c', m, serials', issued') {
      assert RecordSound(c, m, serials, issued);
    }
    forall m | 0 <= m < |c'| && m != no && c'[m].busy ensures serials'[m] < |issued| {
      assert RecordSound(c, m, serials, issued);
    }
  }

  /** What a step finds out about a record's agent: down, too many requests
      pending, send queue nearly full, or a free way (and whether the send works). */
  datatype Way = Down | Pending | Overflow | Free(sent: bool)

  class Requests {
    var chain: seq<Rec>
    var nextId: Long
    var securingQty: int

    ghost const start: Long         // where the id counter began
    ghost var serials: Serials      // the request each busy record serves
    ghost var issued: seq<Issue>    // every request, in order of arrival
    ghost var replies: seq<Reply>   // the replies, in the order they were sent
    ghost var fates: seq<Fate>      // what has become of each request
    ghost var gone: set<nat>        // the watchers that have gone
    ghost var sends: seq<nat>       // the requests handed to their agents, by serial

    ghost predicate Valid()
      reads this
    {
      && Books(chain, serials, issued, replies, start, nextId, securingQty)
      && |chain| == |serials| && Accounted(chain, serials, issued, replies, fates, gone)
    }

    /** A request goes out to its agent; whether that worked is another matter. */
    method HandOver(no: nat)
      requires no < |serials|
      modifies this`sends
      ensures sends == old(sends) + [serials[no]]
    {
      sends := sends + [serials[no]];
    }

    constructor (clock: Long)
      ensures Valid() && chain == [] && issued == [] && replies == [] && start == clock
      ensures fates == [] && gone == {} && sends == []
    {
      start := clock;
      chain, nextId, securingQty, serials, issued, replies := [], clock, 0, [], [], [];
      fates, gone, sends := [], {}, [];
    }

    /** An idle slot, the array growing for it; slot 0 when there is none. */
    method FreeSlot(room: bool) returns (no: nat)
      requires Valid()
      modifies this`chain, this`serials
      ensures Valid()
      ensures no == 0 <==> AllBusy(old(chain)) && (!room || |old(chain)| == MAX_RECORDS)
      ensures no == 0 ==> chain == old(chain)
      ensures no != 0 ==> no < |chain| && !chain[no].busy && OthersSame(old(chain), chain, no)
      ensures no != 0 ==> (no < |old(chain)| ==> !old(chain)[no].busy)
    {
      hide Books, Accounted;
      BooksShape(chain, serials, issued, replies, start, nextId, securingQty);
      no := 1;
      while no < |chain| && chain[no].busy
        invariant 1 <= no && (no == 1 || no <= |chain|)
        invariant forall m :: 1 <= m < no ==> chain[m].busy
      {
        no := no + 1;
      }
      if no >= |chain| {
        var size := |chain| * 2 + 4;
        if size > MAX_RECORDS { size := MAX_RECORDS; }
        if size == |chain| { return 0; }
        if !room { return 0; }
        GrowKeepsBooks(chain, serials, issued, replies, start, nextId, securingQty, size - |chain|);
        GrowKeepsAccount(chain, serials, issued, replies, fates, gone, size - |chain|);
        serials := serials + seq(size - |chain|, _ => 0);
        chain := chain + seq(size - |chain|, _ => IDLE);
      }
    }

    /** A free record with a fresh id, slot 0 when there is none left. */
    method Allocate(room: bool, watcher: nat, isWrite: bool, agent: Option<nat>) returns (no: nat)
      requires Valid()
      modifies this
      ensures Valid() && replies == old(replies) && securingQty == old(securingQty) && gone == old(gone) && sends == old(sends)
      ensures no == 0 ==> issued == old(issued) && nextId == old(nextId) && chain == old(chain) && fates == old(fates)
      ensures no != 0 ==> fates == old(fates) + [Live(no)] && |old(fates)| == |old(issued)|
      ensures no == 0 <==> AllBusy(old(chain)) && (!room || |old(chain)| == MAX_RECORDS)
      ensures no != 0 ==> no < |chain| && issued == old(issued) + [Issue(chain[no].id, watcher)] && serials[no] == |old(issued)|
      ensures no != 0 ==> chain[no] == Rec(true, chain[no].id, isWrite, Clear, watcher, agent)
      ensures no != 0 ==> (no < |old(chain)| ==> !old(chain)[no].busy) && OthersSame(old(chain), chain, no)
    {
      hide Books, Accounted;
      no := FreeSlot(room);
      if no == 0 { return; }
      var next := NextId(nextId);
      BooksShape(chain, serials, issued, replies, start, nextId, securingQty);
      var r := Rec(true, next % 0x1_0000 * 0x1_0000 + no, isWrite, Clear, watcher, agent);
      NewKeepsBooks(chain, serials, issued, replies, start, nextId, securingQty, no, r);
      FatesShape(chain, serials, issued, replies, fates, gone);
      NewKeepsAccount(chain, serials, issued, replies, fates, gone, no, r, Issue(r.id, r.watcher));
      nextId := next;
      fates := fates + [Live(no)];
      chain := chain[no := r];
      serials := serials[no := |issued|];
      issued := issued + [Issue(r.id, watcher)];
    }

    /** The live record of an id, 0 when there is none. */
    method Find(id: Long) returns (no: nat)
      requires Valid()
      ensures no != 0 ==> no < |chain| && chain[no].busy && chain[no].id == id
      ensures no == 0 <==> forall m :: 0 <= m < |chain| && chain[m].busy ==> chain[m].id != id
    {
      hide Books, Accounted;
      BooksShape(chain, serials, issued, replies, start, nextId, securingQty);
      no := id % 0x1_0000;
      if no <= 0 || no >= |chain| { return 0; }
      if !chain[no].busy || chain[no].id != id { return 0; }
    }

    /** Give a record back without a reply, for the cause that the caller has. */
    method Deallocate(no: nat, ghost f: Fate)
      requires Valid() && no < |chain| && chain[no].busy
      requires f == NoMemory || (f == Abandoned && chain[no].watcher in gone)
      modifies this`chain, this`securingQty, this`fates
      ensures Valid() && chain == old(chain)[no := IDLE]
      ensures securingQty == old(securingQty) - IsDeferred(old(chain)[no])
      ensures serials[no] < |old(fates)| && fates == old(fates)[serials[no] := f]
    {
      hide Books, Accounted;
      BooksCount(chain, serials, issued, replies, start, nextId, securingQty, no);
      FreeKeepsBooks(chain, serials, issued, replies, start, nextId, securingQty, no, false);
      BooksRecord(chain, serials, issued, replies, start, nextId, securingQty, no);
      FreeKeepsAccount(chain, serials, issued, replies, fates, gone, no, false, f);
      if chain[no].securing != Clear {
        securingQty := securingQty - 1;
        assert securingQty >= 0;  // so the code's clamp at zero never acts
      }
      fates := fates[serials[no] := f];
      chain := chain[no := IDLE];
    }

    /** Answer a request and give its record back: the watcher that asked is told,
        though it may have gone. A request of the other kind is left alone; a read
        whose answer cannot be allocated gets none. */
    method Complete(no: nat, isWrite: bool, room: bool) returns (ok: bool)
      requires Valid() && no < |chain| && chain[no].busy
      modifies this`chain, this`securingQty, this`replies, this`fates
      ensures Valid()
      ensures chain == if old(chain)[no].isWrite == isWrite then old(chain)[no := IDLE] else old(chain)
      ensures replies == if old(chain)[no].isWrite == isWrite && (isWrite || room) then old(replies) + [ReplyFor(old(chain)[no], serials[no])] else old(replies)
      ensures ok <==> old(chain)[no].isWrite == isWrite && (isWrite || room)
      ensures serials[no] < |old(fates)|
      ensures fates == if old(chain)[no].isWrite != isWrite then old(fates)
                       else old(fates)[serials[no] := if ok then Replied(|old(replies)|) else NoMemory]
    {
      hide Books, Accounted;
      BooksShape(chain, serials, issued, replies, start, nextId, securingQty);
      AccountShape(chain, serials, issued, replies, fates, gone, no);
      if chain[no].isWrite != isWrite { return false; }
      ok := isWrite || room;
      BooksCount(chain, serials, issued, replies, start, nextId, securingQty, no);
      FreeKeepsBooks(chain, serials, issued, replies, start, nextId, securingQty, no, ok);
      BooksRecord(chain, serials, issued, replies, start, nextId, securingQty, no);
      ghost var fate := if ok then Replied(|replies|) else NoMemory;
      FreeKeepsAccount(chain, serials, issued, replies, fates, gone, no, ok, fate);
      fates := fates[serials[no] := fate];
      if ok { replies := replies + [ReplyFor(chain[no], serials[no])]; }
      if chain[no].securing != Clear {
        securingQty := securingQty - 1;
        assert securingQty >= 0;
      }
      chain := chain[no := IDLE];
    }

    /** An agent's answer. It is honoured exactly when its id is that of a live
        request of its kind; any other answer changes nothing. */
    method HandleAnswer(id: Long, isWrite: bool, room: bool) returns (ok: bool)
      requires Valid()
      modifies this`chain, this`securingQty, this`replies, this`fates
      ensures Valid()
      ensures (forall no :: 0 <= no < |old(chain)| ==> !Serves(old(chain)[no], id, isWrite))
              ==> !ok && chain == old(chain) && replies == old(replies) && fates == old(fates)
      ensures forall no :: 0 <= no < |old(chain)| && Serves(old(chain)[no], id, isWrite) ==>
                && chain == old(chain)[no := IDLE] && ok == (isWrite || room)
                && replies == old(replies) + if ok then [ReplyFor(old(chain)[no], serials[no])] else []
      ensures |fates| == |old(fates)|
      ensures forall s: nat :: s < |fates| && fates[s].NoMemory? && !old(fates)[s].NoMemory? ==> !isWrite && !room && issued[s].id == id
    {
      hide Books, Accounted;
      BooksShape(chain, serials, issued, replies, start, nextId, securingQty);
      var no := Find(id);
      if no == 0 || chain[no].isWrite != isWrite { return false; }
      BooksRecord(chain, serials, issued, replies, start, nextId, securingQty, no);
      ok := Complete(no, isWrite, room);
    }

    /** Put a live record's securing flag. */
    method SetDeferral(no: nat, d: Deferral)
      requires Valid() && no < |chain| && chain[no].busy
      requires d != Clear ==> chain[no].isWrite && chain[no].agent.Some?
      requires d == PreZombie ==> chain[no].watcher in gone
      modifies this`chain, this`securingQty
      ensures Valid() && chain == old(chain)[no := old(chain)[no].(securing := d)]
      ensures securingQty == old(securingQty) - IsDeferred(old(chain)[no]) + IsDeferred(chain[no])
    {
      hide Books, Accounted;
      var r := chain[no].(securing := d);
      ChangeKeepsBooks(chain, serials, issued, replies, start, nextId, securingQty, no, r);
      ChangeKeepsAccount(chain, serials, issued, replies, fates, gone, no, r);
      securingQty := securingQty - IsDeferred(chain[no]) + IsDeferred(r);
      chain := chain[no := r];
    }

    /** Send a write, or defer it when the agent is busy. */
    method SendSecureWrite(no: nat, way: Way) returns (ok: bool)
      requires Valid() && no < |chain| && chain[no].busy
      modifies this`chain, this`securingQty, this`sends
      ensures Valid()
      ensures var r := old(chain)[no];
              var canGo := r.isWrite && r.agent.Some? && !way.Down?;
              && chain == (if canGo && r.securing == Clear && !way.Free? then old(chain)[no := r.(securing := Deferred)] else old(chain))
              && ok == (canGo && (way.Free? && r.securing == Clear ==> way.sent))
              && sends == old(sends) + if canGo && r.securing == Clear && way.Free? then [serials[no]] else []
    {
      if !chain[no].isWrite { return false; }
      if chain[no].agent.None? || way.Down? { return false; }
      if chain[no].securing != Clear { return true; }
      if way.Pending? || way.Overflow? {
        SetDeferral(no, Deferred);
        return true;
      }
      HandOver(no);
      ok := way.sent;
    }

    /** A watcher asks for a write: it is answered at once with an error, sent,
        deferred, or left hanging until its agent comes up. */
    method SubmitWrite(watcher: nat, room: bool, parses: bool, agent: Option<nat>, ready: bool, way: Way) returns (ok: bool, ghost no: nat)
      requires Valid()
      modifies this
      ensures Valid()
      ensures no == 0 <==> AllBusy(old(chain)) && (!room || |old(chain)| == MAX_RECORDS)
      ensures no == 0 ==> !ok && chain == old(chain) && issued == old(issued) && replies == old(replies)
      ensures no != 0 ==> no < |chain| && |issued| == |old(issued)| + 1 && old(issued) <= issued && OthersSame(old(chain), chain, no)
      ensures no != 0 ==> issued[|old(issued)|].watcher == watcher
      ensures no != 0 ==> (ok <==> parses && agent.Some? && (!ready || (!way.Down? && (way.Free? ==> way.sent))))
      ensures no != 0 && !ok ==> chain[no] == IDLE && replies == old(replies) + [Reply(|old(issued)|, watcher, false)]
      ensures ok ==> serials[no] == |old(issued)| && replies == old(replies)
      ensures ok ==> chain[no] == Rec(true, issued[|old(issued)|].id, true,
                                      if ready && !way.Free? then Deferred else Clear, watcher, agent)
      ensures gone == old(gone) && fates == if no == 0 then old(fates) else old(fates) + [if ok then Live(no) else Replied(|old(replies)|)]
      ensures sends == old(sends) + if no != 0 && parses && agent.Some? && ready && way.Free? then [|old(issued)|] else []
    {
      hide Books, Accounted;
      var slot := Allocate(room, watcher, true, agent);
      no := slot;
      if slot == 0 { return false, no; }
      ok := parses && agent.Some?;
      if ok && ready { ok := SendSecureWrite(slot, way); }
      if !ok {
        LastFate(old(fates), Live(slot), Replied(|replies|));
        var _ := Complete(slot, true, true);
        return false, no;
      }
    }

    /** A watcher asks for a read: it is answered at once, from a monitor or with
        an error, sent, or left hanging until its agent comes up. */
    method SubmitRead(watcher: nat, room: bool, roomForReply: bool, parses: bool, known: bool,
                      agent: Option<nat>, ready: bool, sent: bool) returns (ok: bool, ghost no: nat)
      requires Valid()
      modifies this
      ensures Valid()
      ensures no == 0 <==> AllBusy(old(chain)) && (!room || |old(chain)| == MAX_RECORDS)
      ensures no == 0 ==> !ok && chain == old(chain) && issued == old(issued) && replies == old(replies)
      ensures no != 0 ==> no < |chain| && |issued| == |old(issued)| + 1 && old(issued) <= issued && OthersSame(old(chain), chain, no)
      ensures no != 0 ==> issued[|old(issued)|].watcher == watcher
      ensures no != 0 ==> (ok <==> parses && (known || (agent.Some? && (!ready || sent))))
      ensures no != 0 ==> replies == old(replies) + if (if parses && known then roomForReply else !ok)
                                                    then [Reply(|old(issued)|, watcher, false)] else []
      ensures no != 0 && (!ok || known) ==> chain[no] == IDLE
      ensures ok && !known ==> serials[no] == |old(issued)|
                               && chain[no] == Rec(true, issued[|old(issued)|].id, false, Clear, watcher, agent)
      ensures gone == old(gone)
      ensures fates == if no == 0 then old(fates)
                       else old(fates) + [if if parses && known then roomForReply else !ok then Replied(|old(replies)|)
                                          else if parses && known then NoMemory else Live(no)]
      ensures sends == old(sends) + if no != 0 && parses && !known && agent.Some? && ready then [|old(issued)|] else []
    {
      hide Books, Accounted;
      var slot := Allocate(room, watcher, false, agent);
      no := slot;
      if slot == 0 { return false, no; }
      if parses && known {
        LastFate(old(fates), Live(slot), if roomForReply then Replied(|replies|) else NoMemory);
        var _ := Complete(slot, false, roomForReply);
        return true, no;
      }
      ok := parses && agent.Some?;
      if ok && ready {
        HandOver(slot);
        ok := sent;
      }
      if !ok {
        LastFate(old(fates), Live(slot), Replied(|replies|));
        var _ := Complete(slot, false, true);
        return false, no;
      }
    }

    /** One pass over the deferred writes, in slot order: those whose way is free
        are sent, at most 32 of them, and up to there pre-zombies of agents that
        are down are dropped, as many as there are. */
    method SecureMoreWrites(way: nat -> Way) returns (qty: nat)
      requires Valid()
      modifies this`chain, this`securingQty, this`fates, this`sends
      ensures Valid() && |chain| == |old(chain)|
      ensures forall no :: 0 <= no < |chain| ==> chain[no] == AfterPass(old(chain), way, no)
      // a request whose watcher is there stays with its id and its agent; what is sent
      // is no longer deferred, and the others stay as they are
      ensures forall no :: 0 <= no < |chain| && old(chain)[no].busy && old(chain)[no].securing != PreZombie ==>
                && chain[no].busy && chain[no].id == old(chain)[no].id && chain[no].isWrite == old(chain)[no].isWrite
                && chain[no].watcher == old(chain)[no].watcher && chain[no].agent == old(chain)[no].agent
                && chain[no].securing == if old(chain)[no].isWrite && Reached(old(chain), way, no) && way(no).Free? then Clear
                                         else old(chain)[no].securing
      ensures forall no :: 0 <= no < |chain| && old(chain)[no].securing == PreZombie ==>
                chain[no] == if Reached(old(chain), way, no) && (way(no).Free? || way(no).Down?) then IDLE else old(chain)[no]
      ensures sends == old(sends) + Sendees(old(chain), serials, way, |chain|) && qty == |Sendees(old(chain), serials, way, |chain|)|
      ensures NoneStarved(old(fates), fates)
      ensures qty == AtMost(SECURING_LIMIT, Sendables(old(chain), way, |chain|))
      ensures old(securingQty) - securingQty == qty + Dropped(old(chain), way, |chain|)
      ensures (forall no: nat :: way(no).Free?) ==> qty == AtMost(SECURING_LIMIT, old(securingQty))
    {
      hide Books, Accounted, AfterPass, Sendables, Dropped, DeferredIn, Sendees, Reached;
      ghost var c0 := chain;
      BooksShape(chain, serials, issued, replies, start, nextId, securingQty);
      qty := PassOver(way);
      PassMeans(c0, chain, way);
      SendeesCount(c0, serials, way, |c0|);
    }

    /** The loop of the pass. */
    method PassOver(way: nat -> Way) returns (qty: nat)
      requires Valid()
      modifies this`chain, this`securingQty, this`fates, this`sends
      ensures Valid() && |chain| == |old(chain)| == |serials|
      ensures forall no: nat :: no < |chain| ==> chain[no] == AfterPass(old(chain), way, no)
      ensures qty == AtMost(SECURING_LIMIT, Sendables(old(chain), way, |chain|))
      ensures old(securingQty) - securingQty == qty + Dropped(old(chain), way, |chain|)
      ensures (forall no: nat :: way(no).Free?) ==> qty == AtMost(SECURING_LIMIT, old(securingQty))
      ensures sends == old(sends) + Sendees(old(chain), serials, way, |chain|)
      ensures NoneStarved(old(fates), fates)
    {
      hide Books, Accounted, AfterPass, Sendables, Dropped, DeferredIn, Sendees, Reached;
      BooksShape(chain, serials, issued, replies, start, nextId, securingQty);
      BooksDeferred(chain, serials, issued, replies, start, nextId, securingQty);
      qty := 0;
      ghost var c0 := chain;
      if forall no: nat :: way(no).Free? { AllSendable(c0, way, |c0|); }
      if securingQty <= 0 || chain == [] {
        PassedNothing(c0, way, 0);
        NoneInNothing();
        PassEnds(c0, chain, serials, way, 0);
        return;
      }
      var no := 1;
      PassedNothing(c0, way, 1);
      NoSendees(c0, serials, way, 0, 1);
      while no < |chain|
        invariant 1 <= no <= |chain| == |c0| == |serials| && Valid()
        invariant qty == Sendables(c0, way, no) <= SECURING_LIMIT
        invariant old(securingQty) - securingQty == qty + Dropped(c0, way, no)
        invariant Passed(c0, chain, way, no)
        invariant sends == old(sends) + Sendees(c0, serials, way, no)
        invariant NoneStarved(old(fates), fates)
        decreases |chain| - no
      {
        if qty >= SECURING_LIMIT || securingQty <= 0 { break; }
        PassStep(c0, chain, way, no);
        SendeesStep(c0, serials, way, no);
        var sent := SecureSlot(no, way(no));
        if sent { qty := qty + 1; }
        no := no + 1;
      }
      BooksDeferred(chain, serials, issued, replies, start, nextId, securingQty);
      PassEnds(c0, chain, serials, way, no);
    }

    /** One turn of the pass: the write at no is sent, dropped or left. */
    method SecureSlot(no: nat, way: Way) returns (sent: bool)
      requires Valid() && no < |chain|
      modifies this`chain, this`securingQty, this`fates, this`sends
      ensures Valid() && chain == old(chain)[no := Handled(old(chain)[no], way)]
      ensures sent == Sendable(old(chain)[no], way)
      ensures sends == old(sends) + if sent then [serials[no]] else []
      ensures old(securingQty) - securingQty == if Sendable(old(chain)[no], way) || Droppable(old(chain)[no], way) then 1 else 0
      ensures NoneStarved(old(fates), fates)
    {
      hide Books, Accounted;
      sent := false;
      assert chain == chain[no := chain[no]];
      AccountShape(chain, serials, issued, replies, fates, gone, no);
      if chain[no].busy && chain[no].isWrite && chain[no].securing != Clear {
        if way.Down? {
          if chain[no].securing == PreZombie { Deallocate(no, Abandoned); }
        } else if way.Free? {
          HandOver(no);
          if chain[no].securing == PreZombie {
            Deallocate(no, Abandoned);
          } else {
            SetDeferral(no, Clear);
          }
          sent := true;
        }
      }
    }

    /** A request is answered with an error; the reply to a read then needs no memory. */
    method Fail(no: nat)
      requires Valid() && no < |chain| && chain[no].busy
      modifies this`chain, this`securingQty, this`replies, this`fates
      ensures Valid() && chain == old(chain)[no := IDLE] && NoneStarved(old(fates), fates)
      ensures replies == old(replies) + [ReplyFor(old(chain)[no], serials[no])]
    {
      hide Books, Accounted;
      if chain[no].isWrite {
        var _ := Complete(no, true, true);
      } else {
        var _ := Complete(no, false, true);
      }
    }

    /** Addresses have become known: each request concerned that was left hanging is
        sent now, deferred, or answered with an error if that fails. */
    method UpdateAddresses(known: nat -> bool, way: nat -> Way, sent: nat -> bool) returns (qty: nat)
      requires Valid()
      modifies this`chain, this`securingQty, this`replies, this`fates, this`sends
      ensures Valid() && |chain| == |old(chain)| && NoneStarved(old(fates), fates)
      ensures forall no: nat :: no < |chain| ==>
                var r := old(chain)[no];
                chain[no] == if !r.busy || !known(no) then r
                             else if Fails(r, way(no), sent(no)) then IDLE
                             else if r.isWrite && r.securing == Clear && (way(no).Pending? || way(no).Overflow?) then r.(securing := Deferred)
                             else r
      ensures replies == old(replies) + FailReplies(old(chain), serials, known, way, sent, |chain|)
      ensures qty == |set no: nat | no < |old(chain)| && old(chain)[no].busy && known(no)|
    {
      hide Books, Accounted, Fails, FailReplies;
      var no := 0;
      qty := 0;
      BooksShape(chain, serials, issued, replies, start, nextId, securingQty);
      ghost var c0 := chain;
      NoFailReplies(c0, serials, known, way, sent);
      while no < |chain|
        invariant 0 <= no <= |chain| == |c0| == |serials| && Valid() && NoneStarved(old(fates), fates)
        invariant forall m: nat :: m < no ==>
          chain[m] == if !c0[m].busy || !known(m) then c0[m]
                      else if Fails(c0[m], way(m), sent(m)) then IDLE
                      else if c0[m].isWrite && c0[m].securing == Clear && (way(m).Pending? || way(m).Overflow?) then c0[m].(securing := Deferred)
                      else c0[m]
        invariant forall m: nat :: no <= m < |chain| ==> chain[m] == c0[m]
        invariant replies == old(replies) + FailReplies(c0, serials, known, way, sent, no)
        invariant qty == |ConcernedSlots(c0, known, no)|
      {
        OneMoreConcerned(c0, known, no);
        OneMoreFailReply(c0, serials, known, way, sent, no);
        if chain[no].busy && known(no) {
          AddressKnown(no, way(no), sent(no));
          qty := qty + 1;
        }
        no := no + 1;
      }
    }

    method AddressKnown(no: nat, way: Way, sent: bool)
      requires Valid() && no < |chain| && chain[no].busy
      modifies this`chain, this`securingQty, this`replies, this`fates, this`sends
      ensures Valid() && NoneStarved(old(fates), fates)
      ensures var r := old(chain)[no];
              chain == old(chain)[no := if Fails(r, way, sent) then IDLE
                                        else if r.isWrite && r.securing == Clear && (way.Pending? || way.Overflow?) then r.(securing := Deferred)
                                        else r]
      ensures replies == old(replies) + if Fails(old(chain)[no], way, sent) then [ReplyFor(old(chain)[no], serials[no])] else []
    {
      hide Books, Accounted;
      assert chain == chain[no := chain[no]];
      var ok := sent;
      if chain[no].isWrite {
        ok := SendSecureWrite(no, way);
      } else {
        HandOver(no);
      }
      if !ok { Fail(no); }
    }

    /** An agent goes down: every request waiting for it is answered with an error,
        once, in slot order, also that of a watcher that has gone. */
    method CancelAgent(agent: nat) returns (qty: nat)
      requires Valid()
      modifies this`chain, this`securingQty, this`replies, this`fates
      ensures Valid() && |chain| == |old(chain)|
      ensures forall no :: 0 <= no < |chain| ==> chain[no] == if Waits(old(chain)[no], agent) then IDLE else old(chain)[no]
      ensures replies == old(replies) + Waiting(old(chain), serials, agent) && qty == |Waiting(old(chain), serials, agent)|
      ensures NoneStarved(old(fates), fates)
    {
      hide Books, Accounted;
      var no := 0;
      qty := 0;
      BooksShape(chain, serials, issued, replies, start, nextId, securingQty);
      ghost var chain0 := chain;
      assert chain0[..0] == [];
      while no < |chain|
        invariant 0 <= no <= |chain| == |chain0| == |serials|
        invariant Valid() && NoneStarved(old(fates), fates)
        invariant forall m :: 0 <= m < no ==> chain[m] == if Waits(chain0[m], agent) then IDLE else chain0[m]
        invariant forall m :: no <= m < |chain| ==> chain[m] == chain0[m]
        invariant replies == old(replies) + Waiting(chain0[..no], serials[..no], agent)
        invariant qty == |Waiting(chain0[..no], serials[..no], agent)|
      {
        if Waits(chain[no], agent) {
          Fail(no);
          qty := qty + 1;
        }
        assert chain0[..no + 1][..no] == chain0[..no] && serials[..no + 1][..no] == serials[..no];
        no := no + 1;
      }
      assert chain0[..no] == chain0 && serials[..no] == serials;
    }

    /** A watcher goes away: its deferred writes become pre-zombies while their
        agent is up, everything else of it is dropped without a reply. */
    method CancelWatch(watcher: nat, up: nat -> bool) returns (qty: nat)
      requires Valid()
      modifies this`chain, this`securingQty, this`fates, this`gone
      ensures Valid() && |chain| == |old(chain)| && gone == old(gone) + {watcher} && NoneStarved(old(fates), fates)
      ensures forall no :: 0 <= no < |chain| ==>
                var r := old(chain)[no];
                if !r.busy || r.watcher != watcher then chain[no] == r
                else if r.securing != Clear && r.agent.Some? && up(r.agent.value) then chain[no] == r.(securing := PreZombie)
                else chain[no] == IDLE
      ensures qty == |DroppedSlots(old(chain), watcher, up, |chain|)|
    {
      hide Books, Accounted, DroppedSlots;
      var no := 0;
      qty := 0;
      MoreGone(chain, serials, issued, replies, fates, gone, watcher);
      gone := gone + {watcher};
      ghost var c0 := chain;
      NobodyDropped(c0, watcher, up);
      while no < |chain|
        invariant 0 <= no <= |chain| == |c0| && gone == old(gone) + {watcher}
        invariant Valid() && NoneStarved(old(fates), fates)
        invariant forall m :: 0 <= m < no ==> chain[m] == Orphaned(c0[m], watcher, up)
        invariant forall m :: no <= m < |chain| ==> chain[m] == c0[m]
        invariant qty == |DroppedSlots(c0, watcher, up, no)|
      {
        OneMoreDropped(c0, watcher, up, no);
        BooksShape(chain, serials, issued, replies, start, nextId, securingQty);
        if chain[no].busy && chain[no].watcher == watcher {
          if chain[no].securing != Clear && up(chain[no].agent.value) {
            SetDeferral(no, PreZombie);
          } else {
            Deallocate(no, Abandoned);
            qty := qty + 1;
          }
        }
        no := no + 1;
      }
    }
  }

  /** No record behind slot 0 is free. */
  predicate AllBusy(c: seq<Rec>) { forall no :: 1 <= no < |c| ==> c[no].busy }

  /** Apart from slot no the records are as before, and any new ones idle. */
  predicate OthersSame(c: seq<Rec>, c': seq<Rec>, no: nat) {
    && |c| <= |c'|
    && (forall m :: 0 <= m < |c| && m != no ==> c'[m] == c[m])
    && (forall m :: |c| <= m < |c'| && m != no ==> c'[m] == IDLE)
  }

  predicate Serves(r: Rec, id: Long, isWrite: bool) { r.busy && r.id == id && r.isWrite == isWrite }

  predicate Waits(r: Rec, agent: nat) { r.busy && r.agent == Some(agent) }

  /** The replies to the requests waiting for an agent, in slot order. */
  function Waiting(c: seq<Rec>, serials: Serials, agent: nat): seq<Reply>
    requires |c| == |serials|
  {
    if c == [] then []
    else Waiting(c[..|c| - 1], serials[..|c| - 1], agent) + if Waits(c[|c| - 1], agent) then [ReplyFor(c[|c| - 1], serials[|c| - 1])] else []
  }

  function Orphaned(r: Rec, watcher: nat, up: nat -> bool): Rec {
    if !r.busy || r.watcher != watcher then r
    else if r.securing != Clear && r.agent.Some? && up(r.agent.value) then r.(securing := PreZombie)
    else IDLE
  }

  /** A request that can go and does not: its agent is down, or sending fails. */
  predicate Fails(r: Rec, way: Way, sent: bool) {
    if r.isWrite then r.agent.None? || way.Down? || (r.securing == Clear && way.Free? && !way.sent) else !sent
  }

  function FailReplies(c: seq<Rec>, serials: Serials, known: nat -> bool, way: nat -> Way, sent: nat -> bool, n: nat): seq<Reply>
    requires n <= |c| == |serials|
  {
    if n == 0 then []
    else FailReplies(c, serials, known, way, sent, n - 1)
         + if c[n - 1].busy && known(n - 1) && Fails(c[n - 1], way(n - 1), sent(n - 1)) then [ReplyFor(c[n - 1], serials[n - 1])] else []
  }

  lemma NoFailReplies(c: seq<Rec>, serials: Serials, known: nat -> bool, way: nat -> Way, sent: nat -> bool)
    requires |c| == |serials|
    ensures FailReplies(c, serials, known, way, sent, 0) == []
  {
  }

  lemma OneMoreFailReply(c: seq<Rec>, serials: Serials, known: nat -> bool, way: nat -> Way, sent: nat -> bool, n: nat)
    requires n < |c| == |serials|
    ensures FailReplies(c, serials, known, way, sent, n + 1)
            == FailReplies(c, serials, known, way, sent, n)
               + if c[n].busy && known(n) && Fails(c[n], way(n), sent(n)) then [ReplyFor(c[n], serials[n])] else []
  {
  }

  ghost function ConcernedSlots(c: seq<Rec>, known: nat -> bool, n: nat): set<nat>
    requires n <= |c|
  {
    set no: nat | no < n && c[no].busy && known(no)
  }

  lemma OneMoreConcerned(c: seq<Rec>, known: nat -> bool, n: nat)
    requires n < |c|
    ensures |ConcernedSlots(c, known, n + 1)| == |ConcernedSlots(c, known, n)| + if c[n].busy && known(n) then 1 else 0
    ensures ConcernedSlots(c, known, 0) == {}
  {
    var before, after := ConcernedSlots(c, known, n), ConcernedSlots(c, known, n + 1);
    assert after == if c[n].busy && known(n) then before + {n} else before;
  }

  /** The slots of a watcher's requests that are dropped when it goes. */
  ghost function DroppedSlots(c: seq<Rec>, watcher: nat, up: nat -> bool, n: nat): set<nat>
    requires n <= |c|
  {
    set no: nat | no < n && c[no].busy && c[no].watcher == watcher
                  && !(c[no].securing != Clear && c[no].agent.Some? && up(c[no].agent.value))
  }

  lemma NobodyDropped(c: seq<Rec>, watcher: nat, up: nat -> bool)
    ensures DroppedSlots(c, watcher, up, 0) == {}
  {
  }

  lemma OneMoreDropped(c: seq<Rec>, watcher: nat, up: nat -> bool, n: nat)
    requires n < |c|
    ensures var goes := c[n].busy && c[n].watcher == watcher && !(c[n].securing != Clear && c[n].agent.Some? && up(c[n].agent.value));
            |DroppedSlots(c, watcher, up, n + 1)| == |DroppedSlots(c, watcher, up, n)| + if goes then 1 else 0
  {
    var before, after := DroppedSlots(c, watcher, up, n), DroppedSlots(c, watcher, up, n + 1);
    assert after == if n in after then before + {n} else before;
  }

  /** No request has lost its reply for want of memory. */
  predicate NoneStarved(was: seq<Fate>, fates: seq<Fate>) {
    |fates| == |was| && forall s: nat :: s < |fates| && fates[s].NoMemory? ==> was[s].NoMemory?
  }

  lemma BooksRecord(c: seq<Rec>, serials: Serials, issued: seq<Issue>, replies: seq<Reply>, start: Long, next: Long, q: int, no: nat)
    requires Books(c, serials, issued, replies, start, next, q) && no < |c|
    ensures RecordSound(c, no, serials, issued)
  {
  }

  lemma FatesShape(c: seq<Rec>, serials: Serials, issued: seq<Issue>, replies: seq<Reply>, fates: seq<Fate>, gone: set<nat>)
    requires |c| == |serials| && Accounted(c, serials, issued, replies, fates, gone)
    ensures |fates| == |issued|
  {
  }

  lemma LastFate(fates: seq<Fate>, f: Fate, g: Fate)
    ensures (fates + [f])[|fates| := g] == fates + [g]
  {
  }

  lemma AccountShape(c: seq<Rec>, serials: Serials, issued: seq<Issue>, replies: seq<Reply>, fates: seq<Fate>, gone: set<nat>, no: nat)
    requires |c| == |serials| && no < |c| && Accounted(c, serials, issued, replies, fates, gone)
    ensures |fates| == |issued|
    ensures c[no].busy ==> serials[no] < |fates| && fates[serials[no]] == Live(no)
    ensures c[no].securing == PreZombie ==> c[no].watcher in gone
  {
  }

  /** The requests a pass sends, by serial, in slot order. */
  function Sendees(c: seq<Rec>, serials: Serials, way: nat -> Way, n: nat): seq<nat>
    requires n <= |c| == |serials|
  {
    if n <= 1 then []
    else Sendees(c, serials, way, n - 1) + if Reached(c, way, n - 1) && Sendable(c[n - 1], way(n - 1)) then [serials[n - 1]] else []
  }

  lemma SendeesStep(c: seq<Rec>, serials: Serials, way: nat -> Way, n: nat)
    requires 1 <= n < |c| == |serials| && Sendables(c, way, n) < SECURING_LIMIT
    ensures Sendees(c, serials, way, n + 1) == Sendees(c, serials, way, n) + if Sendable(c[n], way(n)) then [serials[n]] else []
  {
    hide Sendables;
  }

  lemma {:induction false} NoSendees(c: seq<Rec>, serials: Serials, way: nat -> Way, from: nat, n: nat)
    requires from <= n <= |c| == |serials|
    requires n <= 1 || forall m :: from <= m < n ==> c[m].securing == Clear || Sendables(c, way, m) >= SECURING_LIMIT
    ensures Sendees(c, serials, way, n) == Sendees(c, serials, way, from) && (from <= 1 ==> Sendees(c, serials, way, n) == [])
  {
    hide Sendables, Sendable, Reached;
    if from < n && n > 1 {
      NotSent(c, way, n - 1);
      NoSendees(c, serials, way, from, n - 1);
    }
  }

  lemma NotSent(c: seq<Rec>, way: nat -> Way, m: nat)
    requires m < |c| && (c[m].securing == Clear || Sendables(c, way, m) >= SECURING_LIMIT)
    ensures !(Reached(c, way, m) && Sendable(c[m], way(m)))
  {
    hide Sendables;
  }

  lemma {:induction false} SendeesCount(c: seq<Rec>, serials: Serials, way: nat -> Way, n: nat)
    requires n <= |c| == |serials|
    ensures |Sendees(c, serials, way, n)| == AtMost(SECURING_LIMIT, Sendables(c, way, n))
  {
    if n > 1 { SendeesCount(c, serials, way, n - 1); }
  }

  /** Where the loop of the pass ends, nothing is left for it to do. */
  lemma PassEnds(c0: seq<Rec>, c: seq<Rec>, serials: Serials, way: nat -> Way, no: nat)
    requires Passed(c0, c, way, no) && |serials| == |c0| && Sendables(c0, way, no) <= SECURING_LIMIT
    requires no == |c0| || Sendables(c0, way, no) >= SECURING_LIMIT || DeferredIn(c) <= 0
    ensures forall m: nat :: m < |c0| ==> c[m] == AfterPass(c0, way, m)
    ensures Sendables(c0, way, no) == AtMost(SECURING_LIMIT, Sendables(c0, way, |c0|))
    ensures Dropped(c0, way, |c0|) == Dropped(c0, way, no)
    ensures Sendees(c0, serials, way, |c0|) == Sendees(c0, serials, way, no) && (no <= 1 ==> Sendees(c0, serials, way, |c0|) == [])
  {
    hide AfterPass, Sendables, Dropped, DeferredIn, Sendees;
    if no < |c0| {
      if Sendables(c0, way, no) >= SECURING_LIMIT {
        FullFrom(c0, way, no, |c0|);
        forall m | no <= m < |c0| ensures Sendables(c0, way, m) >= SECURING_LIMIT { FullFrom(c0, way, no, m); }
      } else {
        NothingDeferred(c);
        NoneToHandle(c0, way, no, |c0|);
      }
    }
    NoSendees(c0, serials, way, no, |c0|);
  }

  /** What the pass makes of the records, in plain words. */
  lemma PassMeans(c0: seq<Rec>, c: seq<Rec>, way: nat -> Way)
    requires |c| == |c0| && forall no: nat :: no < |c| ==> c[no] == AfterPass(c0, way, no)
    requires forall no :: 0 <= no < |c0| && c0[no].securing != Clear ==> c0[no].busy && c0[no].isWrite
    ensures forall no :: 0 <= no < |c| && c0[no].busy && c0[no].securing != PreZombie ==>
              && c[no].busy && c[no].id == c0[no].id && c[no].isWrite == c0[no].isWrite
              && c[no].watcher == c0[no].watcher && c[no].agent == c0[no].agent
              && c[no].securing == if c0[no].isWrite && Reached(c0, way, no) && way(no).Free? then Clear else c0[no].securing
    ensures forall no :: 0 <= no < |c| && c0[no].securing == PreZombie ==>
              c[no] == if Reached(c0, way, no) && (way(no).Free? || way(no).Down?) then IDLE else c0[no]
  {
    hide Reached;
  }

  /** What a securing pass may do to a record. */
  function AtMost(limit: int, n: int): int { if n < limit then n else limit }

  /** A deferred write that the pass can send. */
  predicate Sendable(r: Rec, w: Way) { r.busy && r.isWrite && r.securing != Clear && w.Free? }

  /** One of a watcher that has gone, for an agent that is down. */
  predicate Droppable(r: Rec, w: Way) { r.busy && r.isWrite && r.securing == PreZombie && w.Down? }

  /** How many of the slots 1..n the pass could send. */
  function Sendables(c: seq<Rec>, way: nat -> Way, n: nat): (k: nat)
    requires n <= |c|
    ensures k <= n
  {
    if n <= 1 then 0 else Sendables(c, way, n - 1) + if Sendable(c[n - 1], way(n - 1)) then 1 else 0
  }

  /** The pass gets to slot no: it has not sent 32 before. */
  predicate Reached(c: seq<Rec>, way: nat -> Way, no: nat)
    requires no < |c|
  {
    1 <= no && Sendables(c, way, no) < SECURING_LIMIT
  }

  /** How many of the slots 1..n the pass drops without sending. */
  function Dropped(c: seq<Rec>, way: nat -> Way, n: nat): (k: nat)
    requires n <= |c|
    ensures k <= n
  {
    if n <= 1 then 0
    else Dropped(c, way, n - 1) + if Reached(c, way, n - 1) && Droppable(c[n - 1], way(n - 1)) then 1 else 0
  }

  /** What a pass that gets there makes of a record. */
  function Handled(r: Rec, w: Way): Rec {
    if Droppable(r, w) then IDLE
    else if !Sendable(r, w) then r
    else if r.securing == PreZombie then IDLE
    else r.(securing := Clear)
  }

  function AfterPass(c: seq<Rec>, way: nat -> Way, no: nat): Rec
    requires no < |c|
  {
    if Reached(c, way, no) then Handled(c[no], way(no)) else c[no]
  }

  /** The pass has got to slot no. */
  predicate Passed(c0: seq<Rec>, c: seq<Rec>, way: nat -> Way, no: nat) {
    && no <= |c| == |c0|
    && (forall m: nat :: m < no ==> c[m] == AfterPass(c0, way, m))
    && (forall m: nat :: no <= m < |c| ==> c[m] == c0[m])
  }

  lemma PassedNothing(c: seq<Rec>, way: nat -> Way, no: nat)
    requires no <= 1 && no <= |c|
    ensures Passed(c, c, way, no) && Sendables(c, way, no) == Dropped(c, way, no) == 0
  {
  }

  lemma PassStep(c0: seq<Rec>, c: seq<Rec>, way: nat -> Way, no: nat)
    requires Passed(c0, c, way, no) && 1 <= no < |c0| && Sendables(c0, way, no) < SECURING_LIMIT
    ensures c[no] == c0[no] && Passed(c0, c[no := Handled(c[no], way(no))], way, no + 1)
    ensures Sendables(c0, way, no + 1) == Sendables(c0, way, no) + if Sendable(c0[no], way(no)) then 1 else 0
    ensures Dropped(c0, way, no + 1) == Dropped(c0, way, no) + if Droppable(c0[no], way(no)) then 1 else 0
  {
    hide Handled, Sendable, Droppable;
  }

  lemma NoneInNothing()
    ensures DeferredIn([]) == 0
  {
  }

  lemma {:induction false} NothingDeferred(c: seq<Rec>)
    requires DeferredIn(c) == 0
    ensures forall no :: 0 <= no < |c| ==> c[no].securing == Clear
  {
    if c != [] { NothingDeferred(c[..|c| - 1]); }
  }

  /** With nothing deferred from slot `from` on, the pass has done what it will do. */
  lemma {:induction false} NoneToHandle(c: seq<Rec>, way: nat -> Way, from: nat, n: nat)
    requires from <= n <= |c| && forall m :: from <= m < n ==> c[m].securing == Clear
    ensures Sendables(c, way, n) == Sendables(c, way, from) && Dropped(c, way, n) == Dropped(c, way, from)
    ensures forall m: nat :: from <= m < n ==> AfterPass(c, way, m) == c[m]
  {
    if from < n { NoneToHandle(c, way, from, n - 1); }
  }

  /** With 32 sent before slot `from`, nothing from there on is touched. */
  lemma {:induction false} FullFrom(c: seq<Rec>, way: nat -> Way, from: nat, n: nat)
    requires from <= n <= |c| && Sendables(c, way, from) >= SECURING_LIMIT
    ensures Sendables(c, way, n) >= SECURING_LIMIT && Dropped(c, way, n) == Dropped(c, way, from)
    ensures forall m: nat :: from <= m < n ==> AfterPass(c, way, m) == c[m]
  {
    if from < n { FullFrom(c, way, from, n - 1); }
  }

  lemma {:induction false} AllSendable(c: seq<Rec>, way: nat -> Way, n: nat)
    requires n <= |c| && (c != [] ==> c[0].securing == Clear)
    requires forall m :: 0 <= m < |c| && c[m].securing != Clear ==> c[m].busy && c[m].isWrite
    requires forall m: nat :: way(m).Free?
    ensures Sendables(c, way, n) == DeferredIn(c[..n]) && (n == |c| ==> Sendables(c, way, n) == DeferredIn(c))
  {
    if n > 0 {
      assert c[..n][..n - 1] == c[..n - 1];
      AllSendable(c, way, n - 1);
    }
    if n == |c| { assert c[..n] == c; }
  }

  /** How many of the slots before n a pass changes. */
  function Touched(c: seq<Rec>, way: nat -> Way, n: nat): nat
    requires n <= |c|
  {
    if n == 0 then 0 else Touched(c, way, n - 1) + if AfterPass(c, way, n - 1) != c[n - 1] then 1 else 0
  }

  /** A pass touches those it sends and those it drops. So it touches more than 32
      exactly when it drops more than sending leaves of the 32. */
  lemma {:induction false} TouchedBySendingOrDropping(c: seq<Rec>, way: nat -> Way, n: nat)
    requires n <= |c|
    ensures Touched(c, way, n) == AtMost(SECURING_LIMIT, Sendables(c, way, n)) + Dropped(c, way, n)
    ensures Touched(c, way, n) > SECURING_LIMIT <==> Dropped(c, way, n) > SECURING_LIMIT - AtMost(SECURING_LIMIT, Sendables(c, way, n))
  {
    if n > 0 { TouchedBySendingOrDropping(c, way, n - 1); }
  }

  /** Dropping has no limit of its own: with every agent down, all the pre-zombies
      go in one pass, however many there are. */
  lemma {:induction false} DroppingIsUnlimited(c: seq<Rec>, way: nat -> Way, n: nat)
    requires n <= |c| && forall m: nat :: way(m).Down?
    requires forall m :: 1 <= m < n ==> c[m].busy && c[m].isWrite && c[m].securing == PreZombie
    ensures Sendables(c, way, n) == 0 && Dropped(c, way, n) == if n == 0 then 0 else n - 1
  {
    if n > 1 { DroppingIsUnlimited(c, way, n - 1); }
  }

  lemma BooksCount(c: seq<Rec>, serials: Serials, issued: seq<Issue>, replies: seq<Reply>, start: Long, next: Long, q: int, no: nat)
    requires Books(c, serials, issued, replies, start, next, q) && no < |c|
    ensures q >= IsDeferred(c[no])
  {
    DeferredUpdate(c, no, c[no]);
  }

  /** Everything that can happen to the records. */
  datatype Op =
    | Write(watcher: nat, room: bool, parses: bool, agent: Option<nat>, ready: bool, way: Way)
    | Read(watcher: nat, room: bool, roomForReply: bool, parses: bool, known: bool, agent: Option<nat>, ready: bool, sent: bool)
    | Answer(id: Long, isWrite: bool, room: bool)
    | Addresses(concerned: nat -> bool, ways: nat -> Way, works: nat -> bool)
    | SecurePass(ways: nat -> Way)
    | AgentDown(a: nat)
    | WatchGone(w: nat, up: nat -> bool)

  /** An answer to a read, or a read answered at once, with no memory for the reply. */
  predicate NoRoomFor(op: Op, issue: Issue) {
    match op
    case Answer(id, isWrite, room) => id == issue.id && !isWrite && !room
    case Read(watcher, _, roomForReply, _, _, _, _, _) => watcher == issue.watcher && !roomForReply
    case _ => false
  }

  /** Fates are lost to memory only where the operation says so. */
  ghost predicate StarvedBy(was: seq<Fate>, fates: seq<Fate>, issued: seq<Issue>, op: Op) {
    && |was| <= |fates| == |issued|
    && forall s: nat :: s < |fates| && fates[s].NoMemory? ==> (s < |was| && was[s].NoMemory?) || NoRoomFor(op, issued[s])
  }

  method Do(r: Requests, op: Op)
    requires r.Valid()
    modifies r
    ensures r.Valid() && old(r.issued) <= r.issued
    ensures r.gone == old(r.gone) + if op.WatchGone? then {op.w} else {}
    ensures StarvedBy(old(r.fates), r.fates, r.issued, op)
  {
    hide Books, Accounted;
    FatesShape(r.chain, r.serials, r.issued, r.replies, r.fates, r.gone);
    match op {
      case Write(w, room, parses, agent, ready, way) => var _, _ := r.SubmitWrite(w, room, parses, agent, ready, way);
      case Read(w, room, reply, parses, known, agent, ready, sent) => Ask(r, op);
      case Answer(id, isWrite, room) => var _ := r.HandleAnswer(id, isWrite, room);
      case Addresses(concerned, ways, works) => var _ := r.UpdateAddresses(concerned, ways, works);
      case SecurePass(ways) => var _ := r.SecureMoreWrites(ways);
      case AgentDown(a) => var _ := r.CancelAgent(a);
      case WatchGone(w, up) => var _ := r.CancelWatch(w, up);
    }
    FatesShape(r.chain, r.serials, r.issued, r.replies, r.fates, r.gone);
  }

  /** A read is written down for the watcher that asks. */
  method Ask(r: Requests, op: Op)
    requires r.Valid() && op.Read?
    modifies r
    ensures r.Valid() && old(r.issued) <= r.issued && r.gone == old(r.gone)
    ensures StarvedBy(old(r.fates), r.fates, r.issued, op)
  {
    hide Books, Accounted;
    FatesShape(r.chain, r.serials, r.issued, r.replies, r.fates, r.gone);
    var _, _ := r.SubmitRead(op.watcher, op.room, op.roomForReply, op.parses, op.known, op.agent, op.ready, op.sent);
    FatesShape(r.chain, r.serials, r.issued, r.replies, r.fates, r.gone);
  }

  /** The watchers gone, and the reads without memory for their reply, are those of
      the operations done so far. */
  ghost predicate Caused(gone0: set<nat>, gone: set<nat>, was: seq<Fate>, fates: seq<Fate>, issued: seq<Issue>, ops: seq<Op>) {
    && |was| <= |fates| == |issued|
    && (forall w :: w in gone ==> w in gone0 || exists n :: 0 <= n < |ops| && ops[n].WatchGone? && ops[n].w == w)
    && (forall s: nat :: s < |fates| && fates[s].NoMemory? ==>
          (s < |was| && was[s].NoMemory?) || exists n :: 0 <= n < |ops| && NoRoomFor(ops[n], issued[s]))
  }

  lemma NothingCaused(gone: set<nat>, fates: seq<Fate>, issued: seq<Issue>)
    requires |fates| == |issued|
    ensures Caused(gone, gone, fates, fates, issued, [])
  {
  }

  lemma CausedOneMore(gone0: set<nat>, gone: set<nat>, gone': set<nat>, was: seq<Fate>, fates: seq<Fate>, fates': seq<Fate>,
                      issued: seq<Issue>, issued': seq<Issue>, ops: seq<Op>, op: Op)
    requires Caused(gone0, gone, was, fates, issued, ops) && issued <= issued'
    requires gone' == gone + (if op.WatchGone? then {op.w} else {}) && StarvedBy(fates, fates', issued', op)
    ensures Caused(gone0, gone', was, fates', issued', ops + [op])
  {
    var more := ops + [op];
    assert more[|ops|] == op && forall n :: 0 <= n < |ops| ==> more[n] == ops[n];
  }

  /** In every run each request is answered at most once and to the watcher that
      asked, live ids are distinct, and the deferral count is exact. And no request is
      forgotten: it is live, or was answered, or its watcher has gone, or there was no
      memory for its reply. */
  method Run(r: Requests, ops: seq<Op>)
    requires r.Valid()
    modifies r
    ensures r.Valid()
    ensures forall i, j :: 0 <= i < j < |r.replies| ==> r.replies[i].serial != r.replies[j].serial
    ensures forall i :: 0 <= i < |r.replies| ==>
              r.replies[i].serial < |r.issued| && r.replies[i].to == r.issued[r.replies[i].serial].watcher
    ensures r.securingQty == DeferredIn(r.chain)
    ensures forall i, j :: 0 <= i < j < |r.chain| && r.chain[i].busy && r.chain[j].busy ==> r.chain[i].id != r.chain[j].id
    ensures forall s: nat :: s < |r.issued| ==>
      || (exists no :: 0 <= no < |r.chain| == |r.serials| && r.chain[no].busy && r.serials[no] == s && r.chain[no].id == r.issued[s].id)
      || (exists i :: 0 <= i < |r.replies| && r.replies[i].serial == s)
      || r.issued[s].watcher in old(r.gone) || (exists n :: 0 <= n < |ops| && ops[n].WatchGone? && ops[n].w == r.issued[s].watcher)
      || (s < |old(r.fates)| && old(r.fates)[s].NoMemory?) || (exists n :: 0 <= n < |ops| && NoRoomFor(ops[n], r.issued[s]))
  {
    hide Books, Accounted, Caused;
    var n := 0;
    FatesShape(r.chain, r.serials, r.issued, r.replies, r.fates, r.gone);
    NothingCaused(r.gone, r.fates, r.issued);
    assert ops[..0] == [];
    while n < |ops|
      invariant n <= |ops| && r.Valid()
      invariant Caused(old(r.gone), r.gone, old(r.fates), r.fates, r.issued, ops[..n])
    {
      ghost var gone, fates, issued := r.gone, r.fates, r.issued;
      Do(r, ops[n]);
      CausedOneMore(old(r.gone), gone, r.gone, old(r.fates), fates, r.fates, issued, r.issued, ops[..n], ops[n]);
      assert ops[..n + 1] == ops[..n] + [ops[n]];
      n := n + 1;
    }
    assert ops[..n] == ops;
    BooksReplies(r.chain, r.serials, r.issued, r.replies, r.start, r.nextId, r.securingQty);
    NoneForgotten(r.chain, r.serials, r.issued, r.replies, r.start, r.nextId, r.securingQty, old(r.gone), r.gone, old(r.fates), r.fates, ops);
  }

  lemma BooksReplies(c: seq<Rec>, serials: Serials, issued: seq<Issue>, replies: seq<Reply>, start: Long, next: Long, q: int)
    requires Books(c, serials, issued, replies, start, next, q)
    ensures q == DeferredIn(c) && RepliesSound(c, serials, issued, replies)
    ensures forall i, j :: 0 <= i < j < |c| && c[i].busy && c[j].busy ==> c[i].id != c[j].id
  {
    BooksShape(c, serials, issued, replies, start, next, q);
  }

  lemma NoneForgotten(c: seq<Rec>, serials: Serials, issued: seq<Issue>, replies: seq<Reply>, start: Long, next: Long, q: int,
                      gone0: set<nat>, gone: set<nat>, was: seq<Fate>, fates: seq<Fate>, ops: seq<Op>)
    requires Books(c, serials, issued, replies, start, next, q) && |c| == |serials| && Accounted(c, serials, issued, replies, fates, gone)
    requires Caused(gone0, gone, was, fates, issued, ops)
    ensures forall s: nat :: s < |issued| ==>
      || (exists no :: 0 <= no < |c| && c[no].busy && serials[no] == s && c[no].id == issued[s].id)
      || (exists i :: 0 <= i < |replies| && replies[i].serial == s)
      || issued[s].watcher in gone0 || (exists n :: 0 <= n < |ops| && ops[n].WatchGone? && ops[n].w == issued[s].watcher)
      || (s < |was| && was[s].NoMemory?) || (exists n :: 0 <= n < |ops| && NoRoomFor(ops[n], issued[s]))
  {
    hide RepliesSound, IssuedSound, NoRoomFor;
    forall s: nat | s < |issued|
      ensures || (exists no :: 0 <= no < |c| && c[no].busy && serials[no] == s && c[no].id == issued[s].id)
              || (exists i :: 0 <= i < |replies| && replies[i].serial == s)
              || issued[s].watcher in gone0 || (exists n :: 0 <= n < |ops| && ops[n].WatchGone? && ops[n].w == issued[s].watcher)
              || (s < |was| && was[s].NoMemory?) || (exists n :: 0 <= n < |ops| && NoRoomFor(ops[n], issued[s]))
    {
      assert FateHolds(c, serials, issued[s], replies, fates[s], s, gone);
      if fates[s].Live? { assert RecordSound(c, fates[s].no, serials, issued); }
    }
  }

  /** A reply to a watcher that has gone: its write is deferred, it goes, and then
      the agent goes down before the write could be sent. */
  method ReplyToTheGone(clock: Long) returns (r: Requests)
    ensures r.Valid() && r.replies == [Reply(0, 5, true)]
  {
    hide Books;
    r := new Requests(clock);
    var ok, no := r.SubmitWrite(5, true, true, Some(7), true, Pending);
    var _ := r.CancelWatch(5, _ => true);
    ghost var chain, serials := r.chain, r.serials;
    BooksShape(chain, serials, r.issued, r.replies, r.start, r.nextId, r.securingQty);
    OneWaits(chain, serials, no, 7);
    var _ := r.CancelAgent(7);
  }

  /** With all other records idle only this one waits. */
  lemma {:induction false} OneWaits(c: seq<Rec>, serials: Serials, no: nat, agent: nat)
    requires |c| == |serials| && forall m :: 0 <= m < |c| && m != no ==> !c[m].busy
    ensures Waiting(c, serials, agent) == if no < |c| && Waits(c[no], agent) then [ReplyFor(c[no], serials[no])] else []
    decreases |c|
  {
    if c != [] {
      var n := |c| - 1;
      OneWaits(c[..n], serials[..n], no, agent);
    }
  }

  lemma BooksDeferred(c: seq<Rec>, serials: Serials, issued: seq<Issue>, replies: seq<Reply>, start: Long, next: Long, q: int)
    requires Books(c, serials, issued, replies, start, next, q)
    ensures q == DeferredIn(c)
  {
  }

  lemma BooksShape(c: seq<Rec>, serials: Serials, issued: seq<Issue>, replies: seq<Reply>, start: Long, next: Long, q: int)
    requires Books(c, serials, issued, replies, start, next, q)
    ensures |c| == |serials| <= MAX_RECORDS
    ensures forall no :: 0 <= no < |c| && c[no].busy ==> 1 <= no && c[no].id % 0x1_0000 == no
    ensures forall no :: 0 <= no < |c| && c[no].securing != Clear ==> c[no].busy && c[no].isWrite && c[no].agent.Some?
  {
    forall no | 0 <= no < |c| && c[no].busy ensures 1 <= no && c[no].id % 0x1_0000 == no {
      assert RecordSound(c, no, serials, issued);
    }
    forall no | 0 <= no < |c| && c[no].securing != Clear ensures c[no].busy && c[no].isWrite && c[no].agent.Some? {
      assert RecordSound(c, no, serials, issued);
    }
  }
}
