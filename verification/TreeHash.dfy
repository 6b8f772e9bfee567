/** The tree hash: 256 roots, and below each a tree whose nodes have four links,
    chosen by the two low bits of a comparison. One code serves numbers and
    strings; they differ in how a key picks its root and how two keys compare. */
module TreeHash {
  import opened Bytes

  const NCHARS := 256
  const NLINKS := 4
  const USHORT := 0x1_0000

  datatype Node<K> = Node(key: K, val: int, link: seq<nat>)

  /** How keys are hashed. Any comparison will do that is zero just for equal keys. */
  datatype Keys<!K> = Keys(bucket: K -> nat, compare: (K, K) -> int)
  {
    function Direction(key: K, at: K): nat {
      compare(key, at) % NLINKS
    }
  }

  ghost predicate Lawful<K(!new)>(keys: Keys<K>) {
    && (forall k :: keys.bucket(k) < NCHARS)
    && (forall a, b :: keys.compare(a, b) == 0 <==> a == b)
  }

  // ------------------------------------------------------------- instances

  type Int32 = x: int | -0x8000_0000 <= x < 0x8000_0000

  /** Numbers: the low byte picks the root, the 32-bit difference compares. */
  function NumberKeys(): Keys<Int32> {
    Keys((k: Int32) => k % NCHARS, (a: Int32, b: Int32) => (a - b) % 0x1_0000_0000)
  }

  /** Strings: the first byte picks the root; `strcmp` is whatever the C library has. */
  function StringKeys(strcmp: (seq<byte>, seq<byte>) -> int): Keys<seq<byte>> {
    Keys(s => if s == [] then 0 else s[0] as int, strcmp)
  }

  lemma NumberKeysLawful()
    ensures Lawful(NumberKeys())
  {
  }

  lemma StringKeysLawful(strcmp: (seq<byte>, seq<byte>) -> int)
    requires forall a, b :: strcmp(a, b) == 0 <==> a == b
    ensures Lawful(StringKeys(strcmp))
  {
  }

  /** Under one root numbers agree in their low byte, so only link 0 is ever taken. */
  lemma NumbersUseLinkZero(a: Int32, b: Int32)
    ensures NumberKeys().bucket(a) == NumberKeys().bucket(b) ==> NumberKeys().Direction(a, b) == 0
  {
    if a % NCHARS == b % NCHARS {
      var q := a / NCHARS - b / NCHARS;
      assert a - b == NCHARS * q;
      ModMultiple(q);
    }
  }

  lemma ModMultiple(q: int)
    ensures NCHARS * q % 0x1_0000_0000 % NLINKS == 0
  {
    var n := NCHARS * q;
    var d := n / 0x1_0000_0000;
    assert n % 0x1_0000_0000 == NLINKS * (64 * q - 0x4000_0000 * d);
  }

  /** The C cast from an unsigned long to an int, and that it loses nothing. */
  function AsInt(w: Long): (k: Int32)
    ensures k % 0x1_0000_0000 == w
  {
    if w < 0x8000_0000 then w else w - 0x1_0000_0000
  }

  // ------------------------------------------------------------ search paths

  /** Links point forward, to nodes a ushort can number. */
  ghost predicate Linked<K>(nodes: seq<Node<K>>) {
    forall i :: 0 <= i < |nodes| ==> LinkedAt(nodes, i)
  }

  ghost predicate LinkedAt<K>(nodes: seq<Node<K>>, i: nat)
    requires i < |nodes|
  {
    |nodes[i].link| == NLINKS
    && forall d :: 0 <= d < NLINKS ==> nodes[i].link[d] == 0 || (i < nodes[i].link[d] < |nodes| && nodes[i].link[d] < USHORT)
  }

  /** The node a search for `key` from node `no` ends at, 0 when it finds nothing. */
  ghost function Walk<K(!new)>(keys: Keys<K>, nodes: seq<Node<K>>, key: K, no: nat): (r: nat)
    requires Linked(nodes) && Lawful(keys) && (no == 0 || no < |nodes|)
    ensures r == 0 || (no <= r < |nodes| && nodes[r].key == key)
    decreases if no == 0 then 0 else |nodes| - no
  {
    if no == 0 then 0
    else
      assert LinkedAt(nodes, no);
      if keys.compare(key, nodes[no].key) == 0 then no
      else Walk(keys, nodes, key, nodes[no].link[keys.Direction(key, nodes[no].key)])
  }

  /** A new leaf hung on an empty link of node p. */
  function Hang<K>(nodes: seq<Node<K>>, p: nat, d: nat, leaf: Node<K>): (r: seq<Node<K>>)
    requires p < |nodes| && |nodes[p].link| == NLINKS && d < NLINKS
    ensures |r| == |nodes| + 1
  {
    nodes[p := nodes[p].(link := nodes[p].link[d := |nodes|])] + [leaf]
  }

  function Leaf<K>(key: K, val: int): Node<K> {
    Node(key, val, [0, 0, 0, 0])
  }

  lemma HangKeepsLinked<K>(nodes: seq<Node<K>>, p: nat, d: nat, leaf: Node<K>)
    requires Linked(nodes) && p < |nodes| < USHORT && d < NLINKS
    requires leaf == Leaf(leaf.key, leaf.val)
    ensures |nodes[p].link| == NLINKS && Linked(Hang(nodes, p, d, leaf))
  {
    assert LinkedAt(nodes, p);
    var r := Hang(nodes, p, d, leaf);
    forall i | 0 <= i < |r| ensures LinkedAt(r, i) {
      if i < |nodes| { assert LinkedAt(nodes, i); }
    }
  }

  /** A node's own search path ends at it, and no path to another key changes:
      from any node on, a search for another key still ends where it did. */
  lemma {:induction false} HangKeepsWalk<K(!new)>(keys: Keys<K>, nodes: seq<Node<K>>, p: nat, d: nat, leaf: Node<K>, key: K, no: nat)
    requires Lawful(keys) && Linked(nodes) && 0 < p < |nodes| < USHORT && d < NLINKS
    requires leaf == Leaf(leaf.key, leaf.val)
    requires LinkedAt(nodes, p) && nodes[p].link[d] == 0
    requires Linked(Hang(nodes, p, d, leaf)) && 0 < no < |nodes|
    requires key != leaf.key
    ensures Walk(keys, Hang(nodes, p, d, leaf), key, no) == Walk(keys, nodes, key, no)
    decreases |nodes| - no
  {
    var r := Hang(nodes, p, d, leaf);
    assert LinkedAt(nodes, no) && LinkedAt(r, no) && LinkedAt(r, |nodes|);
    var c := keys.Direction(key, nodes[no].key);
    if keys.compare(key, nodes[no].key) != 0 {
      if no == p && c == d {
        assert r[no].link[c] == |nodes|;
        assert Walk(keys, r, key, |nodes|) == Walk(keys, r, key, 0);
      } else {
        assert r[no].link[c] == nodes[no].link[c];
        if nodes[no].link[c] != 0 {
          HangKeepsWalk(keys, nodes, p, d, leaf, key, nodes[no].link[c]);
        }
      }
    }
  }

  /** The path of the new key runs to p, takes the empty link, and now finds the leaf. */
  ghost predicate LeadsTo<K(!new)>(keys: Keys<K>, nodes: seq<Node<K>>, key: K, no: nat, p: nat)
    requires Linked(nodes) && Lawful(keys) && 0 < no < |nodes|
    decreases |nodes| - no
  {
    no == p
    || (LinkedAt(nodes, no) && keys.compare(key, nodes[no].key) != 0
        && var next := nodes[no].link[keys.Direction(key, nodes[no].key)];
           next != 0 && LeadsTo(keys, nodes, key, next, p))
  }

  lemma {:induction false} LeadsOneFurther<K(!new)>(keys: Keys<K>, nodes: seq<Node<K>>, key: K, no: nat, p: nat)
    requires Lawful(keys) && Linked(nodes) && 0 < no < |nodes| && 0 < p < |nodes|
    requires LeadsTo(keys, nodes, key, no, p)
    requires LinkedAt(nodes, p) && keys.compare(key, nodes[p].key) != 0
    ensures var next := nodes[p].link[keys.Direction(key, nodes[p].key)];
            && Walk(keys, nodes, key, no) == Walk(keys, nodes, key, next)
            && (next != 0 ==> LeadsTo(keys, nodes, key, no, next))
    decreases |nodes| - no
  {
    if no != p {
      assert LinkedAt(nodes, no);
      LeadsOneFurther(keys, nodes, key, nodes[no].link[keys.Direction(key, nodes[no].key)], p);
    }
  }

  lemma {:induction false} HangIsFound<K(!new)>(keys: Keys<K>, nodes: seq<Node<K>>, p: nat, leaf: Node<K>, no: nat)
    requires Lawful(keys) && Linked(nodes) && 0 < p < |nodes| < USHORT
    requires leaf == Leaf(leaf.key, leaf.val)
    requires 0 < no < |nodes| && LeadsTo(keys, nodes, leaf.key, no, p)
    requires LinkedAt(nodes, p) && keys.compare(leaf.key, nodes[p].key) != 0
    requires Linked(Hang(nodes, p, keys.Direction(leaf.key, nodes[p].key), leaf))
    ensures Walk(keys, Hang(nodes, p, keys.Direction(leaf.key, nodes[p].key), leaf), leaf.key, no) == |nodes|
    decreases |nodes| - no
  {
    var r := Hang(nodes, p, keys.Direction(leaf.key, nodes[p].key), leaf);
    assert LinkedAt(nodes, no) && LinkedAt(r, no);
    if no == p {
      assert r[no].key == nodes[no].key;
      assert keys.compare(leaf.key, leaf.key) == 0;
    } else {
      var next := nodes[no].link[keys.Direction(leaf.key, nodes[no].key)];
      HangIsFound(keys, nodes, p, leaf, next);
    }
  }

  lemma {:induction false} AppendKeepsWalk<K(!new)>(keys: Keys<K>, nodes: seq<Node<K>>, leaf: Node<K>, key: K, no: nat)
    requires Lawful(keys) && Linked(nodes) && Linked(nodes + [leaf])
    requires no == 0 || no < |nodes|
    ensures Walk(keys, nodes + [leaf], key, no) == Walk(keys, nodes, key, no)
    decreases if no == 0 then 0 else |nodes| - no
  {
    if no != 0 {
      assert LinkedAt(nodes, no);
      AppendKeepsWalk(keys, nodes, leaf, key, nodes[no].link[keys.Direction(key, nodes[no].key)]);
    }
  }

  // -------------------------------------------------------------- refinement

  ghost predicate Rooted<K>(nodes: seq<Node<K>>, root: seq<nat>) {
    && |root| == NCHARS && |nodes| >= 1
    && Linked(nodes)
    && forall l :: 0 <= l < NCHARS ==> root[l] < |nodes| && root[l] < USHORT
  }

  /** The node a search for `key` finds from the top. */
  ghost function Locate<K(!new)>(keys: Keys<K>, nodes: seq<Node<K>>, root: seq<nat>, key: K): (r: nat)
    requires Lawful(keys) && Rooted(nodes, root)
    ensures r == 0 || (r < |nodes| && nodes[r].key == key)
  {
    Walk(keys, nodes, key, root[keys.bucket(key)])
  }

  ghost predicate Holds<K(!new)>(keys: Keys<K>, nodes: seq<Node<K>>, root: seq<nat>, content: map<K, int>, key: K)
    requires Lawful(keys) && Rooted(nodes, root)
  {
    var n := Locate(keys, nodes, root, key);
    if n == 0 then key !in content else key in content && content[key] == nodes[n].val
  }

  /** Searching is looking up in `content`, and every node a ushort can number is found. */
  ghost predicate Refines<K(!new)>(keys: Keys<K>, nodes: seq<Node<K>>, root: seq<nat>, content: map<K, int>) {
    && Lawful(keys) && Rooted(nodes, root)
    && (forall key :: Holds(keys, nodes, root, content, key))
    && (forall j :: 1 <= j < |nodes| && j < USHORT ==> Locate(keys, nodes, root, nodes[j].key) == j)
  }

  lemma AppendKeepsRooted<K>(nodes: seq<Node<K>>, root: seq<nat>, leaf: Node<K>)
    requires Rooted(nodes, root) && leaf == Leaf(leaf.key, leaf.val)
    ensures Rooted(nodes + [leaf], root)
  {
    var r := nodes + [leaf];
    forall i | 0 <= i < |r| ensures LinkedAt(r, i) {
      if i < |nodes| { assert LinkedAt(nodes, i); }
    }
  }

  /** A node past what a ushort can number is never linked and changes nothing. */
  lemma UnlinkedNodeIsHarmless<K(!new)>(keys: Keys<K>, nodes: seq<Node<K>>, root: seq<nat>, content: map<K, int>, leaf: Node<K>)
    requires Refines(keys, nodes, root, content) && leaf == Leaf(leaf.key, leaf.val)
    requires |nodes| >= USHORT
    ensures Refines(keys, nodes + [leaf], root, content)
  {
    AppendKeepsRooted(nodes, root, leaf);
    forall key ensures Holds(keys, nodes + [leaf], root, content, key) {
      assert Holds(keys, nodes, root, content, key);
      AppendKeepsWalk(keys, nodes, leaf, key, root[keys.bucket(key)]);
    }
    forall j | 1 <= j < |nodes + [leaf]| && j < USHORT ensures Locate(keys, nodes + [leaf], root, nodes[j].key) == j {
      AppendKeepsWalk(keys, nodes, leaf, nodes[j].key, root[keys.bucket(nodes[j].key)]);
    }
  }

  ghost predicate SameEntries<K>(nodes: seq<Node<K>>, nodes': seq<Node<K>>) {
    && |nodes| <= |nodes'|
    && forall i :: 0 <= i < |nodes| ==> nodes'[i].key == nodes[i].key && nodes'[i].val == nodes[i].val
  }

  /** If searches change only in that the new key is now found at the new node,
      the tree refines the map with that key added. */
  lemma OneMoreKey<K(!new)>(keys: Keys<K>, nodes: seq<Node<K>>, nodes': seq<Node<K>>, root: seq<nat>, root': seq<nat>,
                            content: map<K, int>, content': map<K, int>, key: K, val: int)
    requires Refines(keys, nodes, root, content) && |nodes| < USHORT
    requires Rooted(nodes', root') && SameEntries(nodes, nodes')
    requires |nodes'| == |nodes| + 1 && nodes'[|nodes|].key == key && nodes'[|nodes|].val == val
    requires forall k :: Locate(keys, nodes', root', k) == if k == key then |nodes| else Locate(keys, nodes, root, k)
    requires Locate(keys, nodes, root, key) == 0
    requires content' == content[key := val]
    ensures Refines(keys, nodes', root', content')
  {
    hide Walk, Lawful;
    WhereKeyIs(keys, nodes, root, content, key, 0);
    forall k ensures Holds(keys, nodes', root', content', k) {
      assert Holds(keys, nodes, root, content, k);
    }
    forall j | 1 <= j < |nodes'| && j < USHORT ensures Locate(keys, nodes', root', nodes'[j].key) == j {
      if j < |nodes| { WhereKeyIs(keys, nodes, root, content, nodes[j].key, j); }
    }
  }

  /** A leaf that becomes the first node under its root. */
  lemma NewRoot<K(!new)>(keys: Keys<K>, nodes: seq<Node<K>>, root: seq<nat>, content: map<K, int>, leaf: Node<K>)
    requires Refines(keys, nodes, root, content) && leaf == Leaf(leaf.key, leaf.val)
    requires |nodes| < USHORT && root[keys.bucket(leaf.key)] == 0
    ensures Refines(keys, nodes + [leaf], root[keys.bucket(leaf.key) := |nodes|], content[leaf.key := leaf.val])
  {
    hide Refines, Walk, Lawful;
    RefinesParts(keys, nodes, root, content);
    var l := keys.bucket(leaf.key);
    var nodes', root' := nodes + [leaf], root[l := |nodes|];
    AppendKeepsRooted(nodes, root, leaf);
    forall key ensures Locate(keys, nodes', root', key) == if key == leaf.key then |nodes| else Locate(keys, nodes, root, key) {
      if keys.bucket(key) == l {
        WalkNowhere(keys, nodes, key);
        OnlyLeaf(keys, nodes', key, |nodes|);
      } else {
        AppendKeepsWalk(keys, nodes, leaf, key, root[keys.bucket(key)]);
      }
    }
    SameKeys(nodes, leaf);
    WalkNowhere(keys, nodes, leaf.key);
    OneMoreKey(keys, nodes, nodes', root, root', content, content[leaf.key := leaf.val], leaf.key, leaf.val);
  }

  /** A leaf hung where the search for its key fell off the tree. */
  lemma NewBranch<K(!new)>(keys: Keys<K>, nodes: seq<Node<K>>, root: seq<nat>, content: map<K, int>, leaf: Node<K>, p: nat, d: nat)
    requires Refines(keys, nodes, root, content) && leaf == Leaf(leaf.key, leaf.val)
    requires |nodes| < USHORT && 0 < p < |nodes| && LinkedAt(nodes, p)
    requires var no := root[keys.bucket(leaf.key)]; no != 0 && LeadsTo(keys, nodes, leaf.key, no, p)
    requires keys.compare(leaf.key, nodes[p].key) != 0
    requires d == keys.Direction(leaf.key, nodes[p].key) && nodes[p].link[d] == 0
    ensures Refines(keys, Hang(nodes, p, d, leaf), root, content[leaf.key := leaf.val])
  {
    hide Refines, Walk, LeadsTo, Lawful;
    RefinesParts(keys, nodes, root, content);
    var nodes' := Hang(nodes, p, d, leaf);
    HangKeepsLinked(nodes, p, d, leaf);
    HangIsFound(keys, nodes, p, leaf, root[keys.bucket(leaf.key)]);
    LeadsOneFurther(keys, nodes, leaf.key, root[keys.bucket(leaf.key)], p);
    WalkNowhere(keys, nodes, leaf.key);
    WalkNowhere(keys, nodes', leaf.key);
    forall key ensures Locate(keys, nodes', root, key) == if key == leaf.key then |nodes| else Locate(keys, nodes, root, key) {
      var no := root[keys.bucket(key)];
      WalkNowhere(keys, nodes, key);
      WalkNowhere(keys, nodes', key);
      if key != leaf.key && no != 0 { HangKeepsWalk(keys, nodes, p, d, leaf, key, no); }
    }
    OneMoreKey(keys, nodes, nodes', root, root, content, content[leaf.key := leaf.val], leaf.key, leaf.val);
  }

  lemma RefinesParts<K(!new)>(keys: Keys<K>, nodes: seq<Node<K>>, root: seq<nat>, content: map<K, int>)
    requires Refines(keys, nodes, root, content)
    ensures Lawful(keys) && Rooted(nodes, root) && forall k :: keys.bucket(k) < NCHARS
  {
  }

  /** From a leaf on, only the leaf's own key is found. */
  lemma {:induction false} OnlyLeaf<K(!new)>(keys: Keys<K>, nodes: seq<Node<K>>, key: K, no: nat)
    requires Linked(nodes) && Lawful(keys) && 0 < no < |nodes| && nodes[no] == Leaf(nodes[no].key, nodes[no].val)
    ensures Walk(keys, nodes, key, no) == if key == nodes[no].key then no else 0
  {
    assert LinkedAt(nodes, no);
    WalkNowhere(keys, nodes, key);
  }

  lemma SameKeys<K>(nodes: seq<Node<K>>, leaf: Node<K>)
    ensures SameEntries(nodes, nodes + [leaf])
  {
  }

  lemma WalkNowhere<K(!new)>(keys: Keys<K>, nodes: seq<Node<K>>, key: K)
    requires Linked(nodes) && Lawful(keys)
    ensures Walk(keys, nodes, key, 0) == 0
  {
  }

  lemma WalkEnds<K(!new)>(keys: Keys<K>, nodes: seq<Node<K>>, key: K, no: nat)
    requires Linked(nodes) && Lawful(keys) && 0 < no < |nodes|
    requires keys.compare(key, nodes[no].key) == 0
    ensures Walk(keys, nodes, key, no) == no
  {
  }

  lemma LeadsToItself<K(!new)>(keys: Keys<K>, nodes: seq<Node<K>>, key: K, no: nat)
    requires Linked(nodes) && Lawful(keys) && 0 < no < |nodes|
    ensures LeadsTo(keys, nodes, key, no, no)
  {
  }

  lemma HangIsUpdate<K>(nodes: seq<Node<K>>, p: nat, d: nat, leaf: Node<K>)
    requires p < |nodes| && |nodes[p].link| == NLINKS && d < NLINKS
    ensures (nodes + [leaf])[p := nodes[p].(link := nodes[p].link[d := |nodes|])] == Hang(nodes, p, d, leaf)
  {
  }

  /** A key outside the map is found nowhere; the key of a numbered node is found there. */
  lemma WhereKeyIs<K(!new)>(keys: Keys<K>, nodes: seq<Node<K>>, root: seq<nat>, content: map<K, int>, key: K, j: nat)
    requires Refines(keys, nodes, root, content)
    ensures key !in content ==> Locate(keys, nodes, root, key) == 0
    ensures 1 <= j < |nodes| && j < USHORT && nodes[j].key == key ==> Locate(keys, nodes, root, key) == j
  {
    assert Holds(keys, nodes, root, content, key);
  }

  /** Overwriting the value of a node that a search finds. */
  lemma NewValue<K(!new)>(keys: Keys<K>, nodes: seq<Node<K>>, root: seq<nat>, content: map<K, int>, n: nat, val: int)
    requires Refines(keys, nodes, root, content)
    requires 0 < n < |nodes| && Locate(keys, nodes, root, nodes[n].key) == n
    ensures Refines(keys, nodes[n := nodes[n].(val := val)], root, content[nodes[n].key := val])
  {
    hide Walk, Lawful;
    RefinesParts(keys, nodes, root, content);
    var nodes', content' := nodes[n := nodes[n].(val := val)], content[nodes[n].key := val];
    forall i | 0 <= i < |nodes'| ensures LinkedAt(nodes', i) { assert LinkedAt(nodes, i); }
    forall key ensures Locate(keys, nodes', root, key) == Locate(keys, nodes, root, key) {
      ValueKeepsWalk(keys, nodes, n, val, key, root[keys.bucket(key)]);
    }
    forall key ensures Holds(keys, nodes', root, content', key) {
      assert Holds(keys, nodes, root, content, key);
    }
    forall j | 1 <= j < |nodes'| && j < USHORT ensures Locate(keys, nodes', root, nodes'[j].key) == j {
      assert Locate(keys, nodes, root, nodes[j].key) == j;
    }
  }

  lemma {:induction false} ValueKeepsWalk<K(!new)>(keys: Keys<K>, nodes: seq<Node<K>>, n: nat, val: int, key: K, no: nat)
    requires Lawful(keys) && Linked(nodes) && n < |nodes| && (no == 0 || no < |nodes|)
    requires Linked(nodes[n := nodes[n].(val := val)])
    ensures Walk(keys, nodes[n := nodes[n].(val := val)], key, no) == Walk(keys, nodes, key, no)
    decreases if no == 0 then 0 else |nodes| - no
  {
    if no != 0 {
      assert LinkedAt(nodes, no) && LinkedAt(nodes[n := nodes[n].(val := val)], no);
      ValueKeepsWalk(keys, nodes, n, val, key, nodes[no].link[keys.Direction(key, nodes[no].key)]);
    }
  }

  // ------------------------------------------------------------------- the tree

  /** What a search returns. */
  datatype Answer = Answer(found: bool, val: int)

  class Tree<K(==, 0, !new)> {
    const keys: Keys<K>
    var root: seq<nat>
    var nodes: seq<Node<K>>     // node 0 is not used
    var bad: bool               // memory has run out once

    ghost var content: map<K, int>

    ghost predicate Valid()
      reads this
    {
      Refines(keys, nodes, root, content)
    }

    constructor (keys: Keys<K>)
      requires Lawful(keys)
      ensures Valid() && content == map[] && !bad && |nodes| == 1 && this.keys == keys
    {
      this.keys := keys;
      var k: K := *;
      root := seq(NCHARS, _ => 0);
      nodes := [Leaf(k, 0)];
      bad := false;
      content := map[];
    }

    /** The search loop both kinds of tree share; 0 when nothing is found. */
    method Search(key: K) returns (n: nat)
      requires Valid()
      ensures n == Locate(keys, nodes, root, key)
    {
      n := root[keys.bucket(key)];
      while n != 0
        invariant n == 0 || n < |nodes|
        invariant Walk(keys, nodes, key, n) == Locate(keys, nodes, root, key)
        decreases if n == 0 then 0 else |nodes| - n
      {
        assert LinkedAt(nodes, n);
        var k := keys.compare(key, nodes[n].key);
        if k == 0 { return; }
        n := nodes[n].link[k % NLINKS];
      }
    }

    /** treeFind and treeNumFind: the map lookup, unless memory has run out. */
    method Find(key: K) returns (r: Answer)
      requires Valid()
      ensures r == if !bad && key in content then Answer(true, content[key]) else Answer(false, 0)
    {
      if bad { return Answer(false, 0); }
      var n := Search(key);
      assert Holds(keys, nodes, root, content, key);
      r := if n == 0 then Answer(false, 0) else Answer(true, nodes[n].val);
    }

    /** treeBranchInsert for the last node. Its number is cut to a ushort first, so
        past 65535 nodes it stands for node 0 or for a node that is linked already. */
    method BranchInsert(ghost base: seq<Node<K>>) returns (ok: bool)
      requires Refines(keys, base, root, content) && !bad
      requires |nodes| == |base| + 1 && nodes == base + [Leaf(nodes[|base|].key, nodes[|base|].val)]
      requires nodes[|base|].key !in content
      modifies this`nodes, this`root
      ensures ok <==> |base| < USHORT
      ensures ok ==> Refines(keys, nodes, root, content[old(nodes)[|base|].key := old(nodes)[|base|].val])
      ensures ok ==> |nodes| == |old(nodes)|
      ensures !ok ==> nodes == old(nodes) && root == old(root)
    {
      hide Refines, Walk, LeadsTo, Lawful, Hang;
      RefinesParts(keys, base, root, content);
      ghost var leaf := nodes[|base|];
      var newNo := (|nodes| - 1) % USHORT;
      if newNo == 0 { return false; }
      var key := nodes[newNo].key;
      WhereKeyIs(keys, base, root, content, key, newNo);
      var l := keys.bucket(key);
      var first := root[l];
      if first == 0 {
        WalkNowhere(keys, base, key);
        NewRoot(keys, base, root, content, leaf);
        root := root[l := newNo];
        return true;
      }
      var no, pno, d := first, 0, 0;
      LeadsToItself(keys, base, key, first);
      while true
        invariant nodes == old(nodes) && root == old(root)
        invariant 0 < no < |base|
        invariant LeadsTo(keys, base, key, first, no)
        invariant Walk(keys, base, key, no) == Walk(keys, base, key, first)
        decreases |base| - no
      {
        assert LinkedAt(base, no);
        var k := keys.compare(key, nodes[no].key);
        if k == 0 {
          WalkEnds(keys, base, key, no);
          return false;
        }
        LeadsOneFurther(keys, base, key, first, no);
        d := k % NLINKS;
        pno := no;
        no := nodes[no].link[d];
        if no == 0 { break; }
      }
      WalkNowhere(keys, base, key);
      NewBranch(keys, base, root, content, leaf, pno, d);
      nodes := nodes[pno := nodes[pno].(link := nodes[pno].link[d := newNo])];
      HangIsUpdate(base, pno, d, leaf);
      ok := true;
    }

    /** treeAdd (without force) and treeNumAddInternal. `room` is whether the node
        array could be grown. A new key is accepted as long as a ushort can number
        its node; after that it is refused and the map is left as it was. */
    method Add(key: K, val: int, force: bool, room: bool) returns (ok: bool)
      requires Valid()
      modifies this
      ensures Valid()
      ensures bad == (old(bad) || (key !in content && !room && !ok))
      ensures old(bad) ==> !ok && content == old(content)
      ensures !old(bad) && key in old(content) ==> (ok <==> force || old(content)[key] == val)
      ensures !old(bad) && key !in old(content) ==> (ok <==> room && |old(nodes)| < USHORT)
      ensures content == if ok then old(content)[key := val] else old(content)
      ensures |nodes| == |old(nodes)| + if !old(bad) && key !in old(content) && room then 1 else 0
    {
      if bad { return false; }
      var n := Search(key);
      assert Holds(keys, nodes, root, content, key);
      if n != 0 {
        if force {
          NewValue(keys, nodes, root, content, n, val);
          nodes := nodes[n := nodes[n].(val := val)];
          content := content[key := val];
          return true;
        }
        assert content[key := content[key]] == content;
        return nodes[n].val == val;
      }
      if !room {
        bad := true;
        return false;
      }
      ghost var base := nodes;
      nodes := nodes + [Leaf(key, val)];
      ok := BranchInsert(base);
      if ok {
        content := content[key := val];
      } else {
        UnlinkedNodeIsHarmless(keys, base, root, content, Leaf(key, val));
      }
    }
  }
}
