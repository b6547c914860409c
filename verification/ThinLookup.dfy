/** The dm-thin block map: a btree over metadata blocks. */
module ThinLookup {
  const MAX_DEPTH: nat := 16
  const INTERNAL_NODE: nat := 1
  const LEAF_NODE: nat := 2
  const NODE_HEADER: nat := 32
  const BLOCK: nat := 4096
  /** Low bits of a mapping that hold the time it was made. */
  const TIME_SPAN: nat := 0x100_0000

  /** A metadata block read as a btree node: its header, and the 64-bit words after it, the
      keys first and the values `max` words on. */
  datatype Node = Node(blocknr: nat, flags: nat, nr: nat, max: nat, valueSize: nat, words: seq<nat>) {
    /** The header fields the walk refuses a node over. */
    predicate ShapeOk() {
      valueSize == 8 && nr <= max && NODE_HEADER + max * (8 + valueSize) <= BLOCK
    }

    /** The words of a whole block are there. */
    predicate Whole() {
      |words| == (BLOCK - NODE_HEADER) / 8
    }

    function Key(i: nat): nat
      requires Whole() && ShapeOk() && i < nr
    {
      words[i]
    }

    function Value(i: nat): nat
      requires Whole() && ShapeOk() && i < nr
    {
      words[max + i]
    }

    function Keys(): (k: seq<nat>)
      requires Whole() && ShapeOk()
      ensures |k| == nr && forall i :: 0 <= i < nr ==> k[i] == Key(i)
    {
      words[..nr]
    }
  }

  /** The metadata blocks that can be read, their checksums right. */
  type Metadata = m: map<nat, Node> | forall b :: b in m ==> m[b].Whole()

  datatype Answer = Found(value: nat) | Hole | Corrupt

  predicate Sorted(keys: seq<nat>) {
    forall i, j :: 0 <= i < j < |keys| ==> keys[i] < keys[j]
  }

  /** Where bisecting between `lo` and `hi` ends, on keys in any order. */
  function Bisected(keys: seq<nat>, key: nat, lo: nat, hi: nat): (p: nat)
    requires lo <= hi <= |keys|
    ensures lo <= p <= hi
    decreases hi - lo
  {
    if lo == hi then lo
    else
      var mid := (lo + hi) / 2;
      if keys[mid] <= key then Bisected(keys, key, mid + 1, hi) else Bisected(keys, key, lo, mid)
  }

  /** On sorted keys it ends after those at or below `key`. */
  lemma {:induction false} BisectedSplits(keys: seq<nat>, key: nat, lo: nat, hi: nat)
    requires Sorted(keys) && lo <= hi <= |keys|
    requires (forall i :: 0 <= i < lo ==> keys[i] <= key) && (forall i :: hi <= i < |keys| ==> key < keys[i])
    ensures var p := Bisected(keys, key, lo, hi);
      (forall i :: 0 <= i < p ==> keys[i] <= key) && (forall i :: p <= i < |keys| ==> key < keys[i])
    decreases hi - lo
  {
    if lo < hi {
      var mid := (lo + hi) / 2;
      if keys[mid] <= key {
        BisectedSplits(keys, key, mid + 1, hi);
      } else {
        BisectedSplits(keys, key, lo, mid);
      }
    }
  }

  /** How many keys are at or below `key`, by bisection. */
  method PartitionPoint(keys: seq<nat>, key: nat) returns (p: nat)
    ensures p <= |keys| && p == Bisected(keys, key, 0, |keys|)
    ensures Sorted(keys) ==> forall i :: 0 <= i < p ==> keys[i] <= key
    ensures Sorted(keys) ==> forall i :: p <= i < |keys| ==> key < keys[i]
  {
    var lo, hi := 0, |keys|;
    while lo < hi
      invariant 0 <= lo <= hi <= |keys| && Bisected(keys, key, lo, hi) == Bisected(keys, key, 0, |keys|)
    {
      var mid := (lo + hi) / 2;
      if keys[mid] <= key {
        lo := mid + 1;
      } else {
        hi := mid;
      }
    }
    p := lo;
    if Sorted(keys) { BisectedSplits(keys, key, 0, |keys|); }
  }

  // ----- what the tree means

  /** `key` maps to `value` in a leaf at most `depth` levels down from block `at`. */
  ghost predicate HasEntry(m: Metadata, at: nat, depth: nat, key: nat, value: nat)
    decreases depth
  {
    && depth > 0 && at in m && m[at].ShapeOk()
    && (if m[at].flags == LEAF_NODE then exists i: nat :: i < m[at].nr && m[at].Key(i) == key && m[at].Value(i) == value
        else exists i: nat :: i < m[at].nr && HasEntry(m, m[at].Value(i), depth - 1, key, value))
  }

  ghost predicate NoEntry(m: Metadata, at: nat, depth: nat, key: nat) {
    forall v: nat :: !HasEntry(m, at, depth, key, v)
  }

  /** The keys child `i` of a node covers end here. */
  function ChildEnd(n: Node, i: nat, hi: nat): nat
    requires n.Whole() && n.ShapeOk() && i < n.nr
  {
    if i + 1 < n.nr then n.Key(i + 1) else hi
  }

  /** A tree of at most `depth` levels at block `at`, over keys from `lo` up to `hi`: sorted
      keys, and each child covering the keys from its own up to the next. */
  ghost predicate WellFormed(m: Metadata, at: nat, depth: nat, lo: nat, hi: nat)
    decreases depth, 1
  {
    && depth > 0 && at in m && m[at].ShapeOk() && m[at].blocknr == at && Sorted(m[at].Keys())
    && (forall i: nat :: i < m[at].nr ==> lo <= m[at].Key(i) < hi)
    && (m[at].flags == LEAF_NODE
        || (m[at].flags == INTERNAL_NODE
            && forall i: nat {:trigger ChildOk(m, m[at], i, depth - 1, hi)} :: i < m[at].nr ==>
                 ChildOk(m, m[at], i, depth - 1, hi)))
  }

  ghost predicate ChildOk(m: Metadata, n: Node, i: nat, depth: nat, hi: nat)
    requires n.Whole() && n.ShapeOk() && i < n.nr
    decreases depth, 2
  {
    WellFormed(m, n.Value(i), depth, n.Key(i), ChildEnd(n, i, hi))
  }

  lemma {:induction false} EntryInRange(m: Metadata, at: nat, depth: nat, lo: nat, hi: nat, key: nat, value: nat)
    requires WellFormed(m, at, depth, lo, hi) && HasEntry(m, at, depth, key, value)
    ensures lo <= key < hi
    decreases depth
  {
    var n := m[at];
    if n.flags == INTERNAL_NODE {
      var i: nat :| i < n.nr && HasEntry(m, n.Value(i), depth - 1, key, value);
      assert ChildOk(m, n, i, depth - 1, hi);
      EntryInRange(m, n.Value(i), depth - 1, n.Key(i), ChildEnd(n, i, hi), key, value);
    }
  }

  lemma {:induction false} LastBelow(keys: seq<nat>, key: nat, p: nat, i: nat)
    requires Sorted(keys) && p <= |keys| && i < |keys|
    requires (forall j :: 0 <= j < p ==> keys[j] <= key) && (forall j :: p <= j < |keys| ==> key < keys[j])
    requires keys[i] <= key && (keys[i] < key && i + 1 < |keys| ==> key < keys[i + 1])
    ensures i == p - 1
  {
    assert i + 1 < |keys| ==> keys[i] < keys[i + 1];
  }

  /** `p` keys of the node at `at` are at or below `key`, and the rest are above it. */
  ghost predicate Splits(n: Node, key: nat, p: nat)
    requires n.Whole() && n.ShapeOk()
  {
    && p <= n.nr
    && (forall i :: 0 <= i < p ==> n.Keys()[i] <= key)
    && (forall i :: p <= i < n.nr ==> key < n.Keys()[i])
  }

  /** A leaf's entry is the last one at or below it. */
  lemma {:induction false} LeafEntry(m: Metadata, at: nat, depth: nat, lo: nat, hi: nat, key: nat, value: nat, p: nat)
    requires WellFormed(m, at, depth, lo, hi) && HasEntry(m, at, depth, key, value) && Splits(m[at], key, p)
    requires m[at].flags == LEAF_NODE
    ensures p > 0 && m[at].Key(p - 1) == key && m[at].Value(p - 1) == value
  {
    var n := m[at];
    var i: nat :| i < n.nr && n.Key(i) == key && n.Value(i) == value;
    LastBelow(n.Keys(), key, p, i);
  }

  /** An entry is under the last child whose key is at or below it. */
  lemma {:induction false} ChildEntry(m: Metadata, at: nat, depth: nat, lo: nat, hi: nat, key: nat, value: nat, p: nat)
    requires WellFormed(m, at, depth, lo, hi) && HasEntry(m, at, depth, key, value) && Splits(m[at], key, p)
    requires m[at].flags == INTERNAL_NODE
    ensures p > 0 && HasEntry(m, m[at].Value(p - 1), depth - 1, key, value)
  {
    var n := m[at];
    var i: nat :| i < n.nr && HasEntry(m, n.Value(i), depth - 1, key, value);
    assert ChildOk(m, n, i, depth - 1, hi);
    EntryInRange(m, n.Value(i), depth - 1, n.Key(i), ChildEnd(n, i, hi), key, value);
    LastBelow(n.Keys(), key, p, i);
  }

  /** What the walk from block `at` finds within `visits` nodes, whatever the blocks hold. */
  function Walk(m: Metadata, at: nat, key: nat, visits: nat): Answer
    decreases visits
  {
    if visits == 0 || at !in m || m[at].blocknr != at || !m[at].ShapeOk() then Corrupt
    else
      var n := m[at];
      var below := Below(n, key);
      if below == 0 then Hole
      else if n.flags == INTERNAL_NODE then Walk(m, n.Value(below - 1), key, visits - 1)
      else if n.flags != LEAF_NODE then Corrupt
      else if n.Key(below - 1) == key then Found(n.Value(below - 1)) else Hole
  }

  /** One step down keeps every entry of the key. */
  lemma {:induction false} Descend(m: Metadata, at: nat, depth: nat, lo: nat, hi: nat, key: nat, p: nat)
    requires WellFormed(m, at, depth, lo, hi) && Splits(m[at], key, p)
    ensures p == 0 ==> forall v: nat :: !HasEntry(m, at, depth, key, v)
    ensures p > 0 && m[at].flags == INTERNAL_NODE ==>
      forall v: nat :: HasEntry(m, at, depth, key, v) <==> HasEntry(m, m[at].Value(p - 1), depth - 1, key, v)
    ensures p > 0 && m[at].flags == LEAF_NODE ==>
      forall v: nat :: HasEntry(m, at, depth, key, v) <==> m[at].Key(p - 1) == key && m[at].Value(p - 1) == v
  {
    var n := m[at];
    if n.flags == LEAF_NODE {
      forall v: nat | HasEntry(m, at, depth, key, v)
        ensures p > 0 && n.Key(p - 1) == key && n.Value(p - 1) == v
      {
        LeafEntry(m, at, depth, lo, hi, key, v, p);
      }
    } else {
      forall v: nat | HasEntry(m, at, depth, key, v)
        ensures p > 0 && HasEntry(m, n.Value(p - 1), depth - 1, key, v)
      {
        ChildEntry(m, at, depth, lo, hi, key, v, p);
      }
    }
  }

  /** The answer is the key's one value, or a hole if it has none. */
  ghost predicate Answers(m: Metadata, at: nat, depth: nat, key: nat, r: Answer) {
    match r
    case Found(value) => forall v: nat :: HasEntry(m, at, depth, key, v) <==> v == value
    case Hole => NoEntry(m, at, depth, key)
    case Corrupt => false
  }

  /** The entries at or below `key` in a node. */
  function Below(n: Node, key: nat): (p: nat)
    requires n.Whole() && n.ShapeOk()
    ensures p <= n.nr
  {
    Bisected(n.Keys(), key, 0, n.nr)
  }

  lemma {:induction false} NodeSplits(n: Node, key: nat)
    requires n.Whole() && n.ShapeOk() && Sorted(n.Keys())
    ensures Splits(n, key, Below(n, key))
  {
    BisectedSplits(n.Keys(), key, 0, n.nr);
  }

  /** In a well-formed tree the walk finds the answer. */
  lemma {:induction false} WalkExact(m: Metadata, at: nat, key: nat, visits: nat, depth: nat, lo: nat, hi: nat)
    requires WellFormed(m, at, depth, lo, hi) && depth <= visits
    ensures Answers(m, at, depth, key, Walk(m, at, key, visits))
    decreases depth
  {
    var n := m[at];
    NodeSplits(n, key);
    var below := Below(n, key);
    Descend(m, at, depth, lo, hi, key, below);
    if below > 0 && n.flags == INTERNAL_NODE {
      assert ChildOk(m, n, below - 1, depth - 1, hi);
      WalkExact(m, n.Value(below - 1), key, visits - 1, depth - 1, n.Key(below - 1), ChildEnd(n, below - 1, hi));
      WalkInside(m, at, key, visits, depth);
    } else if below > 0 {
      LeafAnswers(m, at, depth, key, n.Key(below - 1) == key, n.Value(below - 1));
    }
  }

  lemma {:induction false} WalkInside(m: Metadata, at: nat, key: nat, visits: nat, depth: nat)
    requires depth > 0 && visits > 0 && at in m && m[at].blocknr == at && m[at].ShapeOk()
    requires m[at].flags == INTERNAL_NODE && Below(m[at], key) > 0
    requires var child := m[at].Value(Below(m[at], key) - 1);
      && (forall v: nat :: HasEntry(m, at, depth, key, v) <==> HasEntry(m, child, depth - 1, key, v))
      && Answers(m, child, depth - 1, key, Walk(m, child, key, visits - 1))
    ensures Answers(m, at, depth, key, Walk(m, at, key, visits))
  {
    var child := m[at].Value(Below(m[at], key) - 1);
    SameAnswer(m, at, depth, child, depth - 1, key, Walk(m, child, key, visits - 1));
  }

  lemma {:induction false} LeafAnswers(m: Metadata, at: nat, depth: nat, key: nat, here: bool, value: nat)
    requires forall v: nat :: HasEntry(m, at, depth, key, v) <==> here && value == v
    ensures Answers(m, at, depth, key, if here then Found(value) else Hole)
  {
  }

  lemma {:induction false} SameAnswer(m: Metadata, a: nat, da: nat, b: nat, db: nat, key: nat, r: Answer)
    requires forall v: nat :: HasEntry(m, a, da, key, v) <==> HasEntry(m, b, db, key, v)
    requires Answers(m, b, db, key, r)
    ensures Answers(m, a, da, key, r)
  {
  }

  /** A node of sound shape with its keys in order: entries of eight-byte values, no more than it has room for. */
  ghost predicate InShape(m: Metadata, at: nat) {
    && at in m && m[at].blocknr == at && m[at].valueSize == 8 && m[at].nr <= m[at].max
    && 32 + 16 * m[at].max <= 4096 && |m[at].words| == 508
    && forall i, j :: 0 <= i < j < m[at].nr ==> m[at].words[i] < m[at].words[j]
  }

  /** The entry that covers a key: the last whose own key is not above it. */
  ghost predicate Covers(n: Node, i: nat, key: nat) {
    i < n.nr && i < |n.words| && n.words[i] <= key && (i + 1 < n.nr && i + 1 < |n.words| ==> key < n.words[i + 1])
  }

  lemma {:induction false} CoversBelow(m: Metadata, at: nat, i: nat, key: nat)
    requires InShape(m, at) && Covers(m[at], i, key)
    ensures m[at].ShapeOk() && Below(m[at], key) == i + 1
  {
    var n := m[at];
    NodeSplits(n, key);
    assert n.Keys()[i] == n.words[i];
    LastBelow(n.Keys(), key, Below(n, key), i);
  }

  /** The walk reads a node's words: keys are the first, and the value of each is as many words on as the node has
      room for entries. A leaf, marked 2, answers with its value; an inner node, marked 1, sends the walk to it. */
  lemma {:induction false} WalkByWords(m: Metadata, at: nat, i: nat, key: nat, visits: nat)
    requires InShape(m, at) && Covers(m[at], i, key)
    ensures m[at].max + i < 508
    ensures m[at].flags == 2 && m[at].words[i] == key ==>
      Walk(m, at, key, visits + 1) == Found(m[at].words[m[at].max + i])
    ensures m[at].flags == 2 && m[at].words[i] != key ==> Walk(m, at, key, visits + 1) == Hole
    ensures m[at].flags == 1 ==> Walk(m, at, key, visits + 1) == Walk(m, m[at].words[m[at].max + i], key, visits)
  {
    CoversBelow(m, at, i, key);
  }

  /** Walk the tree from `root`. `visits` is how many nodes were read. */
  method Lookup(m: Metadata, root: nat, key: nat, ghost depth: nat, ghost hi: nat) returns (r: Answer, visits: nat)
    ensures visits <= MAX_DEPTH && r == Walk(m, root, key, MAX_DEPTH)
    ensures WellFormed(m, root, depth, 0, hi) && depth <= MAX_DEPTH ==> Answers(m, root, depth, key, r)
  {
    if WellFormed(m, root, depth, 0, hi) && depth <= MAX_DEPTH {
      WalkExact(m, root, key, MAX_DEPTH, depth, 0, hi);
    }
    var at := root;
    visits := 0;
    while visits < MAX_DEPTH
      invariant visits <= MAX_DEPTH && Walk(m, at, key, MAX_DEPTH - visits) == Walk(m, root, key, MAX_DEPTH)
      decreases MAX_DEPTH - visits
    {
      visits := visits + 1;
      if at !in m { return Corrupt, visits; }
      var n := m[at];
      if n.blocknr != at || !n.ShapeOk() { return Corrupt, visits; }
      var below := PartitionPoint(n.Keys(), key);
      if below == 0 { return Hole, visits; }
      if n.flags == INTERNAL_NODE {
        at := n.Value(below - 1);
      } else if n.flags == LEAF_NODE {
        return if n.Key(below - 1) == key then Found(n.Value(below - 1)) else Hole, visits;
      } else {
        return Corrupt, visits;
      }
    }
    r := Corrupt;
  }

  /** In a well-formed tree a key has one value at most. */
  lemma {:induction false} EntryUnique(m: Metadata, at: nat, depth: nat, lo: nat, hi: nat, key: nat, v: nat, w: nat)
    requires WellFormed(m, at, depth, lo, hi) && HasEntry(m, at, depth, key, v) && HasEntry(m, at, depth, key, w)
    ensures v == w
  {
    WalkExact(m, at, key, depth, depth, lo, hi);
  }

  lemma {:induction false} FoundEntry(m: Metadata, at: nat, depth: nat, key: nat, r: Answer)
    requires Answers(m, at, depth, key, r)
    ensures !r.Corrupt? && (r.Hole? <==> NoEntry(m, at, depth, key))
    ensures r.Found? ==> HasEntry(m, at, depth, key, r.value)
  {
    if r.Found? { assert HasEntry(m, at, depth, key, r.value); }
  }

  /** The pool data block that block `vb` of a thin device is kept in, or a hole. */
  method DataBlock(m: Metadata, root: nat, vb: nat, ghost depth: nat, ghost hi: nat) returns (r: Answer)
    ensures WellFormed(m, root, depth, 0, hi) && depth <= MAX_DEPTH ==>
      && !r.Corrupt?
      && (r.Hole? <==> NoEntry(m, root, depth, vb))
      && (r.Found? ==> exists v: nat :: HasEntry(m, root, depth, vb, v) && r.value == v / TIME_SPAN)
  {
    var a, visits := Lookup(m, root, vb, depth, hi);
    r := if a.Found? then Found(a.value / TIME_SPAN) else a;
    if WellFormed(m, root, depth, 0, hi) && depth <= MAX_DEPTH { FoundEntry(m, root, depth, vb, a); }
  }
}
