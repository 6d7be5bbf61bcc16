/** The persistent slot map: a radix trie over 32-bit keys, four bits a level, whose batch writer copies a
    node the first time it needs it and edits its own copies in place from then on. */
module SlotMap {
  import opened Wrappers
  import opened Updates

  const LEVELS := 8
  const FANOUT := 16
  const KEYS := 0x1_0000_0000

  /** key >> (4 * n) */
  function Shifted(key: nat, n: nat): nat {
    if n == 0 then key else Shifted(key, n - 1) / FANOUT
  }

  function Branch(key: nat, level: nat): (branch: nat)
    ensures branch < FANOUT
  {
    Shifted(key, level) % FANOUT
  }

  lemma {:induction false} NoBitsLeft(key: nat, n: nat)
    requires n <= LEVELS && key < KEYS
    ensures Shifted(key, n) < match n
                              case 0 => KEYS case 1 => 0x1000_0000 case 2 => 0x100_0000 case 3 => 0x10_0000
                              case 4 => 0x1_0000 case 5 => 0x1000 case 6 => 0x100 case 7 => 0x10 case _ => 1
  {
    if n > 0 {
      NoBitsLeft(key, n - 1);
    }
  }

  /** The eight branches determine the key: two keys that take the same path are one. */
  lemma BranchesDetermineKey(a: nat, b: nat)
    requires a < KEYS && b < KEYS
    ensures a == b <==> forall level: nat | level < LEVELS :: Branch(a, level) == Branch(b, level)
  {
    if forall level: nat | level < LEVELS :: Branch(a, level) == Branch(b, level) {
      NoBitsLeft(a, LEVELS);
      NoBitsLeft(b, LEVELS);
      SameFrom(a, b, LEVELS);
    }
  }

  lemma {:induction false} SameFrom(a: nat, b: nat, n: nat)
    requires forall level: nat :: level < n ==> Branch(a, level) == Branch(b, level)
    requires Shifted(a, n) == Shifted(b, n)
    ensures a == b
    decreases n
  {
    if n > 0 {
      assert Branch(a, n - 1) == Branch(b, n - 1);
      SameFrom(a, b, n - 1);
    }
  }

  /** A node, with the place it was made for and the entries below it as ghosts. */
  class Node<V> {
    var children: seq<Node?<V>>
    var values: seq<Option<V>>
    var builderToken: nat
    ghost var level: nat
    ghost var prefix: nat
    ghost var contents: map<nat, V>
    ghost var below: seq<map<nat, V>>
    ghost var parent: Node?<V>

    constructor Empty(builderToken: nat, ghost level: nat, ghost prefix: nat, ghost parent: Node?<V>)
      ensures children == seq(FANOUT, i => null) && values == seq(FANOUT, i => None)
      ensures this.builderToken == builderToken && this.level == level && this.prefix == prefix && contents == map[]
              && this.parent == parent
      ensures below == seq(FANOUT, i => map[])
    {
      children, values := seq(FANOUT, i => null), seq(FANOUT, i => None);
      this.builderToken := builderToken;
      this.level, this.prefix, contents, this.parent := level, prefix, map[], parent;
      below := seq(FANOUT, i => map[]);
    }

    constructor Copy(source: Node<V>, builderToken: nat, ghost parent: Node?<V>)
      ensures children == source.children && values == source.values && this.builderToken == builderToken
      ensures level == source.level && prefix == source.prefix && contents == source.contents && this.parent == parent
      ensures below == source.below
    {
      children, values := source.children, source.values;
      this.builderToken := builderToken;
      level, prefix, contents, this.parent := source.level, source.prefix, source.contents, parent;
      below := source.below;
    }
  }

  /** Every child was made for its place in its parent, and holds the entries the parent says it holds. */
  ghost predicate Placed<V>(n: Node<V>, pool: set<Node<V>>)
    reads n, pool
  {
    && |n.children| == FANOUT == |n.values| == |n.below| && n.level < LEVELS
    && forall b: nat | b < FANOUT ::
         var child := n.children[b];
         if child == null then n.below[b] == map[]
         else
           && n.level > 0 && child in pool && child.level == n.level - 1
           && child.prefix == n.prefix * FANOUT + b && child.contents == n.below[b]
  }

  /** The entries of a node are those below its branches, or its values at the bottom. */
  ghost predicate Summed<V>(n: Node<V>)
    reads n
  {
    Sums(n.contents, n.level, n.prefix, n.values, n.below)
  }

  ghost predicate Sums<V>(contents: map<nat, V>, level: nat, prefix: nat, values: seq<Option<V>>,
                          below: seq<map<nat, V>>) {
    && |values| == FANOUT == |below|
    && (forall key | key in contents :: Shifted(key, level + 1) == prefix)
    && (forall key: nat | Shifted(key, level + 1) == prefix ::
          Get(contents, key) == if level == 0 then values[Branch(key, 0)] else Get(below[Branch(key, level)], key))
  }

  ghost function ContentsOf<V>(node: Node?<V>): map<nat, V>
    reads node
  {
    if node == null then map[] else node.contents
  }

  /** A pool of nodes, closed under children. */
  ghost predicate Pool<V>(pool: set<Node<V>>)
    reads pool
  {
    forall n {:trigger Placed(n, pool)} {:trigger Summed(n)} | n in pool :: Placed(n, pool) && Summed(n)
  }

  ghost predicate Root<V>(root: Node?<V>, pool: set<Node<V>>)
    reads root, pool
  {
    root != null ==> root in pool && root.level == LEVELS - 1 && root.prefix == 0
  }

  /** The value stored under a key: one branch per level. */
  method Value<V>(root: Node?<V>, key: nat, ghost pool: set<Node<V>>) returns (value: Option<V>)
    requires key < KEYS && Pool(pool) && Root(root, pool)
    ensures value == Get(ContentsOf(root), key)
  {
    NoBitsLeft(key, LEVELS);
    var node := root;
    for level := LEVELS - 1 downto 0
      invariant node != null ==> node in pool && node.level == level && node.prefix == Shifted(key, level + 1)
      invariant Get(ContentsOf(node), key) == Get(ContentsOf(root), key)
    {
      if node == null {
        return None;
      }
      assert Placed(node, pool) && Summed(node);
      node := node.children[Branch(key, level + 1)];
    }
    if node == null {
      return None;
    }
    assert Placed(node, pool) && Summed(node);
    value := node.values[Branch(key, 0)];
  }

  // ----- Batch writes -----

  /** A copy is reached through exactly one edge, from the copy above it. */
  ghost predicate OneEdge<V>(copies: set<Node<V>>)
    reads copies
  {
    forall n, b: nat {:trigger n.children[b]} |
      n in copies && b < |n.children| && n.children[b] != null && n.children[b] in copies ::
      n.children[b].parent == n
  }

  /** The state of a batch: nodes of published maps, which nobody edits, and the copies made so far. */
  ghost predicate Building<V>(root: Node<V>, token: nat, pool: set<Node<V>>, copies: set<Node<V>>)
    reads pool, copies
  {
    && Pool(pool + copies) && OneEdge(copies)
    && root in copies && root.level == LEVELS - 1 && root.prefix == 0
    && (forall n | n in pool :: n.builderToken < token) && (forall n | n in copies :: n.builderToken == token)
  }

  /** A node that stands for another, or for none, under a new token. */
  method CloneNode<V>(source: Node?<V>, token: nat, ghost level: nat, ghost prefix: nat, ghost parent: Node?<V>,
                      ghost pool: set<Node<V>>)
    returns (clone: Node<V>)
    requires level < LEVELS
    requires source != null ==>
               Placed(source, pool) && Summed(source) && source.level == level && source.prefix == prefix
    ensures fresh(clone) && clone.builderToken == token && clone.level == level && clone.prefix == prefix
            && clone.parent == parent
    ensures Placed(clone, pool) && Summed(clone) && clone.contents == ContentsOf(source)
    ensures forall b | 0 <= b < |clone.children| && clone.children[b] != null ::
              source != null && clone.children == source.children
  {
    if source != null {
      clone := new Node.Copy(source, token, parent);
    } else {
      clone := new Node.Empty(token, level, prefix, parent);
    }
  }

  /** Puts a new copy in its place below its parent; it stands for what was there before. */
  method Adopt<V>(node: Node<V>, branch: nat, child: Node<V>, token: nat, ghost root: Node<V>, ghost pool: set<Node<V>>,
                  ghost copies: set<Node<V>>)
    requires Pool(pool) && Building(root, token, pool, copies)
    requires node in copies && node.level > 0 && branch < FANOUT && |node.children| == FANOUT
    requires child !in pool + copies && child.builderToken == token && Placed(child, pool + copies) && Summed(child)
    requires child.level == node.level - 1 && child.prefix == node.prefix * FANOUT + branch && child.parent == node
    requires child.contents == ContentsOf(node.children[branch])
    requires forall b: nat | b < |child.children| && child.children[b] != null :: child.children[b] !in copies
    modifies node`children
    ensures Building(root, token, pool, copies + {child}) && node.children == old(node.children)[branch := child]
  {
    hide Placed, Summed, Branch, Shifted, Pool;
    ghost var grown := pool + copies + {child};
    assert pool + (copies + {child}) == grown;
    NotReached(pool + copies, child);
    PutChild(node, branch, child, pool + copies);
    assert forall b | 0 <= b < |node.children| && b != branch :: node.children[b] == old(node.children)[b];
  }

  lemma NotReached<V>(pool: set<Node<V>>, child: Node<V>)
    requires Pool(pool) && child !in pool && Placed(child, pool)
    ensures forall n, b: nat {:trigger n.children[b]} | n in pool + {child} && b < |n.children| ::
              n.children[b] != child
  {
    forall n, b: nat | n in pool + {child} && b < |n.children|
      ensures n.children[b] != child
    {
      assert Placed(n, pool);
    }
  }

  /** Every node still holds what it holds, with the new child in its place. */
  method PutChild<V>(node: Node<V>, branch: nat, child: Node<V>, ghost all: set<Node<V>>)
    requires Pool(all) && node in all && node.level > 0 && branch < FANOUT && |node.children| == FANOUT
    requires child !in all && Placed(child, all) && Summed(child)
    requires child.level == node.level - 1 && child.prefix == node.prefix * FANOUT + branch
    requires child.contents == ContentsOf(node.children[branch])
    modifies node`children
    ensures Pool(all + {child}) && node.children == old(node.children)[branch := child]
  {
    hide Sums, Branch, Shifted;
    assert Placed(node, all);
    node.children := node.children[branch := child];
    forall n | n in all + {child}
      ensures Placed(n, all + {child}) && Summed(n)
    {
      assert n != node ==> old(Placed(n, all)) && old(Summed(n));
    }
  }

  /** One step down the path of a key, copying the child unless this batch already has. */
  method Descend<V>(node: Node<V>, key: nat, level: nat, token: nat, ghost root: Node<V>, ghost pool: set<Node<V>>,
                    ghost copies: set<Node<V>>)
    returns (child: Node<V>, ghost copies': set<Node<V>>)
    requires Pool(pool) && Building(root, token, pool, copies)
    requires node in copies && node.level == level > 0 && node.prefix == Shifted(key, level + 1)
    modifies node`children
    ensures Building(root, token, pool, copies')
    ensures child in copies' && child.level == level - 1 && child.prefix == Shifted(key, level) && child.parent == node
    ensures copies <= copies' && fresh(copies' - copies) && |old(node.children)| == FANOUT
    ensures node.children == old(node.children)[Branch(key, level) := child]
  {
    hide Summed;
    var branch := Branch(key, level);
    assert Placed(node, pool + copies) && Summed(node);
    var source := node.children[branch];
    if source != null && source.builderToken == token {
      child, copies' := source, copies;
      node.children := node.children[branch := child];
      assert node.children == old(node.children);
    } else {
      child := CloneNode(source, token, level - 1, node.prefix * FANOUT + branch, node, pool + copies);
      Adopt(node, branch, child, token, root, pool, copies);
      copies' := copies + {child};
    }
  }

  /** The copies on the way to a key, from the root down to one level. */
  ghost predicate Path<V>(path: set<Node<V>>, root: Node<V>, last: Node<V>, key: nat, level: nat, copies: set<Node<V>>)
    reads copies
  {
    && path <= copies && Lined(path, root, last, key, level)
    && (forall n {:trigger Branch(key, n.level)} | n in path && n.level > level ::
          |n.children| == FANOUT && n.children[Branch(key, n.level)] in path)
  }

  /** One node for every level from the last one up, each made for its place on the way. */
  ghost predicate Lined<V>(path: set<Node<V>>, root: Node<V>, last: Node<V>, key: nat, level: nat)
    reads path`level, path`prefix, path`parent
  {
    && root in path && last in path && last.level == level
    && (forall n | n in path ::
          n.prefix == Shifted(key, n.level + 1) && (n.level == level ==> n == last) && level <= n.level)
    && (forall n {:trigger n.parent} | n in path && n != root :: n.parent in path)
  }

  /** Below one node, the lowest branch tells keys apart. */
  lemma LowestBranch(a: nat, b: nat)
    requires Shifted(a, 1) == Shifted(b, 1) && Branch(a, 0) == Branch(b, 0)
    ensures a == b
  {
    assert Shifted(a, 1) == a / FANOUT && Shifted(b, 1) == b / FANOUT;
  }

  /** The path is entered from above only: a node outside it has no child on it, and a node on it has one. */
  lemma PathEdges<V>(path: set<Node<V>>, root: Node<V>, last: Node<V>, key: nat, token: nat, pool: set<Node<V>>,
                     copies: set<Node<V>>, n: Node<V>, branch: nat)
    requires Pool(pool) && Building(root, token, pool, copies) && Path(path, root, last, key, 0, copies)
    requires n in pool + copies && n.level > 0 && branch < FANOUT
    ensures Placed(n, pool + copies)
    ensures n.children[branch] in path <==> n in path && branch == Branch(key, n.level)
  {
    hide Summed;
    assert Placed(n, pool + copies) && (n in pool ==> Placed(n, pool));
    var c := n.children[branch];
    if c != null && c in path {
      assert c != root && c.parent in path;
      assert n in copies;
    }
  }

  /** Writing one key in the value it selects, or below the branch it selects, writes it in the node. */
  lemma SumsAfterWrite<V>(contents: map<nat, V>, level: nat, prefix: nat, values: seq<Option<V>>,
                          below: seq<map<nat, V>>, key: nat, value: Option<V>)
    requires Sums(contents, level, prefix, values, below) && Shifted(key, level + 1) == prefix
    ensures var b := Branch(key, level);
            Sums(Put(contents, key, value), level, prefix,
                 if level == 0 then values[b := value] else values,
                 if level == 0 then below else below[b := Put(below[b], key, value)])
  {
    forall k: nat | Shifted(k, level + 1) == prefix && level == 0 && Branch(k, 0) == Branch(key, 0)
      ensures k == key
    {
      LowestBranch(k, key);
    }
  }

  lemma PathFacts<V>(path: set<Node<V>>, root: Node<V>, last: Node<V>, key: nat, token: nat, pool: set<Node<V>>,
                     copies: set<Node<V>>)
    requires Pool(pool) && Building(root, token, pool, copies) && Path(path, root, last, key, 0, copies)
    ensures root in path && last in path && last.level == 0 && path <= copies
    ensures forall n | n in path ::
              |n.below| == |n.values| == |n.children| == FANOUT && n.prefix == Shifted(key, n.level + 1)
    ensures forall n, b: nat {:trigger n.children[b]} | n in pool + copies && b < FANOUT && n.level > 0
            && |n.children| == FANOUT ::
              n.children[b] in path <==> n in path && b == Branch(key, n.level)
    ensures forall n | n in path && n.level == 0 :: n == last
  {
    forall n | n in path
      ensures |n.below| == |n.values| == |n.children| == FANOUT
    {
      assert Placed(n, pool + copies);
    }
    forall n, b: nat | n in pool + copies && b < FANOUT && n.level > 0
      ensures |n.children| == FANOUT
      ensures n.children[b] in path <==> n in path && b == Branch(key, n.level)
    {
      PathEdges(path, root, last, key, token, pool, copies, n, b);
    }
  }

  /** The final write: the entry of one key changes, below every node on its path and nowhere else. */
  method WriteLeaf<V>(node: Node<V>, key: nat, value: Option<V>, token: nat, ghost path: set<Node<V>>,
                      ghost root: Node<V>, ghost pool: set<Node<V>>, ghost copies: set<Node<V>>)
    requires Pool(pool) && Building(root, token, pool, copies) && Path(path, root, node, key, 0, copies)
    modifies node`values, path`contents, path`below
    ensures Building(root, token, pool, copies)
    ensures root.contents == Put(old(root.contents), key, value)
  {
    hide Branch, Shifted, Put, Sums, Path, Placed;
    PathFacts(path, root, node, key, token, pool, copies);
    RecordInPlace(node, key, value, token, path, root, pool, copies);
    forall n | n in pool + copies
      ensures Summed(n)
    {
      assert old(Summed(n));
      if n in path {
        SummedAfterWrite(n, old(n.contents), old(n.values), old(n.below), key, value);
      }
    }
  }

  /** The records agree from node to node. */
  method RecordInPlace<V>(node: Node<V>, key: nat, value: Option<V>, token: nat, ghost path: set<Node<V>>,
                          ghost root: Node<V>, ghost pool: set<Node<V>>, ghost copies: set<Node<V>>)
    requires Pool(pool) && Building(root, token, pool, copies) && Path(path, root, node, key, 0, copies)
    requires node in path && |node.values| == FANOUT && forall n | n in path :: |n.below| == FANOUT
    modifies node`values, path`contents, path`below
    ensures node.values == old(node.values)[Branch(key, 0) := value]
    ensures forall n | n in path :: n.contents == Put(old(n.contents), key, value)
    ensures forall n | n in path :: var b := Branch(key, n.level);
              n.below == if n.level == 0 then old(n.below) else old(n.below)[b := Put(old(n.below)[b], key, value)]
    ensures forall n | n in pool + copies :: Placed(n, pool + copies)
  {
    hide Branch, Shifted, Put, Summed, Path, OneEdge;
    ghost var all := pool + copies;
    PathFacts(path, root, node, key, token, pool, copies);
    Record(node, key, value, path);
    forall n | n in all
      ensures Placed(n, all)
    {
      assert old(Placed(n, all));
    }
  }

  lemma SummedAfterWrite<V>(n: Node<V>, contents: map<nat, V>, values: seq<Option<V>>, below: seq<map<nat, V>>,
                            key: nat, value: Option<V>)
    requires Sums(contents, n.level, n.prefix, values, below) && n.prefix == Shifted(key, n.level + 1)
    requires |values| == FANOUT == |below| && n.contents == Put(contents, key, value)
    requires n.values == if n.level == 0 then values[Branch(key, 0) := value] else values
    requires var b := Branch(key, n.level);
             n.below == if n.level == 0 then below else below[b := Put(below[b], key, value)]
    ensures Summed(n)
  {
    hide Sums, Put, Branch, Shifted;
    SumsAfterWrite(contents, n.level, n.prefix, values, below, key, value);
  }

  /** The value itself, and what the nodes on its path now mean. */
  method Record<V>(node: Node<V>, key: nat, value: Option<V>, ghost path: set<Node<V>>)
    requires node in path && node.level == 0 && |node.values| == FANOUT && forall n | n in path :: |n.below| == FANOUT
    modifies node`values, path`contents, path`below
    ensures node.values == old(node.values)[Branch(key, 0) := value]
    ensures forall n | n in path :: n.contents == Put(old(n.contents), key, value)
    ensures forall n | n in path :: var b := Branch(key, n.level);
              n.below == if n.level == 0 then old(n.below) else old(n.below)[b := Put(old(n.below)[b], key, value)]
  {
    node.values := node.values[Branch(key, 0) := value];
    forall n | n in path {
      n.contents := Put(n.contents, key, value);
    }
    forall n | n in path && n.level > 0 {
      n.below := n.below[Branch(key, n.level) := Put(n.below[Branch(key, n.level)], key, value)];
    }
  }

  /** The step down lengthens the path. */
  method StepDown<V>(node: Node<V>, key: nat, level: nat, token: nat, ghost path: set<Node<V>>, ghost root: Node<V>,
                     ghost pool: set<Node<V>>, ghost copies: set<Node<V>>)
    returns (child: Node<V>, ghost copies': set<Node<V>>)
    requires Pool(pool) && Building(root, token, pool, copies) && level > 0
             && Path(path, root, node, key, level, copies)
    modifies node`children
    ensures Building(root, token, pool, copies') && copies <= copies' && fresh(copies' - copies)
    ensures Path(path + {child}, root, child, key, level - 1, copies')
  {
    hide Building, Branch, Shifted, Pool, Lined;
    LinedAbove(path, root, node, key, level);
    child, copies' := Descend(node, key, level, token, root, pool, copies);
    forall n | n in path && n.level > level
      ensures |n.children| == FANOUT && n.children[Branch(key, n.level)] in path
    {
      var b := Branch(key, n.level);
      assert n.level == old(n.level) && n.children == old(n.children);
    }
    assert Path(path, root, node, key, level, copies');
    hide Path;
    LongerPath(path, root, node, child, key, level, copies');
  }

  lemma LinedAbove<V>(path: set<Node<V>>, root: Node<V>, last: Node<V>, key: nat, level: nat)
    requires Lined(path, root, last, key, level)
    ensures last in path && last.level == level && last.prefix == Shifted(key, level + 1)
    ensures root in path && forall n | n in path && n.level > level :: n != last
  {
  }

  lemma LongerPath<V>(path: set<Node<V>>, root: Node<V>, node: Node<V>, child: Node<V>, key: nat, level: nat,
                      copies: set<Node<V>>)
    requires level > 0 && Path(path, root, node, key, level, copies) && child in copies
    requires child.level == level - 1 && child.prefix == Shifted(key, level) && child.parent == node
    requires |node.children| == FANOUT && node.children[Branch(key, level)] == child
    ensures Path(path + {child}, root, child, key, level - 1, copies)
  {
    hide Branch, Shifted;
    forall n | n in path + {child} && n.level > level - 1
      ensures |n.children| == FANOUT && n.children[Branch(key, n.level)] in path + {child}
    {
      var b := Branch(key, n.level);
      assert n.level > level || n == node;
    }
  }

  /** One update of a batch: down the path of its key, then the write. */
  method WriteKey<V>(root: Node<V>, key: nat, value: Option<V>, token: nat, ghost pool: set<Node<V>>,
                     ghost copies: set<Node<V>>)
    returns (ghost copies': set<Node<V>>)
    requires key < KEYS && Pool(pool) && Building(root, token, pool, copies)
    modifies copies
    ensures Building(root, token, pool, copies')
    ensures copies <= copies' && fresh(copies' - copies)
    ensures root.contents == Put(old(root.contents), key, value)
  {
    hide Branch, Shifted;
    NoBitsLeft(key, LEVELS);
    var node := root;
    copies' := copies;
    ghost var path := {root};
    for level := LEVELS - 1 downto 0
      invariant Building(root, token, pool, copies') && copies <= copies' && fresh(copies' - copies)
      invariant Path(path, root, node, key, level, copies')
      invariant root.contents == old(root.contents)
    {
      node, copies' := StepDown(node, key, level + 1, token, path, root, pool, copies');
      path := path + {node};
    }
    WriteLeaf(node, key, value, token, path, root, pool, copies');
  }

  /** A batch of replacements and removals. It writes to nodes of its own making only: nothing that existed
      before the call is modified, so every map published earlier keeps its entries. */
  method WithUpdates<V>(source: Node?<V>, updates: seq<Update<nat, V>>, token: nat, ghost pool: set<Node<V>>)
    returns (result: Node?<V>, ghost pool': set<Node<V>>)
    requires Pool(pool) && Root(source, pool) && forall n | n in pool :: n.builderToken < token
    requires forall u | u in updates :: u.key < KEYS
    ensures Pool(pool') && Root(result, pool') && pool <= pool' && fresh(pool' - pool)
    ensures forall n | n in pool' :: n.builderToken <= token
    ensures ContentsOf(result) == Updated(ContentsOf(source), updates)
  {
    if updates == [] {
      return source, pool;
    }
    var root := CloneNode(source, token, LEVELS - 1, 0, null, pool);
    ghost var copies := {root};
    forall n | n in pool + copies
      ensures Placed(n, pool + copies) && Summed(n)
    {
      assert n in pool ==> Placed(n, pool) && Summed(n);
    }
    for i := 0 to |updates|
      invariant Pool(pool) && Building(root, token, pool, copies) && fresh(copies)
      invariant root.contents == Updated(ContentsOf(source), updates[..i])
    {
      UpdatedOneMore(ContentsOf(source), updates, i);
      copies := WriteKey(root, updates[i].key, updates[i].value, token, pool, copies);
    }
    assert updates[..|updates|] == updates;
    result, pool' := root, pool + copies;
  }

  // ----- Runs of batches -----

  /** Any run of batches, each on any earlier version: in the end every version still holds what it held when
      it was published. */
  method Run<V>(batches: seq<Batch<nat, V>>) returns (versions: seq<Node?<V>>, ghost pool: set<Node<V>>)
    requires InOrder(batches) && forall b, u | b in batches && u in b.updates :: u.key < KEYS
    ensures Pool(pool) && |versions| == |batches| + 1
    ensures forall i | 0 <= i < |versions| :: Root(versions[i], pool) && ContentsOf(versions[i]) == Meanings(batches)[i]
  {
    versions, pool := [null], {};
    for n := 0 to |batches|
      invariant Pool(pool) && |versions| == n + 1 && forall m | m in pool :: m.builderToken < n + 1
      invariant forall i | 0 <= i < |versions| ::
                  Root(versions[i], pool) && ContentsOf(versions[i]) == Meanings(batches[..n])[i]
    {
      assert batches[..n + 1][..n] == batches[..n];
      assert batches[n] in batches;
      var version;
      version, pool := WithUpdates(versions[batches[n].version], batches[n].updates, n + 1, pool);
      versions := versions + [version];
    }
    assert batches[..|batches|] == batches;
  }
}
