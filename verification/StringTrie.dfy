/** Nodes of the persistent string map: a 13-level hash trie whose nodes are shared between published
    versions and edited in place only by the transaction whose token they carry. */
module StringTrie {
  import opened Wrappers
  import opened SparseBranches

  /** A shared pointer: comparing pointers compares addresses, comparing entries compares pointees. */
  datatype Pointer<+V> = Pointer(address: nat, pointee: V)

  type Entries<V> = map<string, Pointer<V>>
  type Hash = string -> nat

  const LEVELS := 13

  function Shifted(hash: nat, level: nat): nat {
    if level == 0 then hash else Shifted(hash / FANOUT, level - 1)
  }

  /** The five hash bits that select a branch at one level. */
  function BranchForHash(hash: nat, level: nat): (branch: nat)
    ensures branch < FANOUT
  {
    Shifted(hash, level) % FANOUT
  }

  /** Every key stored below a branch selects that branch. */
  ghost predicate Routed<V>(entries: Entries<V>, hash: Hash, level: nat, branch: nat) {
    forall key | key in entries :: BranchForHash(hash(key), level) == branch
  }

  /** The entries of a node are those of its branches, each key looked up in its own branch. */
  ghost predicate Merged<V>(entries: Entries<V>, parts: map<nat, Entries<V>>, hash: Hash, level: nat) {
    && (forall b | b in parts :: parts[b] != map[] && Routed(parts[b], hash, level, b))
    && (forall key :: Get(entries, key) ==
          var b := BranchForHash(hash(key), level); if b in parts then Get(parts[b], key) else None)
  }

  /** Updating one key in the one branch it selects updates it in the node. */
  lemma MergedAfterUpdate<V>(entries: Entries<V>, parts: map<nat, Entries<V>>, hash: Hash, level: nat,
                             key: string, value: Option<Pointer<V>>, part: Entries<V>)
    requires Merged(entries, parts, hash, level)
    requires var b := BranchForHash(hash(key), level);
             part == Put(if b in parts then parts[b] else map[], key, value)
    ensures var b := BranchForHash(hash(key), level);
            Merged(Put(entries, key, value), if part == map[] then parts - {b} else parts[b := part], hash, level)
  {
    var b := BranchForHash(hash(key), level);
    var old_ := if b in parts then parts[b] else map[];
    var parts' := if part == map[] then parts - {b} else parts[b := part];
    forall c | c in parts'
      ensures parts'[c] != map[] && Routed(parts'[c], hash, level, c)
    {
    }
    forall k
      ensures Get(Put(entries, key, value), k) ==
              var c := BranchForHash(hash(k), level); if c in parts' then Get(parts'[c], k) else None
    {
      PutThenGet(entries, key, value, k);
      PutThenGet(old_, key, value, k);
    }
  }

  lemma NothingMerged<V>(hash: Hash, level: nat)
    ensures Merged<V>(map[], map[], hash, level)
  {
  }

  lemma MergedLookup<V>(entries: Entries<V>, parts: map<nat, Entries<V>>, hash: Hash, level: nat, key: string)
    requires Merged(entries, parts, hash, level)
    ensures Get(entries, key) ==
            var b := BranchForHash(hash(key), level); if b in parts then Get(parts[b], key) else None
  {
  }

  /** A node without branches has no entries, and a node with one has some. */
  lemma MergedEmptiness<V>(entries: Entries<V>, parts: map<nat, Entries<V>>, hash: Hash, level: nat)
    requires Merged(entries, parts, hash, level)
    ensures parts == map[] <==> entries == map[]
  {
    if b :| b in parts {
      var key :| key in parts[b];
      assert BranchForHash(hash(key), level) == b;
      assert Get(entries, key) == Get(parts[b], key);
    }
    if key :| key in entries {
      assert Get(entries, key).Some?;
    }
  }

  /** What a node means: its arrays seen by branch; the entries and the reachable objects below each
      branch; all its entries; and a set holding every object reachable from it, itself included. */
  datatype Meaning<V> = Meaning(kids: map<nat, Node<V>>, leaves: map<nat, Bucket<V>>, parts: map<nat, Entries<V>>,
                                reprs: map<nat, set<object>>, contents: Entries<V>, repr: set<object>)

  ghost function Nothing<V>(): Meaning<V> {
    Meaning(map[], map[], map[], map[], map[], {})
  }

  /** A bottom node: distinct buckets, one part each. */
  ghost predicate LeafShape<V>(m: Meaning<V>, self: object, hash: Hash) {
    && m.kids == map[] && m.leaves.Keys == m.parts.Keys && self in m.repr
    && Merged(m.contents, m.parts, hash, 0)
    && (forall b | b in m.leaves :: m.leaves[b] in m.repr)
    && (forall a, b | a in m.leaves && b in m.leaves && a != b :: m.leaves[a] != m.leaves[b])
  }

  /** A node above the bottom: children that share no object with each other or with the node itself,
      so that every object is reached through exactly one edge. */
  ghost predicate InnerShape<V>(m: Meaning<V>, self: object, hash: Hash, level: nat) {
    && m.leaves == map[] && m.kids.Keys == m.parts.Keys == m.reprs.Keys && self in m.repr
    && Merged(m.contents, m.parts, hash, level)
    && (forall b | b in m.kids :: Reaches(m.kids[b], m.reprs[b], m.repr, self)) && Apart(m.reprs)
  }

  /** A child is among the objects below its branch, which belong to its parent and do not lead back to it. */
  ghost predicate Reaches(child: object, repr: set<object>, all: set<object>, self: object) {
    child in repr && repr <= all && self !in repr
  }

  ghost function LeafAfter<V>(m: Meaning<V>, self: object, branch: nat, bucket: Bucket<V>, part: Entries<V>,
                              key: string, value: Option<Pointer<V>>): Meaning<V>
  {
    Meaning(map[], Put(m.leaves, branch, if part == map[] then None else Some(bucket)),
            if part == map[] then m.parts - {branch} else m.parts[branch := part],
            map[], Put(m.contents, key, value), m.repr + {self, bucket})
  }

  lemma LeafShapeAfter<V>(m: Meaning<V>, self: object, self': object, branch: nat, bucket: Bucket<V>, part: Entries<V>,
                          hash: Hash, key: string, value: Option<Pointer<V>>)
    requires m == Nothing() || LeafShape(m, self, hash)
    requires branch == BranchForHash(hash(key), 0)
             && part == Put(if branch in m.parts then m.parts[branch] else map[], key, value)
    requires forall b | b in m.leaves && b != branch :: m.leaves[b] != bucket
    ensures LeafShape(LeafAfter(m, self', branch, bucket, part, key, value), self', hash)
    ensures var m' := LeafAfter(m, self', branch, bucket, part, key, value);
            && m.leaves.Keys == m.parts.Keys && m'.leaves.Keys == m'.parts.Keys
            && (m'.leaves == map[] <==> m'.contents == map[])
  {
    hide Merged, BranchForHash;
    NothingMerged<V>(hash, 0);
    MergedAfterUpdate(m.contents, m.parts, hash, 0, key, value, part);
    var m' := LeafAfter(m, self', branch, bucket, part, key, value);
    MergedEmptiness(m'.contents, m'.parts, hash, 0);
  }

  ghost function InnerAfter<V>(m: Meaning<V>, self: object, branch: nat, child: Option<Node<V>>, part: Entries<V>,
                               repr: set<object>, key: string, value: Option<Pointer<V>>): Meaning<V>
  {
    Meaning(Put(m.kids, branch, child), map[], Put(m.parts, branch, if child.None? then None else Some(part)),
            Put(m.reprs, branch, if child.None? then None else Some(repr)),
            Put(m.contents, key, value), m.repr + {self} + repr)
  }

  lemma InnerShapeAfter<V>(m: Meaning<V>, self: object, self': object, branch: nat, child: Option<Node<V>>,
                           part: Entries<V>,
                           repr: set<object>, hash: Hash, level: nat, key: string, value: Option<Pointer<V>>)
    requires m == Nothing() || InnerShape(m, self, hash, level)
    requires branch == BranchForHash(hash(key), level)
    requires part == Put(if branch in m.parts then m.parts[branch] else map[], key, value)
    requires child.None? <==> part == map[]
    requires child.Some? ==> child.value in repr
    requires repr * m.repr <= if branch in m.reprs then m.reprs[branch] else {}
    requires self' !in repr && ((m != Nothing() && self' == self) || self' !in m.repr)
    ensures InnerShape(InnerAfter(m, self', branch, child, part, repr, key, value), self', hash, level)
    ensures var m' := InnerAfter(m, self', branch, child, part, repr, key, value);
            && m.kids.Keys == m.parts.Keys == m.reprs.Keys && m'.kids.Keys == m'.parts.Keys == m'.reprs.Keys
            && (m'.kids == map[] <==> m'.contents == map[])
  {
    hide Merged, BranchForHash, InnerAfter, Put, Apart, Reaches;
    NothingMerged<V>(hash, level);
    NothingApart();
    InnerAfterMaps(m, self', branch, child, part, repr, key, value);
    MergedAfterUpdate(m.contents, m.parts, hash, level, key, value, part);
    var m' := InnerAfter(m, self', branch, child, part, repr, key, value);
    InnerAfterParts(m, self', branch, child, part, repr, key, value);
    MergedEmptiness(m'.contents, m'.parts, hash, level);
    forall b | b in m'.kids
      ensures Reaches(m'.kids[b], m'.reprs[b], m'.repr, self')
    {
      if b == branch {
        UpdatedReaches(child.value, repr, m.repr, self');
      } else {
        OtherReaches(m.kids[b], m.reprs[b], m.repr, self, self', repr);
      }
    }
    forall b | b in m.reprs
      ensures m.reprs[b] <= m.repr
    {
      OtherReaches(m.kids[b], m.reprs[b], m.repr, self, self', repr);
    }
    ApartAfter(m.reprs, branch, if child.None? then None else Some(repr), m.repr);
  }

  lemma UpdatedReaches(child: object, repr: set<object>, all: set<object>, self: object)
    requires child in repr && self !in repr
    ensures Reaches(child, repr, all + {self} + repr, self)
  {
  }

  lemma OtherReaches(child: object, own: set<object>, all: set<object>, self: object, self': object, repr: set<object>)
    requires Reaches(child, own, all, self) && (self' == self || self' !in all)
    ensures Reaches(child, own, all + {self'} + repr, self') && own <= all
  {
  }

  lemma NothingApart()
    ensures Apart(map[])
  {
  }

  lemma InnerAfterMaps<V>(m: Meaning<V>, self: object, branch: nat, child: Option<Node<V>>, part: Entries<V>,
                          repr: set<object>, key: string, value: Option<Pointer<V>>)
    requires m.kids.Keys == m.parts.Keys == m.reprs.Keys && (child.None? <==> part == map[])
    ensures var m' := InnerAfter(m, self, branch, child, part, repr, key, value);
            && m'.leaves == map[] && m'.kids.Keys == m'.parts.Keys == m'.reprs.Keys
            && m'.parts == (if part == map[] then m.parts - {branch} else m.parts[branch := part])
            && m'.reprs == Put(m.reprs, branch, if child.None? then None else Some(repr))
            && (m'.kids == map[] <==> m'.parts == map[]) && self in m'.repr
  {
    var m' := InnerAfter(m, self, branch, child, part, repr, key, value);
    assert m'.kids.Keys == m'.parts.Keys;
  }

  ghost predicate Apart(reprs: map<nat, set<object>>) {
    forall a, b | a in reprs && b in reprs && a != b :: reprs[a] !! reprs[b]
  }

  /** What an update adds below one branch stays apart from the other branches. */
  lemma ApartAfter(reprs: map<nat, set<object>>, branch: nat, updated: Option<set<object>>, all: set<object>)
    requires Apart(reprs) && forall b | b in reprs :: reprs[b] <= all
    requires updated.Some? ==> updated.value * all <= if branch in reprs then reprs[branch] else {}
    ensures Apart(Put(reprs, branch, updated))
  {
    var reprs' := Put(reprs, branch, updated);
    assert forall b | b in reprs' && b != branch :: b in reprs && reprs'[b] == reprs[b];
    forall a, b | a in reprs' && b in reprs' && a != b
      ensures reprs'[a] !! reprs'[b]
    {
      if a == branch {
        OtherApart(updated.value, reprs[b], all, if branch in reprs then reprs[branch] else {});
      } else if b == branch {
        OtherApart(updated.value, reprs[a], all, if branch in reprs then reprs[branch] else {});
      }
    }
  }

  lemma OtherApart(updated: set<object>, other: set<object>, all: set<object>, own: set<object>)
    requires updated * all <= own && other <= all && own !! other
    ensures updated !! other
  {
    forall o | o in updated && o in all
      ensures o !in other
    {
      assert o in updated * all;
    }
  }

  class Bucket<V> {
    var builderToken: nat
    var values: Entries<V>

    constructor (builderToken: nat, values: Entries<V>)
      ensures this.builderToken == builderToken && this.values == values
    {
      this.builderToken := builderToken;
      this.values := values;
    }
  }

  class Node<V> {
    var builderToken: nat
    var occupiedBranches: Bitmap
    var children: seq<Node<V>>
    var buckets: seq<Bucket<V>>
    ghost var M: Meaning<V>

    constructor Empty(builderToken: nat)
      ensures this.builderToken == builderToken && occupiedBranches == NO_BRANCHES
      ensures children == [] && buckets == [] && M == Nothing()
    {
      this.builderToken := builderToken;
      occupiedBranches := NO_BRANCHES;
      children, buckets := [], [];
      M := Nothing();
    }

    constructor Copy(source: Node<V>, builderToken: nat)
      ensures this.builderToken == builderToken && occupiedBranches == source.occupiedBranches
      ensures children == source.children && buckets == source.buckets && M == source.M
    {
      this.builderToken := builderToken;
      occupiedBranches := source.occupiedBranches;
      children, buckets := source.children, source.buckets;
      M := source.M;
    }

    /** The two compressed arrays, of which a node uses one, are what the meaning says. */
    ghost predicate ShowsLeaves()
      reads this
    {
      children == [] && Shows(occupiedBranches, buckets, M.leaves)
    }

    ghost predicate ShowsKids()
      reads this
    {
      buckets == [] && Shows(occupiedBranches, children, M.kids)
    }

    method StoreBucket(branch: nat, bucket: Option<Bucket<V>>, ghost meaning: Meaning<V>)
      requires branch < FANOUT && ShowsLeaves()
      requires meaning.leaves == Put(M.leaves, branch, bucket)
      modifies this`occupiedBranches, this`buckets, this`M
      ensures ShowsLeaves() && M == meaning
      ensures occupiedBranches == NO_BRANCHES <==> M.leaves == map[]
    {
      hide Shows;
      var installed := Installed(occupiedBranches, buckets, branch, bucket, M.leaves);
      occupiedBranches, buckets := installed.0, installed.1;
      M := meaning;
      ShowsEmpty(occupiedBranches, buckets, M.leaves);
    }

    method StoreChild(branch: nat, child: Option<Node<V>>, ghost meaning: Meaning<V>)
      requires branch < FANOUT && ShowsKids()
      requires meaning.kids == Put(M.kids, branch, child)
      modifies this`occupiedBranches, this`children, this`M
      ensures ShowsKids() && M == meaning
      ensures occupiedBranches == NO_BRANCHES <==> M.kids == map[]
    {
      hide Shows;
      var installed := Installed(occupiedBranches, children, branch, child, M.kids);
      occupiedBranches, children := installed.0, installed.1;
      M := meaning;
      ShowsEmpty(occupiedBranches, children, M.kids);
    }

    ghost predicate Means(contents: Entries<V>, repr: set<object>)
      reads this
    {
      M.contents == contents && M.repr == repr
    }
  }

  /** Well-formedness of the subtree at one level. */
  ghost predicate WellFormed<V>(node: Node<V>, hash: Hash, level: nat)
    reads node, node.M.repr
    decreases level
    ensures WellFormed(node, hash, level) ==> node in node.M.repr
  {
    var m := node.M;
    && node.occupiedBranches != NO_BRANCHES
    && if level == 0 then
         && LeafShape(m, node, hash) && node.ShowsLeaves()
         && forall b | b in m.leaves :: m.leaves[b].values == m.parts[b]
       else
         && InnerShape(m, node, hash, level) && node.ShowsKids()
         && forall b | b in m.kids :: m.kids[b].Means(m.parts[b], m.reprs[b]) && WellFormed(m.kids[b], hash, level - 1)
  }

  /** No empty node stays reachable. */
  lemma HasEntries<V>(node: Node<V>, hash: Hash, level: nat)
    requires WellFormed(node, hash, level)
    ensures node.M.contents != map[]
  {
    MergedEmptiness(node.M.contents, node.M.parts, hash, level);
    if level == 0 {
      ShowsEmpty(node.occupiedBranches, node.buckets, node.M.leaves);
    } else {
      ShowsEmpty(node.occupiedBranches, node.children, node.M.kids);
    }
  }

  ghost function MeaningOf<V>(node: Node?<V>): Meaning<V>
    reads node
  {
    if node == null then Nothing() else node.M
  }

  ghost function ContentsOf<V>(node: Node?<V>): Entries<V>
    reads node
  {
    MeaningOf(node).contents
  }

  ghost function ReprOf<V>(node: Node?<V>): set<object>
    reads node
  {
    MeaningOf(node).repr
  }

  ghost function ObjectSet(o: object?): set<object> {
    if o == null then {} else {o}
  }

  /** The nodes and buckets carrying the token are exactly the owned ones, and nothing owned hangs below
      a node that is not. */
  ghost predicate Tracked<V>(repr: set<object>, token: nat, owned: set<object>)
    reads repr
  {
    && (forall n: Node<V> | n in repr ::
          (n.builderToken == token <==> n in owned) && (n !in owned ==> n.M.repr !! owned))
    && (forall k: Bucket<V> | k in repr :: k.builderToken == token <==> k in owned)
  }

  /** A subtree, possibly absent, that the transaction holding the token may update, within a region that holds
      everything the transaction has ever reached. */
  ghost predicate Editable<V>(node: Node?<V>, hash: Hash, level: nat, token: nat, owned: set<object>,
                              region: set<object>)
    reads node, ReprOf(node), region
  {
    (node != null ==> WellFormed(node, hash, level)) && ReprOf(node) <= region && Tracked<V>(region, token, owned)
  }

  method EditableNode<V>(source: Node?<V>, token: nat) returns (result: Node<V>)
    ensures if source != null && source.builderToken == token then result == source else fresh(result)
    ensures result.builderToken == token && result.M == MeaningOf(source)
    ensures source == null ==> result.ShowsLeaves() && result.ShowsKids()
    ensures source != null ==>
              (source.ShowsLeaves() ==> result.ShowsLeaves()) && (source.ShowsKids() ==> result.ShowsKids())
  {
    EmptyShows<Node<V>>();
    EmptyShows<Bucket<V>>();
    if source != null && source.builderToken == token {
      return source;
    }
    if source == null {
      result := new Node.Empty(token);
    } else {
      result := new Node.Copy(source, token);
    }
  }

  /** The bucket an update writes: the transaction's own, or a copy carrying its token. */
  method UpdateBucket<V>(source: Bucket?<V>, key: string, value: Option<Pointer<V>>, token: nat)
    returns (result: Bucket<V>)
    modifies if source != null && source.builderToken == token then {source} else {}
    ensures if source != null && old(source.builderToken) == token then result == source else fresh(result)
    ensures result.builderToken == token
    ensures result.values == Put(if source == null then map[] else old(source.values), key, value)
  {
    if source != null && source.builderToken == token {
      result := source;
    } else {
      result := new Bucket(token, if source == null then map[] else source.values);
    }
    result.values := Put(result.values, key, value);
  }

  /** Stores an updated bucket in its node; a bucket left empty takes its branch with it. */
  method InstallBucket<V>(source: Node?<V>, branch: nat, bucket: Bucket<V>, token: nat, ghost hash: Hash,
                          ghost key: string, ghost value: Option<Pointer<V>>)
    returns (result: Node?<V>, ghost node: Node<V>)
    requires source != null ==> source.ShowsLeaves() && LeafShape(source.M, source, hash)
    requires branch == BranchForHash(hash(key), 0)
    requires var m := MeaningOf(source);
             && bucket.values == Put(if branch in m.parts then m.parts[branch] else map[], key, value)
             && forall b | b in m.leaves && b != branch :: m.leaves[b] != bucket
    modifies if source != null && source.builderToken == token then {source} else {}
    ensures node.builderToken == token
    ensures if source != null && old(source.builderToken) == token then node == source else fresh(node)
    ensures node.M == LeafAfter(old(MeaningOf(source)), node, branch, bucket, bucket.values, key, value)
    ensures node.ShowsLeaves() && LeafShape(node.M, node, hash) && node.M.leaves.Keys == node.M.parts.Keys
    ensures result == (if node.M.contents == map[] then null else node)
    ensures result != null ==> node.occupiedBranches != NO_BRANCHES
  {
    hide LeafShape, Shows, BranchForHash;
    var edited := EditableNode(source, token);
    node := edited;
    ghost var m := node.M;
    LeafShapeAfter(m, if source == null then node else source, node, branch, bucket, bucket.values, hash, key, value);
    edited.StoreBucket(branch, if bucket.values == map[] then None else Some(bucket),
                       LeafAfter(m, node, branch, bucket, bucket.values, key, value));
    result := if edited.occupiedBranches == NO_BRANCHES then null else edited;
  }

  /** Stores an updated child in its node; a child left empty takes its branch with it. */
  method InstallChild<V>(source: Node?<V>, branch: nat, updated: Node?<V>, token: nat, ghost hash: Hash,
                         ghost level: nat, ghost key: string, ghost value: Option<Pointer<V>>)
    returns (result: Node?<V>, ghost node: Node<V>)
    requires branch == BranchForHash(hash(key), level)
    requires source != null ==> source.ShowsKids() && InnerShape(source.M, source, hash, level)
    requires var m := MeaningOf(source);
             && ContentsOf(updated) == Put(if branch in m.parts then m.parts[branch] else map[], key, value)
             && ReprOf(updated) * m.repr <= (if branch in m.reprs then m.reprs[branch] else {})
    requires updated == null <==> ContentsOf(updated) == map[]
    requires updated != null ==> updated in ReprOf(updated)
    requires source !in ReprOf(updated)
    modifies if source != null && source.builderToken == token then {source} else {}
    ensures node.builderToken == token
    ensures if source != null && old(source.builderToken) == token then node == source else fresh(node)
    ensures node.M == InnerAfter(old(MeaningOf(source)), node, branch, if updated == null then None else Some(updated),
                                 old(ContentsOf(updated)), old(ReprOf(updated)), key, value)
    ensures node.ShowsKids() && InnerShape(node.M, node, hash, level)
            && node.M.kids.Keys == node.M.parts.Keys == node.M.reprs.Keys
    ensures result == (if node.M.contents == map[] then null else node)
    ensures result != null ==> node.occupiedBranches != NO_BRANCHES
  {
    hide InnerShape, Shows, BranchForHash;
    var edited := EditableNode(source, token);
    node := edited;
    ghost var m := node.M;
    var item := if updated == null then None else Some(updated);
    InnerShapeAfter(m, if source == null then node else source, node, branch, item, ContentsOf(updated),
                    ReprOf(updated), hash, level, key, value);
    edited.StoreChild(branch, item, InnerAfter(m, node, branch, item, ContentsOf(updated), ReprOf(updated), key,
                                               value));
    result := if edited.occupiedBranches == NO_BRANCHES then null else edited;
  }

  /** The bucket of a bottom node that a key belongs to; it is no other branch's bucket. */
  ghost predicate Located<V>(source: Node?<V>, hash: Hash, key: string, branch: nat, existing: Bucket?<V>)
    reads source, ReprOf(source)
  {
    var m := MeaningOf(source);
    && (source != null ==> source.ShowsLeaves() && LeafShape(source.M, source, hash))
    && branch == BranchForHash(hash(key), 0) && m.leaves.Keys == m.parts.Keys
    && (existing == null <==> branch !in m.leaves) && (existing != null ==> existing == m.leaves[branch])
    && (forall b | b in m.leaves ::
          m.leaves[b] in m.repr && m.leaves[b].values == m.parts[b] && (b != branch ==> m.leaves[b] != existing))
  }

  /** The bucket a key belongs to, and the value stored there. */
  method FindBucket<V>(source: Node?<V>, hash: Hash, key: string)
    returns (branch: nat, existing: Bucket?<V>, previous: Option<Pointer<V>>)
    requires source != null ==> WellFormed(source, hash, 0)
    ensures Located(source, hash, key, branch, existing) && previous == Get(ContentsOf(source), key)
  {
    hide Merged, Shows, BranchForHash;
    NothingMerged<V>(hash, 0);
    branch := BranchForHash(hash(key), 0);
    existing := null;
    ghost var m := MeaningOf(source);
    if source != null {
      ShowsAt(source.occupiedBranches, source.buckets, m.leaves, branch);
      if source.occupiedBranches[branch] {
        existing := source.buckets[BranchIndex(source.occupiedBranches, branch)];
      }
    }
    MergedLookup(m.contents, m.parts, hash, 0, key);
    previous := if existing == null then None else Get(existing.values, key);
  }

  /** Updating one key of a bottom node, in place or in a copy. */
  method UpdateLeaf<V(==)>(source: Node?<V>, hash: Hash, key: string, value: Option<Pointer<V>>, token: nat,
                           ghost owned: set<object>, ghost region: set<object>)
    returns (result: Node?<V>, previous: Option<Pointer<V>>, changed: bool, ghost owned': set<object>)
    requires Editable(source, hash, 0, token, owned, region)
    modifies owned * ReprOf(source)
    ensures owned <= owned' && fresh(owned' - owned)
    ensures previous == Get(old(ContentsOf(source)), key) && changed == (value != previous)
    ensures result != null ==> WellFormed(result, hash, 0)
    ensures Tracked<V>(region + ReprOf(result), token, owned')
    ensures ReprOf(result) <= old(ReprOf(source)) + (owned' - owned)
    ensures ContentsOf(result) == Put(old(ContentsOf(source)), key, value)
    ensures !changed ==> result == source && owned' == owned && unchanged(owned * ReprOf(source))
    ensures changed && result == source ==> source in owned
    ensures result == null <==> ContentsOf(result) == map[]
  {
    hide Editable, WellFormed, LeafShape, Shows, BranchForHash, Put, Get, Located;
    EditableIsValid(source, hash, 0, token, owned, region);
    var branch, existing;
    branch, existing, previous := FindBucket(source, hash, key);
    changed := value != previous;
    if !changed {
      PutUnchanged(MeaningOf(source).contents, key);
      assert region + ReprOf(source) == region;
      result, owned' := source, owned;
    } else {
      if source == null {
        NothingWrites(key, value);
      }
      result, owned' := FinishLeaf(source, hash, key, value, token, branch, existing, owned, region);
    }
  }

  lemma LocatedWithin<V>(source: Node?<V>, hash: Hash, key: string, branch: nat, existing: Bucket?<V>)
    requires Located(source, hash, key, branch, existing)
    ensures existing != null ==> existing in ReprOf(source)
  {
  }

  /** Writes a changed entry and claims the node and the bucket that record it. */
  method FinishLeaf<V(==)>(source: Node?<V>, hash: Hash, key: string, value: Option<Pointer<V>>, token: nat,
                           branch: nat, existing: Bucket?<V>, ghost owned: set<object>, ghost region: set<object>)
    returns (result: Node?<V>, ghost owned': set<object>)
    requires Located(source, hash, key, branch, existing) && Tracked<V>(region, token, owned)
    requires ReprOf(source) <= region && (source != null ==> source in ReprOf(source))
    modifies owned * ReprOf(source)
    ensures owned <= owned' && fresh(owned' - owned)
    ensures result != null ==> WellFormed(result, hash, 0)
    ensures Tracked<V>(region + ReprOf(result), token, owned')
    ensures ReprOf(result) <= old(ReprOf(source)) + (owned' - owned)
    ensures ContentsOf(result) == Put(old(ContentsOf(source)), key, value)
    ensures result == source ==> source in owned || source == null
    ensures result == null <==> ContentsOf(result) == map[]
  {
    hide WellFormed, LeafShape, Shows, BranchForHash, Put, Get, Located;
    ghost var node, bucket;
    LocatedWithin(source, hash, key, branch, existing);
    result, node, bucket := RewriteLeaf(source, hash, key, value, token, branch, existing, owned);
    owned' := owned + {node, bucket};
    forall n: Node<V> | n in region + ReprOf(result)
      ensures (n.builderToken == token <==> n in owned') && (n !in owned' ==> n.M.repr !! owned')
    {
      if n != node {
        assert n in region && n.M == old(n.M) && n.builderToken == old(n.builderToken);
        assert forall o | o in old(n.M).repr :: old(allocated(o));
      }
    }
    forall k: Bucket<V> | k in region + ReprOf(result)
      ensures k.builderToken == token <==> k in owned'
    {
      assert k != bucket ==> k in region && k.builderToken == old(k.builderToken);
    }
  }

  /** Copies or edits the node and the bucket a changed entry belongs to. */
  method RewriteLeaf<V(==)>(source: Node?<V>, hash: Hash, key: string, value: Option<Pointer<V>>, token: nat,
                            branch: nat, existing: Bucket?<V>, ghost owned: set<object>)
    returns (result: Node?<V>, ghost node: Node<V>, ghost bucket: Bucket<V>)
    requires Located(source, hash, key, branch, existing)
    requires source != null ==> (source.builderToken == token <==> source in owned)
    requires existing != null ==> (existing.builderToken == token <==> existing in owned)
    modifies owned * ObjectSet(source), owned * ObjectSet(existing)
    ensures node.builderToken == token && bucket.builderToken == token
    ensures if source in owned then node == source else fresh(node)
    ensures if existing in owned then bucket == existing else fresh(bucket)
    ensures result != null ==> result == node && WellFormed(result, hash, 0)
    ensures node.M.repr == old(ReprOf(source)) + {node, bucket}
    ensures node.M.contents == Put(old(ContentsOf(source)), key, value)
    ensures result == null <==> node.M.contents == map[]
  {
    hide WellFormed, LeafShape, Shows, BranchForHash, Put;
    ghost var m := MeaningOf(source);
    var written := UpdateBucket(existing, key, value, token);
    bucket := written;
    assert forall b | b in m.leaves && b != branch :: m.leaves[b].values == m.parts[b] && m.leaves[b] != bucket;
    result, node := RecordBucket(source, branch, written, token, hash, key, value);
  }

  /** Records an updated bucket; the other buckets stand. */
  method RecordBucket<V(==)>(source: Node?<V>, branch: nat, bucket: Bucket<V>, token: nat, ghost hash: Hash,
                             ghost key: string, ghost value: Option<Pointer<V>>)
    returns (result: Node?<V>, ghost node: Node<V>)
    requires source != null ==> source.ShowsLeaves() && LeafShape(source.M, source, hash)
    requires branch == BranchForHash(hash(key), 0)
    requires var m := MeaningOf(source);
             && m.leaves.Keys == m.parts.Keys
             && bucket.values == Put(if branch in m.parts then m.parts[branch] else map[], key, value)
             && forall b | b in m.leaves && b != branch :: m.leaves[b] != bucket && m.leaves[b].values == m.parts[b]
    modifies if source != null && source.builderToken == token then {source} else {}
    ensures node.builderToken == token
    ensures if source != null && old(source.builderToken) == token then node == source else fresh(node)
    ensures result != null ==> result == node && WellFormed(result, hash, 0)
    ensures node.M.repr == old(ReprOf(source)) + {node, bucket}
    ensures node.M.contents == Put(old(ContentsOf(source)), key, value)
    ensures result == null <==> node.M.contents == map[]
  {
    hide WellFormed, LeafShape, LeafAfter, Shows, BranchForHash, Put;
    ghost var m := MeaningOf(source);
    result, node := InstallBucket(source, branch, bucket, token, hash, key, value);
    LeafAfterParts(m, node, branch, bucket, bucket.values, key, value);
    if result != null {
      LeafIsValid(node, hash);
    }
  }

  lemma LeafIsValid<V>(node: Node<V>, hash: Hash)
    requires node.occupiedBranches != NO_BRANCHES && LeafShape(node.M, node, hash) && node.ShowsLeaves()
    requires node.M.leaves.Keys == node.M.parts.Keys
    requires forall b | b in node.M.leaves :: node.M.leaves[b].values == node.M.parts[b]
    ensures WellFormed(node, hash, 0)
  {
  }

  lemma LeafAfterParts<V>(m: Meaning<V>, self: object, branch: nat, bucket: Bucket<V>, part: Entries<V>,
                          key: string, value: Option<Pointer<V>>)
    requires m.leaves.Keys == m.parts.Keys
    ensures var m' := LeafAfter(m, self, branch, bucket, part, key, value);
            && m'.contents == Put(m.contents, key, value) && m'.repr == m.repr + {self, bucket}
            && (forall b | b in m'.leaves ::
                  && b in m'.parts && (b == branch ==> m'.leaves[b] == bucket && m'.parts[b] == part)
                  && (b != branch ==> b in m.leaves && m'.leaves[b] == m.leaves[b] && m'.parts[b] == m.parts[b]))
  {
  }

  /** The other children of a node, as its meaning has them. */
  ghost predicate SiblingsStand<V>(m: Meaning<V>, hash: Hash, level: nat, branch: nat)
    requires level > 0
    reads m.kids.Values, m.repr
  {
    && m.kids.Keys == m.parts.Keys == m.reprs.Keys
    && forall b | b in m.kids && b != branch ::
         && m.reprs[b] <= m.repr && m.kids[b] in m.reprs[b] && m.kids[b].Means(m.parts[b], m.reprs[b])
         && WellFormed(m.kids[b], hash, level - 1)
  }

  /** The child a key belongs below. */
  method FindChild<V>(source: Node?<V>, hash: Hash, level: nat, key: string) returns (branch: nat, child: Node?<V>)
    requires level > 0 && (source != null ==> WellFormed(source, hash, level))
    ensures branch == BranchForHash(hash(key), level)
    ensures Get(ContentsOf(source), key) == Get(ContentsOf(child), key)
    ensures var m := MeaningOf(source);
            && SiblingsStand(m, hash, level, branch)
            && (child == null <==> branch !in m.kids)
            && ContentsOf(child) == (if branch in m.parts then m.parts[branch] else map[])
            && ReprOf(child) == (if branch in m.reprs then m.reprs[branch] else {})
            && (child != null ==> child == m.kids[branch] && WellFormed(child, hash, level - 1))
    ensures source != null ==> source.ShowsKids() && InnerShape(source.M, source, hash, level)
    ensures var m := MeaningOf(source);
            forall b | b in m.kids && b != branch :: source !in m.reprs[b] && m.reprs[b] !! ReprOf(child)
  {
    hide Merged, Shows, BranchForHash;
    NothingMerged<V>(hash, level);
    branch := BranchForHash(hash(key), level);
    child := null;
    ghost var m := MeaningOf(source);
    if source != null {
      ShowsAt(source.occupiedBranches, source.children, m.kids, branch);
      if source.occupiedBranches[branch] {
        child := source.children[BranchIndex(source.occupiedBranches, branch)];
      }
    }
    MergedLookup(m.contents, m.parts, hash, level, key);
  }

  /** A child inherits its parent's ownership discipline; an owned child has an owned parent. */
  lemma EditableChild<V>(source: Node?<V>, child: Node?<V>, hash: Hash, level: nat, branch: nat, token: nat,
                         owned: set<object>, region: set<object>)
    requires level > 0 && Editable(source, hash, level, token, owned, region)
    requires branch in MeaningOf(source).kids <==> child != null
    requires child != null ==> child == MeaningOf(source).kids[branch]
    ensures Editable(child, hash, level - 1, token, owned, region)
    ensures ReprOf(child) <= ReprOf(source) && source !in ReprOf(child)
    ensures child != null ==> child in ReprOf(child) && (source !in owned ==> ReprOf(child) !! owned)
  {
    hide Merged, Shows;
  }

  /** Records an updated child: nothing to store when it was edited in place. */
  method AdoptChild<V(==)>(source: Node?<V>, branch: nat, child: Node?<V>, updated: Node?<V>, token: nat,
                           ghost hash: Hash, ghost level: nat, ghost key: string, ghost value: Option<Pointer<V>>)
    returns (result: Node?<V>, ghost node: Node<V>)
    requires branch == BranchForHash(hash(key), level)
    requires source != null ==> source.ShowsKids() && InnerShape(source.M, source, hash, level)
    requires var m := MeaningOf(source);
             && m.kids.Keys == m.parts.Keys == m.reprs.Keys
             && (child != null <==> branch in m.kids) && (child != null ==> child == m.kids[branch])
             && ContentsOf(updated) == Put(if branch in m.parts then m.parts[branch] else map[], key, value)
             && ReprOf(updated) * m.repr <= (if branch in m.reprs then m.reprs[branch] else {})
    requires updated == null <==> ContentsOf(updated) == map[]
    requires updated != null ==> updated in ReprOf(updated)
    requires source !in ReprOf(updated)
    requires updated == child ==> child != null && source != null && source.builderToken == token
    modifies if source != null && source.builderToken == token then {source} else {}
    ensures node.builderToken == token
    ensures if source != null && old(source.builderToken) == token then node == source else fresh(node)
    ensures node.ShowsKids() && InnerShape(node.M, node, hash, level)
            && node.M.kids.Keys == node.M.parts.Keys == node.M.reprs.Keys
    ensures forall b | b in node.M.kids && b == branch ::
              node.M.kids[b] == updated && node.M.parts[b] == old(ContentsOf(updated))
                  && node.M.reprs[b] == old(ReprOf(updated))
    ensures forall b | b in node.M.kids && b != branch ::
              var m := old(MeaningOf(source));
              b in m.kids && node.M.kids[b] == m.kids[b] && node.M.parts[b] == m.parts[b]
                  && node.M.reprs[b] == m.reprs[b]
    ensures node.M.repr == old(ReprOf(source)) + {node} + old(ReprOf(updated))
    ensures node.M.contents == Put(old(ContentsOf(source)), key, value)
    ensures result == (if node.M.contents == map[] then null else node)
    ensures result != null ==> node.occupiedBranches != NO_BRANCHES
  {
    hide InnerShape, InnerAfter, Shows, BranchForHash, Put, Get, Merged;
    ghost var m := MeaningOf(source);
    ghost var item := if updated == null then None else Some(updated);
    ghost var part, repr := ContentsOf(updated), ReprOf(updated);
    if updated == child {
      result, node := source, source;
      ShowsEmpty(source.occupiedBranches, source.children, m.kids);
      assert m.kids != map[];
      InnerShapeAfter(m, source, source, branch, item, part, repr, hash, level, key, value);
      source.M := InnerAfter(m, source, branch, item, part, repr, key, value);
    } else {
      result, node := InstallChild(source, branch, updated, token, hash, level, key, value);
    }
    InnerAfterParts(m, node, branch, item, part, repr, key, value);
  }

  /** What the recursive step leaves behind: an updated child that its parent has not recorded yet, while
      the parent and its other children stand. */
  ghost predicate Adoptable<V>(source: Node?<V>, hash: Hash, level: nat, key: string, value: Option<Pointer<V>>,
                               branch: nat, child: Node?<V>, updated: Node?<V>)
    requires level > 0
    reads source, ReprOf(source), updated, ReprOf(updated)
  {
    var m := MeaningOf(source);
    && branch == BranchForHash(hash(key), level)
    && (source != null ==> source.ShowsKids() && InnerShape(source.M, source, hash, level))
    && SiblingsStand(m, hash, level, branch) && (forall b | b in m.kids && b != branch :: source !in m.reprs[b])
    && (child != null <==> branch in m.kids) && (child != null ==> child == m.kids[branch])
    && ContentsOf(updated) == Put(if branch in m.parts then m.parts[branch] else map[], key, value)
    && ReprOf(updated) * m.repr <= (if branch in m.reprs then m.reprs[branch] else {})
    && (updated == null <==> ContentsOf(updated) == map[])
    && (updated != null ==> WellFormed(updated, hash, level - 1) && source !in ReprOf(updated))
  }

  /** Records an updated child; the other children stand. */
  method RewriteInner<V(==)>(source: Node?<V>, hash: Hash, level: nat, key: string, value: Option<Pointer<V>>,
                             token: nat, branch: nat, child: Node?<V>, updated: Node?<V>, ghost owned: set<object>)
    returns (result: Node?<V>, ghost node: Node<V>)
    requires level > 0 && Adoptable(source, hash, level, key, value, branch, child, updated)
    requires source != null ==> (source.builderToken == token <==> source in owned)
    requires updated == child ==> child != null && source in owned
    modifies owned * ObjectSet(source)
    ensures node.builderToken == token
    ensures if source in owned then node == source else fresh(node)
    ensures result != null ==> result == node && WellFormed(result, hash, level)
    ensures node.M.repr == old(ReprOf(source)) + {node} + old(ReprOf(updated))
    ensures node.M.contents == Put(old(ContentsOf(source)), key, value)
    ensures result == null <==> node.M.contents == map[]
  {
    hide WellFormed, InnerShape, Shows, BranchForHash, Put, Get, Merged;
    ghost var m := MeaningOf(source);
    result, node := AdoptChild(source, branch, child, updated, token, hash, level, key, value);
    forall b | b in m.kids && b != branch
      ensures m.kids[b].Means(m.parts[b], m.reprs[b]) && WellFormed(m.kids[b], hash, level - 1)
    {
      assert old(m.kids[b].Means(m.parts[b], m.reprs[b])) && old(WellFormed(m.kids[b], hash, level - 1));
    }
    if result != null {
      assert updated != null ==> WellFormed(updated, hash, level - 1);
      InnerIsValid(node, m, updated, branch, hash, level);
    }
  }

  /** A node that has the children of a former meaning, but for an updated one. */
  lemma InnerIsValid<V>(node: Node<V>, m: Meaning<V>, updated: Node?<V>, branch: nat, hash: Hash, level: nat)
    requires level > 0 && node.occupiedBranches != NO_BRANCHES && InnerShape(node.M, node, hash, level)
             && node.ShowsKids()
    requires m.kids.Keys == m.parts.Keys == m.reprs.Keys
    requires forall b | b in node.M.kids && b == branch ::
               && node.M.kids[b] == updated && node.M.parts[b] == ContentsOf(updated)
               && node.M.reprs[b] == ReprOf(updated)
    requires forall b | b in node.M.kids && b != branch ::
               && b in m.kids && node.M.kids[b] == m.kids[b] && node.M.parts[b] == m.parts[b]
               && node.M.reprs[b] == m.reprs[b]
    requires updated != null ==> WellFormed(updated, hash, level - 1)
    requires forall b | b in m.kids && b != branch ::
               m.kids[b].Means(m.parts[b], m.reprs[b]) && WellFormed(m.kids[b], hash, level - 1)
    ensures WellFormed(node, hash, level)
  {
    hide Shows, BranchForHash, Merged, Apart;
    assert forall b | b in node.M.kids && b != branch :: m.kids[b].Means(m.parts[b], m.reprs[b]);
  }

  lemma InnerAfterParts<V>(m: Meaning<V>, self: object, branch: nat, child: Option<Node<V>>, part: Entries<V>,
                           repr: set<object>, key: string, value: Option<Pointer<V>>)
    requires m.kids.Keys == m.parts.Keys == m.reprs.Keys
    ensures var m' := InnerAfter(m, self, branch, child, part, repr, key, value);
            && m'.contents == Put(m.contents, key, value) && m'.repr == m.repr + {self} + repr
            && (child.Some? && branch in m.kids && m.kids[branch] == child.value ==> m'.kids == m.kids)
            && (forall b | b in m'.kids ::
                  && b in m'.parts && b in m'.reprs
                  && (b == branch ==> Some(m'.kids[b]) == child && m'.parts[b] == part && m'.reprs[b] == repr)
                  && (b != branch ==>
                        && b in m.kids && m'.kids[b] == m.kids[b] && m'.parts[b] == m.parts[b]
                        && m'.reprs[b] == m.reprs[b]))
  {
  }

  /** The recursive step of an update: the child a key belongs below is updated, everything else stands. */
  method UpdateBelow<V(==)>(source: Node?<V>, hash: Hash, level: nat, key: string, value: Option<Pointer<V>>,
                            token: nat, ghost owned: set<object>, ghost region: set<object>)
    returns (branch: nat, child: Node?<V>, updated: Node?<V>, previous: Option<Pointer<V>>, changed: bool,
             ghost owned': set<object>, ghost below: set<object>)
    requires level > 0 && Editable(source, hash, level, token, owned, region)
    modifies owned * (ReprOf(source) - ObjectSet(source))
    ensures owned <= owned' && fresh(owned' - owned)
    ensures previous == Get(ContentsOf(source), key) && changed == (value != previous)
    ensures !changed ==> updated == child && owned' == owned && unchanged(owned * ReprOf(source))
    ensures Adoptable(source, hash, level, key, value, branch, child, updated)
    ensures changed && updated == child ==> child != null && source in owned
    ensures ReprOf(updated) <= below + (owned' - owned) && below <= ReprOf(source) && source !in below
    ensures Tracked<V>(region + ReprOf(updated), token, owned')
    decreases level, 0
  {
    hide WellFormed, InnerShape, Shows, BranchForHash, Put, Get, Merged, Editable, Tracked, SiblingsStand;
    EditableIsValid(source, hash, level, token, owned, region);
    branch, child := FindChild(source, hash, level, key);
    ghost var m := MeaningOf(source);
    EditableChild(source, child, hash, level, branch, token, owned, region);
    below := ReprOf(child);
    updated, previous, changed, owned' := UpdateChild(m, child, hash, level, branch, key, value, token, owned, region);
    if child == null {
      NothingWrites(key, value);
    }
    assert ReprOf(updated) * m.repr <= below by {
      assert forall o | o in m.repr :: old(allocated(o));
    }
  }

  /** The child is updated, and its siblings stand. */
  method UpdateChild<V(==)>(ghost m: Meaning<V>, child: Node?<V>, hash: Hash, level: nat, ghost branch: nat,
                            key: string,
                            value: Option<Pointer<V>>, token: nat, ghost owned: set<object>, ghost region: set<object>)
    returns (updated: Node?<V>, previous: Option<Pointer<V>>, changed: bool, ghost owned': set<object>)
    requires level > 0 && Editable(child, hash, level - 1, token, owned, region)
    requires SiblingsStand(m, hash, level, branch)
    requires forall b | b in m.kids && b != branch :: m.reprs[b] !! ReprOf(child)
    modifies owned * ReprOf(child)
    ensures SiblingsStand(m, hash, level, branch)
    ensures owned <= owned' && fresh(owned' - owned)
    ensures previous == Get(old(ContentsOf(child)), key) && changed == (value != previous)
    ensures updated != null ==> WellFormed(updated, hash, level - 1)
    ensures Tracked<V>(region + ReprOf(updated), token, owned')
    ensures ReprOf(updated) <= old(ReprOf(child)) + (owned' - owned)
    ensures ContentsOf(updated) == Put(old(ContentsOf(child)), key, value)
    ensures !changed ==> updated == child && owned' == owned && unchanged(owned * ReprOf(child))
    ensures changed && updated == child ==> child in owned
    ensures updated == null <==> ContentsOf(updated) == map[]
    decreases level - 1, 3
  {
    hide WellFormed, Put, Get, Editable, Tracked;
    updated, previous, changed, owned' := UpdateNode(child, hash, level - 1, key, value, token, owned, region);
    forall b | b in m.kids && b != branch
      ensures m.kids[b].Means(m.parts[b], m.reprs[b]) && WellFormed(m.kids[b], hash, level - 1)
    {
      assert old(m.kids[b].Means(m.parts[b], m.reprs[b])) && old(WellFormed(m.kids[b], hash, level - 1));
    }
  }

  /** Updating one key below an inner node. */
  method UpdateInner<V(==)>(source: Node?<V>, hash: Hash, level: nat, key: string, value: Option<Pointer<V>>,
                            token: nat, ghost owned: set<object>, ghost region: set<object>)
    returns (result: Node?<V>, previous: Option<Pointer<V>>, changed: bool, ghost owned': set<object>)
    requires level > 0 && Editable(source, hash, level, token, owned, region)
    modifies owned * ReprOf(source)
    ensures owned <= owned' && fresh(owned' - owned)
    ensures previous == Get(old(ContentsOf(source)), key) && changed == (value != previous)
    ensures result != null ==> WellFormed(result, hash, level)
    ensures Tracked<V>(region + ReprOf(result), token, owned')
    ensures ReprOf(result) <= old(ReprOf(source)) + (owned' - owned)
    ensures ContentsOf(result) == Put(old(ContentsOf(source)), key, value)
    ensures !changed ==> result == source && owned' == owned && unchanged(owned * ReprOf(source))
    ensures changed && result == source ==> source in owned
    ensures result == null <==> ContentsOf(result) == map[]
    decreases level, 1
  {
    hide WellFormed, InnerShape, Shows, BranchForHash, Put, Get, Merged, Editable, Adoptable;
    EditableIsValid(source, hash, level, token, owned, region);
    ghost var m := MeaningOf(source);
    ghost var below;
    var branch, child, updated;
    branch, child, updated, previous, changed, owned', below :=
        UpdateBelow(source, hash, level, key, value, token, owned, region);
    assert source != null ==> unchanged(source);
    if !changed {
      // The child came back itself: the pointer test answers the source.
      PutUnchanged(m.contents, key);
      assert region + m.repr == region;
      result := source;
    } else {
      if source == null {
        NothingWrites(key, value);
      }
      result, owned' := FinishInner(source, hash, level, key, value, token, branch, child, updated, owned, owned',
                                    region);
    }
  }

  /** Records an updated child and claims the node that records it. */
  method FinishInner<V(==)>(source: Node?<V>, hash: Hash, level: nat, key: string, value: Option<Pointer<V>>,
                            token: nat, branch: nat, child: Node?<V>, updated: Node?<V>, ghost owned: set<object>,
                            ghost below: set<object>, ghost region: set<object>)
    returns (result: Node?<V>, ghost owned': set<object>)
    requires level > 0 && Adoptable(source, hash, level, key, value, branch, child, updated)
    requires updated == child ==> child != null && source in owned
    requires Tracked<V>(region + ReprOf(updated), token, below)
    requires ReprOf(source) <= region && owned <= below && (source in below ==> source in owned)
    requires source != null ==> source in ReprOf(source)
    modifies owned * ObjectSet(source)
    ensures below <= owned' && fresh(owned' - below)
    ensures result != null ==> WellFormed(result, hash, level)
    ensures Tracked<V>(region + ReprOf(result), token, owned')
    ensures ReprOf(result) <= old(ReprOf(source)) + old(ReprOf(updated)) + (owned' - below)
    ensures ContentsOf(result) == Put(old(ContentsOf(source)), key, value)
    ensures result == source ==> source in owned || source == null
    ensures result == null <==> ContentsOf(result) == map[]
  {
    hide WellFormed, InnerShape, Shows, BranchForHash, Put, Get, Merged, Editable, Adoptable;
    ghost var node;
    ghost var moved := region + ReprOf(updated);
    result, node := RewriteInner(source, hash, level, key, value, token, branch, child, updated, owned);
    owned' := below + {node};
    forall n: Node<V> | n in region + ReprOf(result)
      ensures (n.builderToken == token <==> n in owned') && (n !in owned' ==> n.M.repr !! owned')
    {
      if n != node {
        assert n in moved && n.M == old(n.M) && n.builderToken == old(n.builderToken);
        assert forall o | o in old(n.M).repr :: old(allocated(o));
      }
    }
    forall k: Bucket<V> | k in region + ReprOf(result)
      ensures k.builderToken == token <==> k in owned'
    {
      assert k in moved && k.builderToken == old(k.builderToken);
    }
  }

  /** Only writing nothing leaves an empty map empty. */
  lemma NothingWrites<V>(key: string, value: Option<Pointer<V>>)
    ensures Put(map[], key, value) == map[] ==> value == Get<string, Pointer<V>>(map[], key)
  {
  }

  /** What a transaction owns may be narrowed to what it can reach. */
  lemma EditableWithin<V>(node: Node?<V>, hash: Hash, level: nat, token: nat, owned: set<object>, region: set<object>)
    requires (node != null ==> WellFormed(node, hash, level)) && ReprOf(node) <= region
             && Tracked<V>(region, token, owned)
    ensures Editable(node, hash, level, token, owned * region, region)
  {
    forall n: Node<V> | n in region && n !in owned * region
      ensures n.M.repr !! owned * region
    {
      assert n !in owned;
    }
  }

  lemma EditableIsValid<V>(source: Node?<V>, hash: Hash, level: nat, token: nat, owned: set<object>,
                           region: set<object>)
    requires Editable(source, hash, level, token, owned, region)
    ensures source != null ==> WellFormed(source, hash, level)
    ensures ReprOf(source) <= region && Tracked<V>(region, token, owned)
    ensures source == null <==> ContentsOf(source) == map[]
  {
    if source != null {
      HasEntries(source, hash, level);
    }
  }

  method UpdateNode<V(==)>(source: Node?<V>, hash: Hash, level: nat, key: string, value: Option<Pointer<V>>, token: nat,
                           ghost owned: set<object>, ghost region: set<object>)
    returns (result: Node?<V>, previous: Option<Pointer<V>>, changed: bool, ghost owned': set<object>)
    requires Editable(source, hash, level, token, owned, region)
    modifies owned * ReprOf(source)
    ensures owned <= owned' && fresh(owned' - owned)
    ensures previous == Get(old(ContentsOf(source)), key) && changed == (value != previous)
    ensures result != null ==> WellFormed(result, hash, level)
    ensures Tracked<V>(region + ReprOf(result), token, owned')
    ensures ReprOf(result) <= old(ReprOf(source)) + (owned' - owned)
    ensures ContentsOf(result) == Put(old(ContentsOf(source)), key, value)
    ensures !changed ==> result == source && owned' == owned && unchanged(owned * ReprOf(source))
    ensures changed && result == source ==> source in owned
    ensures result == null <==> ContentsOf(result) == map[]
    decreases level, 2
  {
    if level > 0 {
      result, previous, changed, owned' := UpdateInner(source, hash, level, key, value, token, owned, region);
    } else {
      result, previous, changed, owned' := UpdateLeaf(source, hash, key, value, token, owned, region);
    }
  }
}
