/** The published string map, its lookups, its enumeration, its equality, and the transaction that builds
    the next version. */
module StringMap {
  import opened Wrappers
  import opened SparseBranches
  import opened StringTrie

  /** The value stored under a key, found by walking one branch per level. */
  method ValueInRoot<V>(root: Node?<V>, hash: Hash, key: string) returns (value: Option<Pointer<V>>)
    requires root != null ==> WellFormed(root, hash, LEVELS - 1)
    ensures value == Get(ContentsOf(root), key)
  {
    hide WellFormed, Shows, InnerShape, BranchForHash;
    var node := root;
    for level := LEVELS - 1 downto 0
      invariant node != null ==> WellFormed(node, hash, level)
      invariant Get(ContentsOf(root), key) == Get(ContentsOf(node), key)
    {
      if node == null {
        return None;
      }
      var branch;
      branch, node := FindChild(node, hash, level + 1, key);
    }
    var branch, bucket;
    branch, bucket, value := FindBucket(node, hash, key);
  }

  /** A sequence that lists every entry exactly once. */
  ghost predicate Lists<V>(visited: seq<(string, V)>, entries: map<string, V>) {
    && (forall i :: 0 <= i < |visited| ==> visited[i].0 in entries && entries[visited[i].0] == visited[i].1)
    && (forall i, j :: 0 <= i < j < |visited| ==> visited[i].0 != visited[j].0)
    && |visited| == |entries|
  }

  lemma ListsTogether<V>(first: seq<(string, V)>, some: map<string, V>, second: seq<(string, V)>,
                         others: map<string, V>)
    requires Lists(first, some) && Lists(second, others) && some.Keys !! others.Keys
    ensures Lists(first + second, some + others)
  {
    assert (some + others).Keys == some.Keys + others.Keys;
    assert |some + others| == |some.Keys| + |others.Keys|;
  }

  /** Every stored key appears in a listing. */
  lemma ListsAll<V>(visited: seq<(string, V)>, entries: map<string, V>, key: string)
    requires Lists(visited, entries)
    ensures key in entries <==> exists i :: 0 <= i < |visited| && visited[i].0 == key
  {
    if key in entries && forall i :: 0 <= i < |visited| ==> visited[i].0 != key {
      ListedAtMost(visited, entries - {key});
    }
  }

  lemma ListsOnly<V>(visited: seq<(string, V)>, entries: map<string, V>)
    requires Lists(visited, entries)
    ensures forall i :: 0 <= i < |visited| ==> visited[i].0 in entries && entries[visited[i].0] == visited[i].1
  {
  }

  lemma {:induction false} ListedAtMost<V>(visited: seq<(string, V)>, entries: map<string, V>)
    requires forall i :: 0 <= i < |visited| ==> visited[i].0 in entries
    requires forall i, j :: 0 <= i < j < |visited| ==> visited[i].0 != visited[j].0
    ensures |visited| <= |entries|
  {
    if visited != [] {
      ListedAtMost(visited[1..], entries - {visited[0].0});
      assert (entries - {visited[0].0}).Keys == entries.Keys - {visited[0].0};
    }
  }

  /** The entries whose branches are stored before one array position. */
  ghost function EntriesBefore<V>(entries: Entries<V>, hash: Hash, level: nat, bitmap: Bitmap,
                                  position: nat): Entries<V> {
    map key | key in entries && SetBitsBelow(bitmap, BranchForHash(hash(key), level)) < position :: entries[key]
  }

  /** Array position by array position, the parts of a node add up to its entries. */
  lemma NextPart<V>(entries: Entries<V>, parts: map<nat, Entries<V>>, hash: Hash, level: nat, bitmap: Bitmap,
                    position: nat)
    returns (branch: nat)
    requires Merged(entries, parts, hash, level) && (forall b: nat :: b in parts <==> b < FANOUT && Occupied(bitmap, b))
    requires position < Popcount(bitmap)
    ensures branch < FANOUT && Occupied(bitmap, branch) && BranchIndex(bitmap, branch) == position && branch in parts
    ensures var before := EntriesBefore(entries, hash, level, bitmap, position);
            && before.Keys !! parts[branch].Keys
            && EntriesBefore(entries, hash, level, bitmap, position + 1) == before + parts[branch]
  {
    hide BranchForHash, SetBitsBelow, Merged;
    branch := EveryPositionHasABranch(bitmap, position, FANOUT);
    RankInRange(bitmap, branch);
    var before, after := EntriesBefore(entries, hash, level, bitmap, position),
        EntriesBefore(entries, hash, level, bitmap, position + 1);
    forall key
      ensures key in after <==> key in before || key in parts[branch]
      ensures !(key in before && key in parts[branch])
      ensures key in parts[branch] ==> key in entries && parts[branch][key] == entries[key]
    {
      OnePart(entries, parts, hash, level, bitmap, branch, key);
    }
  }

  /** A key is in the part of a branch exactly when its own branch has the same rank. */
  lemma OnePart<V>(entries: Entries<V>, parts: map<nat, Entries<V>>, hash: Hash, level: nat, bitmap: Bitmap,
                   branch: nat, key: string)
    requires Merged(entries, parts, hash, level) && (forall b: nat :: b in parts <==> b < FANOUT && Occupied(bitmap, b))
    requires branch in parts
    ensures key in parts[branch] <==>
            key in entries && SetBitsBelow(bitmap, BranchForHash(hash(key), level)) == SetBitsBelow(bitmap, branch)
    ensures key in parts[branch] ==> parts[branch][key] == entries[key]
  {
    hide BranchForHash, SetBitsBelow;
    var b := BranchForHash(hash(key), level);
    MergedLookup(entries, parts, hash, level, key);
    if b in parts && b != branch {
      RankInRange(bitmap, b);
      RankInRange(bitmap, branch);
      DistinctBranchesDistinctPositions(bitmap, b, branch);
    }
  }

  lemma AllParts<V>(entries: Entries<V>, parts: map<nat, Entries<V>>, hash: Hash, level: nat, bitmap: Bitmap)
    requires Merged(entries, parts, hash, level) && (forall b: nat :: b in parts <==> b < FANOUT && Occupied(bitmap, b))
    ensures EntriesBefore(entries, hash, level, bitmap, 0) == map[]
    ensures EntriesBefore(entries, hash, level, bitmap, Popcount(bitmap)) == entries
  {
    forall key | key in entries
      ensures SetBitsBelow(bitmap, BranchForHash(hash(key), level)) < Popcount(bitmap)
    {
      assert Get(entries, key).Some?;
      RankInRange(bitmap, BranchForHash(hash(key), level));
    }
  }

  method VisitBucket<V>(bucket: Bucket<V>) returns (visited: seq<(string, Pointer<V>)>)
    ensures Lists(visited, bucket.values)
  {
    hide Lists;
    visited := [];
    var remaining := bucket.values;
    NothingListed<Pointer<V>>();
    assert bucket.values - remaining.Keys == map[];
    while remaining != map[]
      invariant remaining.Keys <= bucket.values.Keys
                && forall key | key in remaining :: remaining[key] == bucket.values[key]
      invariant Lists(visited, bucket.values - remaining.Keys)
      decreases remaining.Keys
    {
      var key :| key in remaining;
      ghost var done := bucket.values - remaining.Keys;
      ListsOneMore(visited, done, key, remaining[key]);
      visited := visited + [(key, remaining[key])];
      remaining := remaining - {key};
      assert bucket.values - remaining.Keys == done[key := bucket.values[key]];
    }
    assert bucket.values - remaining.Keys == bucket.values;
  }

  lemma NothingListed<V>()
    ensures Lists<V>([], map[])
  {
  }

  lemma ListsOneMore<V>(visited: seq<(string, V)>, entries: map<string, V>, key: string, value: V)
    requires Lists(visited, entries) && key !in entries
    ensures Lists(visited + [(key, value)], entries[key := value])
  {
  }

  /** Visits the entries of a node, bucket by bucket, in array order. */
  method VisitNode<V>(node: Node?<V>, level: nat, ghost hash: Hash) returns (visited: seq<(string, Pointer<V>)>)
    requires node != null ==> WellFormed(node, hash, level)
    ensures Lists(visited, ContentsOf(node))
    decreases level
  {
    if node == null {
      visited := [];
    } else if level > 0 {
      visited := VisitChildren(node, level, hash);
    } else {
      visited := VisitBuckets(node, hash);
    }
  }

  method VisitChildren<V>(node: Node<V>, level: nat, ghost hash: Hash) returns (visited: seq<(string, Pointer<V>)>)
    requires level > 0 && WellFormed(node, hash, level)
    ensures Lists(visited, node.M.contents)
    decreases level, 1
  {
    hide Lists, Merged, EntriesBefore, WellFormed, SetBitsBelow, InnerShape, LeafShape, Shows;
    ghost var m, bitmap := node.M, node.occupiedBranches;
    PartsAreOccupied(node, hash, level);
    AllParts(m.contents, m.parts, hash, level, bitmap);
    NothingListed<Pointer<V>>();
    visited := [];
    for i := 0 to |node.children|
      invariant Lists(visited, EntriesBefore(m.contents, hash, level, bitmap, i))
    {
      visited := VisitChild(node, level, hash, i, visited);
    }
  }

  method VisitChild<V>(node: Node<V>, level: nat, ghost hash: Hash, i: nat, earlier: seq<(string, Pointer<V>)>)
    returns (visited: seq<(string, Pointer<V>)>)
    requires level > 0 && i < |node.children| && WellFormed(node, hash, level)
    requires Lists(earlier, EntriesBefore(node.M.contents, hash, level, node.occupiedBranches, i))
    ensures Lists(visited, EntriesBefore(node.M.contents, hash, level, node.occupiedBranches, i + 1))
    decreases level, 0
  {
    hide Lists, Merged, EntriesBefore, WellFormed, SetBitsBelow, InnerShape, LeafShape, Shows;
    ghost var m, bitmap := node.M, node.occupiedBranches;
    PartsAreOccupied(node, hash, level);
    ghost var branch := NextPart(m.contents, m.parts, hash, level, bitmap, i);
    ChildAt(node, hash, level, branch);
    var more := VisitNode(node.children[i], level - 1, hash);
    ListsTogether(earlier, EntriesBefore(m.contents, hash, level, bitmap, i), more, m.parts[branch]);
    visited := earlier + more;
  }

  lemma PartsAreOccupied<V>(node: Node<V>, hash: Hash, level: nat)
    requires WellFormed(node, hash, level)
    ensures Merged(node.M.contents, node.M.parts, hash, level)
    ensures forall b: nat :: b in node.M.parts <==> b < FANOUT && Occupied(node.occupiedBranches, b)
    ensures Popcount(node.occupiedBranches) == if level == 0 then |node.buckets| else |node.children|
  {
    hide Merged;
  }

  lemma BucketAt<V>(node: Node<V>, hash: Hash, branch: nat)
    requires WellFormed(node, hash, 0) && branch in node.M.parts && branch < FANOUT
    ensures BranchIndex(node.occupiedBranches, branch) < |node.buckets|
    ensures node.buckets[BranchIndex(node.occupiedBranches, branch)].values == node.M.parts[branch]
  {
    hide Merged;
  }

  lemma ChildAt<V>(node: Node<V>, hash: Hash, level: nat, branch: nat)
    requires level > 0 && WellFormed(node, hash, level) && branch in node.M.parts && branch < FANOUT
    ensures BranchIndex(node.occupiedBranches, branch) < |node.children|
    ensures var child := node.children[BranchIndex(node.occupiedBranches, branch)];
            WellFormed(child, hash, level - 1) && child.M.contents == node.M.parts[branch]
  {
    hide Merged;
  }

  method VisitBuckets<V>(node: Node<V>, ghost hash: Hash) returns (visited: seq<(string, Pointer<V>)>)
    requires WellFormed(node, hash, 0)
    ensures Lists(visited, node.M.contents)
  {
    hide Lists, Merged, EntriesBefore, WellFormed, SetBitsBelow, InnerShape, LeafShape, Shows;
    ghost var m, bitmap := node.M, node.occupiedBranches;
    PartsAreOccupied(node, hash, 0);
    AllParts(m.contents, m.parts, hash, 0, bitmap);
    NothingListed<Pointer<V>>();
    visited := [];
    for i := 0 to |node.buckets|
      invariant Lists(visited, EntriesBefore(m.contents, hash, 0, bitmap, i))
    {
      ghost var branch := NextPart(m.contents, m.parts, hash, 0, bitmap, i);
      BucketAt(node, hash, branch);
      var more := VisitBucket(node.buckets[i]);
      ListsTogether(visited, EntriesBefore(m.contents, hash, 0, bitmap, i), more, m.parts[branch]);
      visited := visited + more;
    }
  }

  // ----- Published maps -----

  /** One published version: a shared root and the number of entries below it. */
  datatype PersistentMap<!V> = PersistentMap(root: Node?<V>, size: int)

  ghost predicate Published<V>(map_: PersistentMap<V>, hash: Hash)
    reads map_.root, ReprOf(map_.root)
  {
    (map_.root != null ==> WellFormed(map_.root, hash, LEVELS - 1)) && map_.size == |ContentsOf(map_.root)|
  }

  /** What two maps are compared by: the values their pointers lead to. */
  ghost function Pointees<V>(entries: Entries<V>): map<string, V> {
    map key | key in entries :: entries[key].pointee
  }

  lemma SameKeys<K, V>(a: map<K, V>, b: map<K, V>)
    requires a.Keys <= b.Keys && |a| == |b|
    ensures a.Keys == b.Keys
  {
    assert b.Keys == a.Keys + (b.Keys - a.Keys);
    assert |b.Keys| == |a.Keys| + |b.Keys - a.Keys|;
    assert b.Keys - a.Keys == {};
  }

  /** Equality: a shared root, or equal sizes and every entry of the one found in the other. */
  method Equal<V(==)>(a: PersistentMap<V>, b: PersistentMap<V>, hash: Hash) returns (equal: bool)
    requires Published(a, hash) && Published(b, hash)
    ensures equal <==> Pointees(ContentsOf(a.root)) == Pointees(ContentsOf(b.root))
  {
    hide WellFormed, Lists;
    if a.root == b.root {
      return true;
    }
    ghost var mine, theirs := ContentsOf(a.root), ContentsOf(b.root);
    if a.size != b.size {
      assert Pointees(mine).Keys == mine.Keys && Pointees(theirs).Keys == theirs.Keys;
      return false;
    }
    var visited := VisitNode(a.root, LEVELS - 1, hash);
    ListsOnly(visited, mine);
    equal := true;
    for i := 0 to |visited|
      invariant equal <==> forall j :: 0 <= j < i ==>
                  visited[j].0 in theirs && theirs[visited[j].0].pointee == visited[j].1.pointee
    {
      if equal {
        var other := ValueInRoot(b.root, hash, visited[i].0);
        equal := other.Some? && visited[i].1.pointee == other.value.pointee;
      }
    }
    if equal {
      assert forall j :: 0 <= j < |visited| ==> theirs[visited[j].0].pointee == visited[j].1.pointee;
      forall key | key in mine
        ensures key in theirs && theirs[key].pointee == mine[key].pointee
      {
        ListsAll(visited, mine, key);
        var j :| 0 <= j < |visited| && visited[j].0 == key;
      }
      SameKeys(mine, theirs);
    } else {
      ghost var j :| 0 <= j < |visited| && !(visited[j].0 in theirs
                                             && theirs[visited[j].0].pointee == visited[j].1.pointee);
      assert Get(Pointees(mine), visited[j].0) != Get(Pointees(theirs), visited[j].0);
    }
  }

  // ----- Transactions -----

  /** What one update reports: the value it replaced, and whether it changed anything. */
  datatype MutationResult<+V> = MutationResult(previousValue: Option<Pointer<V>>, changed: bool)

  lemma SizeAfterPut<V>(entries: Entries<V>, key: string, value: Option<Pointer<V>>)
    ensures |Put(entries, key, value)|
         == |entries| + (if value.Some? then 1 else 0) - (if Get(entries, key).Some? then 1 else 0)
  {
    if value.Some? && key !in entries {
      assert Put(entries, key, value).Keys == entries.Keys + {key};
    } else if value.Some? {
      assert Put(entries, key, value).Keys == entries.Keys;
    } else {
      assert Put(entries, key, value).Keys == entries.Keys - {key};
    }
  }

  /** An unpublished next version. It owns the nodes and buckets that carry its token. */
  class Transaction<V(==)> {
    var root: Node?<V>
    var size: int
    var builderToken: nat
    ghost var owned: set<object>
    ghost var region: set<object>

    ghost predicate Valid(hash: Hash)
      reads this, root, ReprOf(root), region
    {
      && Editable(root, hash, LEVELS - 1, builderToken, owned, region)
      && size == |ContentsOf(root)| && owned <= region
    }

    constructor (source: PersistentMap<V>, builderToken: nat, ghost hash: Hash)
      requires Published(source, hash) && Tracked<V>(ReprOf(source.root), builderToken, {})
      ensures Valid(hash) && root == source.root && size == source.size && this.builderToken == builderToken
      ensures owned == {} && region == ReprOf(source.root)
    {
      root, size := source.root, source.size;
      this.builderToken := builderToken;
      owned, region := {}, ReprOf(source.root);
    }

    method Apply(hash: Hash, key: string, value: Option<Pointer<V>>) returns (result: MutationResult<V>)
      requires Valid(hash) && this !in region && this !in owned
      modifies this, owned
      ensures Valid(hash) && builderToken == old(builderToken)
      ensures result.previousValue == Get(old(ContentsOf(root)), key)
      ensures result.changed == (value != result.previousValue)
      ensures ContentsOf(root) == Put(old(ContentsOf(root)), key, value)
      ensures old(owned) <= owned && fresh(owned - old(owned))
      ensures region <= old(region) + (owned - old(owned))
    {
      hide Put, Get, WellFormed, Tracked, Editable;
      EditableIsValid(root, hash, LEVELS - 1, builderToken, owned, region);
      SizeAfterPut(ContentsOf(root), key, value);
      var updated, previous, changed;
      ghost var owned', before;
      before := ContentsOf(root);
      updated, previous, changed, owned' := UpdateNode(root, hash, LEVELS - 1, key, value, builderToken, owned, region);
      EditableWithin(updated, hash, LEVELS - 1, builderToken, owned', region + ReprOf(updated));
      result := MutationResult(previous, changed);
      var grown := if changed && previous.Some? != value.Some? then if value.Some? then 1 else -1 else 0;
      assert |Put(before, key, value)| == size + grown;
      Become(updated, size + grown, owned' * (region + ReprOf(updated)), region + ReprOf(updated), hash);
    }

    /** Moves to an updated root. */
    method Become(root: Node?<V>, size: int, ghost owned: set<object>, ghost region: set<object>, ghost hash: Hash)
      requires Editable(root, hash, LEVELS - 1, builderToken, owned, region) && size == |ContentsOf(root)|
      requires this !in region && owned <= region
      modifies this`root, this`size, this`owned, this`region
      ensures Valid(hash) && this.root == root && this.owned == owned && this.region == region
      ensures MeaningOf(root) == old(MeaningOf(root))
    {
      hide WellFormed, Tracked, Editable;
      EditableIsValid(root, hash, LEVELS - 1, builderToken, owned, region);
      this.root, this.size, this.owned, this.region := root, size, owned, region;
    }

    method Value(hash: Hash, key: string) returns (value: Option<Pointer<V>>)
      requires Valid(hash)
      ensures value == Get(ContentsOf(root), key)
    {
      value := ValueInRoot(root, hash, key);
    }

    /** Publishes the version; the transaction can no longer be used. */
    method Finish(ghost hash: Hash) returns (result: PersistentMap<V>)
      requires Valid(hash) && this !in region
      modifies this`root, this`builderToken
      ensures Published(result, hash) && result.root == old(root) && result.size == old(size)
      ensures root == null && builderToken == 0
    {
      hide WellFormed, Tracked;
      result := PersistentMap(root, size);
      root, builderToken := null, 0;
    }
  }
}
