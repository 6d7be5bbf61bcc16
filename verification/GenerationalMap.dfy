/** The generational map: pages of 64 recycled slots over a slot map. A slot keeps a primary row and a chain
    of rows of other generations; a row is identified by its complete handle. */
module GenerationalMap {
  import opened Wrappers
  import opened Updates
  import Slots = SlotMap

  const PAGE_SIZE := 64

  datatype Row<+V> = Row(handle: nat, data: V)

  /** An immutable list of rows of other generations. */
  datatype Chain<+V> = End | Entry(value: Row<V>, next: Chain<V>)

  function SlotKey(handle: nat): (key: nat)
    ensures key < Slots.KEYS
  {
    handle % 0x1_0000_0000
  }

  function PageIndex(handle: nat): nat {
    SlotKey(handle) / PAGE_SIZE
  }

  function EntryIndex(handle: nat): (entry: nat)
    ensures entry < PAGE_SIZE
  {
    SlotKey(handle) % PAGE_SIZE
  }

  // ----- Collision chains -----

  function Find<V>(chain: Chain<V>, handle: nat): (row: Option<Row<V>>)
    ensures row.Some? ==> row.value.handle == handle
  {
    match chain
    case End => None
    case Entry(value, next) => if value.handle == handle then Some(value) else Find(next, handle)
  }

  /** Rows before a chain, in order. */
  function Before<V>(rows: seq<Row<V>>, chain: Chain<V>): Chain<V> {
    if rows == [] then chain else Entry(rows[0], Before(rows[1..], chain))
  }

  /** A chain with one more row in front, if there is one. */
  function Front<V>(row: Option<Row<V>>, chain: Chain<V>): Chain<V> {
    if row.Some? then Entry(row.value, chain) else chain
  }

  /** Distinct handles, all of one slot. */
  ghost predicate OneSlot<V>(chain: Chain<V>, key: nat) {
    match chain
    case End => true
    case Entry(value, next) => SlotKey(value.handle) == key && Find(next, value.handle).None? && OneSlot(next, key)
  }

  lemma {:induction false} BeforeAt<V>(rows: seq<Row<V>>, chain: Chain<V>, n: nat)
    requires n < |rows|
    ensures Before(rows[..n], Entry(rows[n], chain)) == Before(rows[..n + 1], chain)
  {
    if n > 0 {
      assert rows[..n][1..] == rows[1..][..n - 1] && rows[..n + 1][1..] == rows[1..][..n];
      BeforeAt(rows[1..], chain, n - 1);
    } else {
      assert rows[..0] == [] && rows[..1][1..] == [];
    }
  }

  /** Looking a handle up past rows that do not carry it. */
  lemma {:induction false} FindPast<V>(rows: seq<Row<V>>, chain: Chain<V>, handle: nat)
    ensures (forall r | r in rows :: r.handle != handle) ==> Find(Before(rows, chain), handle) == Find(chain, handle)
    ensures (exists r | r in rows :: r.handle == handle) ==>
            forall other :: Find(Before(rows, other), handle) == Find(Before(rows, chain), handle)
  {
    if rows != [] {
      FindPast(rows[1..], chain, handle);
      if r :| r in rows && r.handle == handle && rows[0].handle != handle {
        assert r in rows[1..];
      }
    }
  }

  /** Replacing or dropping the row of one handle behind others keeps the rest of the chain, in order. */
  lemma {:induction false} ChainAfterUpdate<V>(rows: seq<Row<V>>, hit: Row<V>, rest: Chain<V>, value: Option<Row<V>>,
                                               key: nat)
    requires OneSlot(Before(rows, Entry(hit, rest)), key)
    requires forall r | r in rows :: r.handle != hit.handle
    requires value.Some? ==> value.value.handle == hit.handle
    ensures OneSlot(Before(rows, Front(value, rest)), key)
    ensures forall h :: Find(Before(rows, Front(value, rest)), h) == if h == hit.handle then value
            else Find(Before(rows, Entry(hit, rest)), h)
  {
    var tail := Front(value, rest);
    if rows != [] {
      ChainAfterUpdate(rows[1..], hit, rest, value, key);
      assert rows[0] in rows;
      forall h
        ensures Find(Before(rows, tail), h) == if h == hit.handle then value
                else Find(Before(rows, Entry(hit, rest)), h)
      {
        assert Find(Before(rows[1..], tail), h) == if h == hit.handle then value
               else Find(Before(rows[1..], Entry(hit, rest)), h);
      }
      assert Find(Before(rows[1..], tail), rows[0].handle).None?;
    }
  }

  /** The chain with one generation replaced or removed, and whether that generation was there. */
  method UpdatedCollisionChain<V>(head: Chain<V>, handle: nat, value: Option<Row<V>>, ghost key: nat)
    returns (updated: Chain<V>, found: bool)
    requires OneSlot(head, key) && (value.Some? ==> value.value.handle == handle)
    ensures OneSlot(updated, key) && found == Find(head, handle).Some?
    ensures !found ==> updated == head
    ensures found ==> forall h :: Find(updated, h) == if h == handle then value else Find(head, h)
  {
    if head.End? {
      return End, false;
    }
    if head.value.handle == handle {
      return Front(value, head.next), true;
    }
    var prefix: seq<Row<V>> := [];
    var current := head;
    while current.Entry? && current.value.handle != handle
      invariant head == Before(prefix, current) && forall r | r in prefix :: r.handle != handle
      decreases current
    {
      ghost var grown := prefix + [current.value];
      BeforeAt(grown, current.next, |prefix|);
      assert grown[..|prefix|] == prefix && grown[..|prefix| + 1] == grown;
      prefix, current := prefix + [current.value], current.next;
    }
    FindPast(prefix, current, handle);
    if current.End? {
      return head, false;
    }
    found := true;
    updated := Front(value, current.next);
    ChainAfterUpdate(prefix, current.value, current.next, value, key);
    ghost var tail := updated;
    assert prefix[..|prefix|] == prefix;
    for i := |prefix| downto 0
      invariant Before(prefix[..i], updated) == Before(prefix, tail)
    {
      BeforeAt(prefix, updated, i);
      updated := Entry(prefix[i], updated);
    }
  }

  // ----- Pages -----

  /** One slot: without a primary row there is no chain, and all handles are distinct and of this slot. */
  ghost predicate Slot<V>(primary: Option<Row<V>>, chain: Chain<V>, key: nat) {
    if primary.None? then chain == End else OneSlot(Entry(primary.value, chain), key)
  }

  function SlotValue<V>(primary: Option<Row<V>>, chain: Chain<V>, handle: nat): Option<Row<V>> {
    if primary.None? then None else Find(Entry(primary.value, chain), handle)
  }

  lemma SlotFront<V>(primary: Row<V>, chain: Chain<V>, key: nat)
    ensures Slot(Some(primary), chain, key) <==>
              SlotKey(primary.handle) == key && Find(chain, primary.handle).None? && OneSlot(chain, key)
    ensures forall h :: SlotValue(Some(primary), chain, h) == if h == primary.handle then Some(primary)
            else Find(chain, h)
  {
  }

  /** The branches of an update, on the one slot it concerns: fill, replace, promote the head of the chain,
      clear, edit the chain, or push the primary onto it. */
  method UpdateSlot<V>(primary: Option<Row<V>>, collisions: Chain<V>, handle: nat, value: Option<Row<V>>)
    returns (primary': Option<Row<V>>, collisions': Chain<V>)
    requires Slot(primary, collisions, SlotKey(handle)) && (value.Some? ==> value.value.handle == handle)
    ensures Slot(primary', collisions', SlotKey(handle))
    ensures forall h :: SlotValue(primary', collisions', h) == if h == handle then value
            else SlotValue(primary, collisions, h)
  {
    if primary.None? {
      if value.Some? {
        SlotFront(value.value, collisions, SlotKey(handle));
      }
      return value, collisions;
    }
    SlotFront(primary.value, collisions, SlotKey(handle));
    if primary.value.handle == handle {
      if value.Some? {
        SlotFront(value.value, collisions, SlotKey(handle));
        return value, collisions;
      }
      if collisions.Entry? {
        SlotFront(collisions.value, collisions.next, SlotKey(handle));
        return Some(collisions.value), collisions.next;
      }
      return None, collisions;
    }
    var updated, found := UpdatedCollisionChain(collisions, handle, value, SlotKey(handle));
    if found {
      SlotFront(primary.value, updated, SlotKey(handle));
      return primary, updated;
    }
    if value.Some? {
      SlotFront(value.value, Entry(primary.value, collisions), SlotKey(handle));
      return value, Entry(primary.value, collisions);
    }
    return primary, collisions;
  }

  /** Number of present primaries. */
  function Occupied<V>(values: seq<Option<Row<V>>>): nat {
    if values == [] then 0 else Occupied(values[..|values| - 1]) + if values[|values| - 1].Some? then 1 else 0
  }

  lemma {:induction false} OccupiedAfter<V>(values: seq<Option<Row<V>>>, entry: nat, primary: Option<Row<V>>)
    requires entry < |values|
    ensures Occupied(values[entry := primary]) ==
            Occupied(values) + (if primary.Some? then 1 else 0) - (if values[entry].Some? then 1 else 0)
    decreases |values|
  {
    var last := |values| - 1;
    if entry < last {
      OccupiedAfter(values[..last], entry, primary);
      assert values[entry := primary][..last] == values[..last][entry := primary];
    } else {
      assert values[entry := primary][..last] == values[..last];
    }
  }

  lemma {:induction false} NothingOccupied<V>(values: seq<Option<Row<V>>>)
    ensures Occupied(values) == 0 <==> forall e | 0 <= e < |values| :: values[e].None?
    decreases |values|
  {
    if values != [] {
      NothingOccupied(values[..|values| - 1]);
    }
  }

  class Page<V> {
    var values: seq<Option<Row<V>>>
    var collisionChains: map<nat, Chain<V>>
    var occupiedCount: int

    constructor Empty(ghost index: nat)
      ensures Valid(index) && occupiedCount == 0
      ensures forall handle: nat | PageIndex(handle) == index :: Value(handle) == None
    {
      values, collisionChains, occupiedCount := seq(PAGE_SIZE, i => None), map[], 0;
      new;
      NothingOccupied(values);
    }

    constructor Copy(source: Page<V>)
      ensures values == source.values && collisionChains == source.collisionChains
              && occupiedCount == source.occupiedCount
    {
      values, collisionChains, occupiedCount := source.values, source.collisionChains, source.occupiedCount;
    }

    function ChainOf(entry: nat): Chain<V>
      reads this
    {
      if entry in collisionChains then collisionChains[entry] else End
    }

    ghost predicate Valid(index: nat)
      reads this
    {
      && |values| == PAGE_SIZE && occupiedCount == Occupied(values)
      && (forall e | e in collisionChains :: e < PAGE_SIZE && collisionChains[e] != End)
      && (forall e: nat | e < PAGE_SIZE :: Slot(values[e], ChainOf(e), index * PAGE_SIZE + e))
    }

    /** The row of one complete handle. */
    function Value(handle: nat): Option<Row<V>>
      requires |values| == PAGE_SIZE
      reads this
    {
      SlotValue(values[EntryIndex(handle)], ChainOf(EntryIndex(handle)), handle)
    }

    /** The row a reader finds: the primary if it matches, else the first match in the chain. */
    method Lookup(handle: nat, ghost index: nat) returns (row: Option<Row<V>>)
      requires Valid(index)
      ensures row == Value(handle)
    {
      var entry := EntryIndex(handle);
      var primary := values[entry];
      if primary.None? || primary.value.handle == handle {
        return primary;
      }
      var collision := ChainOf(entry);
      while collision.Entry? && collision.value.handle != handle
        invariant Find(collision, handle) == Find(ChainOf(entry), handle)
        decreases collision
      {
        collision := collision.next;
      }
      row := if collision.Entry? then Some(collision.value) else None;
    }

    /** One replacement or removal of an exact generation, in place. */
    method Apply(handle: nat, value: Option<Row<V>>, ghost index: nat)
      requires Valid(index) && PageIndex(handle) == index && (value.Some? ==> value.value.handle == handle)
      modifies this
      ensures Valid(index)
      ensures forall h: nat | PageIndex(h) == index :: Value(h) == if h == handle then value else old(Value(h))
    {
      hide Slot, SlotValue, Occupied;
      var entry := EntryIndex(handle);
      var primary := values[entry];
      var primary', collisions' := UpdateSlot(primary, ChainOf(entry), handle, value);
      values := values[entry := primary'];
      collisionChains := if collisions'.Entry? then collisionChains[entry := collisions']
          else collisionChains - {entry};
      if primary.Some? != primary'.Some? {
        occupiedCount := occupiedCount + if primary'.Some? then 1 else -1;
      }
      OccupiedAfter(old(values), entry, primary');
    }
  }

  // ----- The map -----

  type PageNode<V> = Slots.Node<Page<V>>

  /** The row some pages hold for a handle. */
  ghost function RowIn<V>(pages: map<nat, Page<V>>, handle: nat): Option<Row<V>>
    reads pages.Values
  {
    if PageIndex(handle) in pages && |pages[PageIndex(handle)].values| == PAGE_SIZE then
        pages[PageIndex(handle)].Value(handle) else None
  }

  /** Pages that hold exactly the given rows; none of them is empty. */
  ghost predicate Holds<V>(pages: map<nat, Page<V>>, contents: map<nat, Row<V>>)
    reads pages.Values
  {
    && (forall i | i in pages :: pages[i].Valid(i) && pages[i].occupiedCount > 0)
    && (forall h: nat :: Get(contents, h) == RowIn(pages, h))
  }

  /** A published map and its rows. */
  ghost predicate Published<V>(root: Slots.Node?<Page<V>>, contents: map<nat, Row<V>>, pool: set<PageNode<V>>)
    reads root, pool, Slots.ContentsOf(root).Values
  {
    Slots.Pool(pool) && Slots.Root(root, pool) && Holds(Slots.ContentsOf(root), contents)
  }

  method Value<V>(root: Slots.Node?<Page<V>>, handle: nat, ghost contents: map<nat, Row<V>>,
                  ghost pool: set<PageNode<V>>)
    returns (row: Option<Row<V>>)
    requires Published(root, contents, pool)
    ensures row == Get(contents, handle)
  {
    var page := Slots.Value(root, PageIndex(handle), pool);
    if page.None? {
      return None;
    }
    row := page.value.Lookup(handle, PageIndex(handle));
  }

  /** An empty page holds no row. */
  lemma EmptyPage<V>(page: Page<V>, index: nat, handle: nat)
    requires page.Valid(index) && page.occupiedCount == 0 && PageIndex(handle) == index
    ensures page.Value(handle) == None
  {
    NothingOccupied(page.values);
  }

  /** The pages a batch is writing: new objects, one per index. */
  ghost predicate Writing<V>(mutablePages: map<nat, Page<V>>)
    reads mutablePages.Values
  {
    && (forall i | i in mutablePages :: mutablePages[i].Valid(i))
    && (forall i, j | i in mutablePages && j in mutablePages && i != j :: mutablePages[i] != mutablePages[j])
  }

  /** The rows while a batch is under way: a page being written hides the published one. */
  ghost function RowDuring<V>(pages: map<nat, Page<V>>, mutablePages: map<nat, Page<V>>, handle: nat): Option<Row<V>>
    reads pages.Values, mutablePages.Values
  {
    if PageIndex(handle) in mutablePages then RowIn(mutablePages, handle) else RowIn(pages, handle)
  }

  /** The page a batch starts from: a clone of the published page, or a new one. */
  method ClonePage<V>(page: Option<Page<V>>, ghost index: nat) returns (clone: Page<V>)
    requires page.Some? ==> page.value.Valid(index)
    ensures fresh(clone) && clone.Valid(index)
    ensures forall h: nat | PageIndex(h) == index :: clone.Value(h) == if page.Some? then page.value.Value(h) else None
  {
    if page.Some? {
      clone := new Page.Copy(page.value);
    } else {
      clone := new Page.Empty(index);
    }
  }

  /** One update of a batch: its page is cloned the first time, and edited in place from then on. */
  method WriteRow<V>(root: Slots.Node?<Page<V>>, handle: nat, value: Option<Row<V>>, mutablePages: map<nat, Page<V>>,
                     ghost contents: map<nat, Row<V>>, ghost now: map<nat, Row<V>>, ghost pool: set<PageNode<V>>)
    returns (mutablePages': map<nat, Page<V>>)
    requires Published(root, contents, pool) && Writing(mutablePages)
    requires value.Some? ==> value.value.handle == handle
    requires mutablePages.Values !! Slots.ContentsOf(root).Values
    requires forall h: nat :: Get(now, h) == RowDuring(Slots.ContentsOf(root), mutablePages, h)
    modifies mutablePages.Values
    ensures Writing(mutablePages') && fresh(mutablePages'.Values - mutablePages.Values)
    ensures mutablePages'.Keys <= mutablePages.Keys + {PageIndex(handle)}
    ensures forall h: nat :: Get(Put(now, handle, value), h) == RowDuring(Slots.ContentsOf(root), mutablePages', h)
  {
    hide Slots.Pool, Slots.Root, Put, RowDuring, Writing, Published;
    var index := PageIndex(handle);
    ghost var pages := Slots.ContentsOf(root);
    mutablePages' := PageForWriting(root, index, value.Some?, mutablePages, contents, pool);
    if index in mutablePages' {
      EditPage(mutablePages', handle, value, pages, now);
    } else {
      NothingToRemove(pages, mutablePages, handle, now);
    }
  }

  lemma NothingToRemove<V>(pages: map<nat, Page<V>>, mutablePages: map<nat, Page<V>>, handle: nat,
                           now: map<nat, Row<V>>)
    requires PageIndex(handle) !in pages && PageIndex(handle) !in mutablePages
    requires forall h: nat :: Get(now, h) == RowDuring(pages, mutablePages, h)
    ensures forall h: nat :: Get(Put(now, handle, None), h) == RowDuring(pages, mutablePages, h)
  {
    hide Put;
    forall h: nat
      ensures Get(Put(now, handle, None), h) == Get(now, h)
    {
      PutThenGet(now, handle, None, h);
    }
  }

  /** The page of an index becomes one of the batch's own, unless there is none and none is wanted. */
  method PageForWriting<V>(root: Slots.Node?<Page<V>>, index: nat, wanted: bool, mutablePages: map<nat, Page<V>>,
                           ghost contents: map<nat, Row<V>>, ghost pool: set<PageNode<V>>)
    returns (mutablePages': map<nat, Page<V>>)
    requires index < Slots.KEYS && Published(root, contents, pool) && Writing(mutablePages)
    requires mutablePages.Values !! Slots.ContentsOf(root).Values
    ensures Writing(mutablePages') && fresh(mutablePages'.Values - mutablePages.Values)
    ensures mutablePages'.Keys <= mutablePages.Keys + {index} && mutablePages'.Values !! Slots.ContentsOf(root).Values
    ensures forall h: nat ::
              RowDuring(Slots.ContentsOf(root), mutablePages', h) == RowDuring(Slots.ContentsOf(root), mutablePages, h)
    ensures index !in mutablePages' ==> !wanted && index !in Slots.ContentsOf(root) && mutablePages' == mutablePages
  {
    hide Slots.Pool, Slots.Root, SlotValue, SlotKey, EntryIndex;
    mutablePages' := mutablePages;
    if index !in mutablePages {
      var page := Slots.Value(root, index, pool);
      if page.None? && !wanted {
        return;
      }
      var clone := ClonePage(page, index);
      mutablePages' := mutablePages[index := clone];
    }
  }

  method EditPage<V>(mutablePages: map<nat, Page<V>>, handle: nat, value: Option<Row<V>>,
                     ghost pages: map<nat, Page<V>>, ghost now: map<nat, Row<V>>)
    requires Writing(mutablePages) && PageIndex(handle) in mutablePages && mutablePages.Values !! pages.Values
    requires value.Some? ==> value.value.handle == handle
    requires forall h: nat :: Get(now, h) == RowDuring(pages, mutablePages, h)
    modifies mutablePages.Values
    ensures Writing(mutablePages)
    ensures forall h: nat :: Get(Put(now, handle, value), h) == RowDuring(pages, mutablePages, h)
  {
    hide Put;
    var index := PageIndex(handle);
    mutablePages[index].Apply(handle, value, index);
    forall h: nat
      ensures Get(Put(now, handle, value), h) == RowDuring(pages, mutablePages, h)
    {
      PutThenGet(now, handle, value, h);
      assert Get(now, h) == old(RowDuring(pages, mutablePages, h));
    }
  }

  /** What a written page becomes in the directory: nothing once its last row is gone. */
  ghost function Kept<V>(page: Page<V>): Option<Page<V>>
    reads page
  {
    if page.occupiedCount == 0 then None else Some(page)
  }

  lemma OneMoreUpdate<V>(pages: map<nat, Page<V>>, updates: seq<Update<nat, Page<V>>>, index: nat,
                         page: Option<Page<V>>)
    ensures forall i: nat :: Get(Updated(pages, updates + [Update(index, page)]), i) ==
              if i == index then page else Get(Updated(pages, updates), i)
  {
    var longer := updates + [Update(index, page)];
    UpdatedOneMore(pages, longer, |updates|);
    assert longer[..|updates|] == updates && longer[..|updates| + 1] == longer;
    forall i: nat
      ensures Get(Updated(pages, longer), i) == if i == index then page else Get(Updated(pages, updates), i)
    {
      PutThenGet(Updated(pages, updates), index, page, i);
    }
  }

  /** The directory updates for the written pages, in no particular order. */
  method PageUpdates<V>(mutablePages: map<nat, Page<V>>, ghost pages: map<nat, Page<V>>)
    returns (updates: seq<Update<nat, Page<V>>>)
    requires forall i | i in mutablePages :: i < Slots.KEYS
    ensures forall u | u in updates :: u.key < Slots.KEYS
    ensures forall i: nat :: Get(Updated(pages, updates), i) == if i in mutablePages then Kept(mutablePages[i])
            else Get(pages, i)
  {
    hide Put, Updated;
    NothingUpdated(pages);
    updates := [];
    var remaining := mutablePages.Keys;
    while remaining != {}
      invariant remaining <= mutablePages.Keys && forall u | u in updates :: u.key < Slots.KEYS
      invariant forall i: nat :: Get(Updated(pages, updates), i) ==
                  if i in mutablePages && i !in remaining then Kept(mutablePages[i]) else Get(pages, i)
      decreases remaining
    {
      var index :| index in remaining;
      var kept := if mutablePages[index].occupiedCount == 0 then None else Some(mutablePages[index]);
      OneMoreUpdate(pages, updates, index, kept);
      updates := updates + [Update(index, kept)];
      remaining := remaining - {index};
    }
  }

  /** Storing the written pages publishes exactly the rows of the batch. */
  lemma HoldsAfter<V>(pages: map<nat, Page<V>>, mutablePages: map<nat, Page<V>>, pages': map<nat, Page<V>>,
                      contents: map<nat, Row<V>>, contents': map<nat, Row<V>>)
    requires Holds(pages, contents) && Writing(mutablePages)
    requires forall i: nat :: Get(pages', i) == if i in mutablePages then Kept(mutablePages[i]) else Get(pages, i)
    requires forall h: nat :: Get(contents', h) == RowDuring(pages, mutablePages, h)
    ensures Holds(pages', contents')
  {
    forall i | i in pages'
      ensures pages'[i].Valid(i) && pages'[i].occupiedCount > 0
    {
      assert Get(pages', i).Some?;
      if i in mutablePages {
        assert mutablePages[i].occupiedCount == Occupied(mutablePages[i].values);
      }
    }
    forall h: nat
      ensures Get(contents', h) == RowIn(pages', h)
    {
      var i := PageIndex(h);
      assert Get(pages', i) == if i in mutablePages then Kept(mutablePages[i]) else Get(pages, i);
      if i in mutablePages && mutablePages[i].occupiedCount == 0 {
        EmptyPage(mutablePages[i], i, h);
      }
    }
  }

  /** A batch of replacements and removals of exact generations. Nothing that existed before the call is
      modified, so every map published earlier keeps its rows. */
  method WithUpdates<V>(root: Slots.Node?<Page<V>>, updates: seq<Update<nat, Row<V>>>, token: nat,
                        ghost contents: map<nat, Row<V>>, ghost pool: set<PageNode<V>>)
    returns (result: Slots.Node?<Page<V>>, ghost pool': set<PageNode<V>>)
    requires Published(root, contents, pool) && forall n | n in pool :: n.builderToken < token
    requires forall u | u in updates && u.value.Some? :: u.value.value.handle == u.key
    ensures Published(result, Updated(contents, updates), pool')
    ensures pool <= pool' && fresh(pool' - pool) && forall n | n in pool' :: n.builderToken <= token
  {
    hide Slots.Pool, Holds, Writing, RowDuring, Kept;
    if updates == [] {
      return root, pool;
    }
    ghost var pages := Slots.ContentsOf(root);
    var mutablePages := WriteRows(root, updates, contents, pool);
    var pageUpdates := PageUpdates(mutablePages, pages);
    result, pool' := Slots.WithUpdates(root, pageUpdates, token, pool);
    HoldsAfter(pages, mutablePages, Slots.ContentsOf(result), contents, Updated(contents, updates));
  }

  method WriteRows<V>(root: Slots.Node?<Page<V>>, updates: seq<Update<nat, Row<V>>>,
                      ghost contents: map<nat, Row<V>>, ghost pool: set<PageNode<V>>)
    returns (mutablePages: map<nat, Page<V>>)
    requires Published(root, contents, pool)
    requires forall u | u in updates && u.value.Some? :: u.value.value.handle == u.key
    ensures Writing(mutablePages) && fresh(mutablePages.Values) && forall i | i in mutablePages :: i < Slots.KEYS
    ensures forall h: nat :: Get(Updated(contents, updates), h) == RowDuring(Slots.ContentsOf(root), mutablePages, h)
  {
    hide Slots.Pool;
    ghost var pages := Slots.ContentsOf(root);
    mutablePages := map[];
    for i := 0 to |updates|
      invariant Published(root, contents, pool) && Writing(mutablePages) && fresh(mutablePages.Values)
      invariant Slots.ContentsOf(root) == pages
      invariant forall h: nat :: Get(Updated(contents, updates[..i]), h) == RowDuring(pages, mutablePages, h)
      invariant forall i | i in mutablePages :: i < Slots.KEYS
    {
      ghost var now := Updated(contents, updates[..i]);
      UpdatedOneMore(contents, updates, i);
      mutablePages := WriteRow(root, updates[i].key, updates[i].value, mutablePages, contents, now, pool);
    }
    assert updates[..|updates|] == updates;
  }

  /** A run keeps what it has published: only new nodes and pages are written. */
  lemma StillPublished<V>(root: Slots.Node?<Page<V>>, contents: map<nat, Row<V>>, pool: set<PageNode<V>>,
                          pool': set<PageNode<V>>)
    requires Published(root, contents, pool) && pool <= pool' && Slots.Pool(pool')
    ensures Published(root, contents, pool')
  {
  }

  /** Any run of batches, each on any earlier version: in the end every version still holds the rows, of exact
      generations, that it held when it was published. */
  method Run<V>(batches: seq<Batch<nat, Row<V>>>)
    returns (versions: seq<Slots.Node?<Page<V>>>, ghost pool: set<PageNode<V>>)
    requires InOrder(batches)
    requires forall b, u | b in batches && u in b.updates && u.value.Some? :: u.value.value.handle == u.key
    ensures |versions| == |batches| + 1
    ensures forall i | 0 <= i < |versions| :: Published(versions[i], Meanings(batches)[i], pool)
  {
    hide Holds, Slots.Pool, Slots.Root;
    versions, pool := [null], {};
    NothingPublished<V>();
    for n := 0 to |batches|
      invariant Slots.Pool(pool) && |versions| == n + 1 && forall m | m in pool :: m.builderToken < n + 1
      invariant forall i | 0 <= i < |versions| :: Published(versions[i], Meanings(batches[..n])[i], pool)
    {
      assert batches[..n + 1][..n] == batches[..n] && batches[n] in batches;
      ghost var meanings, before := Meanings(batches[..n]), pool;
      var version := versions[batches[n].version];
      version, pool := WithUpdates(version, batches[n].updates, n + 1, meanings[batches[n].version], pool);
      forall i | 0 <= i < |versions|
        ensures Published(versions[i], meanings[i], pool)
      {
        StillPublished(versions[i], meanings[i], before, pool);
      }
      versions := versions + [version];
    }
    assert batches[..|batches|] == batches;
  }

  lemma NothingPublished<V>()
    ensures Slots.Pool<Page<V>>({}) && Published<V>(null, map[], {})
  {
  }
}
