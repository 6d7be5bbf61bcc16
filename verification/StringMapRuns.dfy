/** Every run of transactions over a set of published string maps: transactions interleave freely, share
    nodes, and edit their own nodes in place, yet what is published never changes. */
module StringMapRuns {
  import opened Wrappers
  import opened Updates
  import opened StringTrie
  import opened StringMap

  /** One step of a run. Versions and transactions are named by the order they appeared in. */
  datatype Command<+V> = Begin(version: nat) | Apply(open: nat, key: string, value: Option<Pointer<V>>)
      | Finish(open: nat)

  /** What the run means: every published map as a finite map, and every transaction that is still open. */
  datatype History<V> = History(versions: seq<Entries<V>>, open: seq<Option<Entries<V>>>)

  predicate Enabled<V>(h: History<V>, c: Command<V>) {
    match c
    case Begin(v) => v < |h.versions|
    case Apply(i, _, _) => i < |h.open| && h.open[i].Some?
    case Finish(i) => i < |h.open| && h.open[i].Some?
  }

  ghost function Step<V>(h: History<V>, c: Command<V>): History<V>
    requires Enabled(h, c)
  {
    match c
    case Begin(v) => h.(open := h.open + [Some(h.versions[v])])
    case Apply(i, key, value) => h.(open := h.open[i := Some(Put(h.open[i].value, key, value))])
    case Finish(i) => History(h.versions + [h.open[i].value], h.open[i := None])
  }

  ghost function Run<V>(h: History<V>, commands: seq<Command<V>>): History<V>
    requires Runnable(h, commands)
    decreases |commands|
  {
    if commands == [] then h else Run(Step(h, commands[0]), commands[1..])
  }

  /** Every command names a version or an open transaction that exists by then. */
  ghost predicate Runnable<V>(h: History<V>, commands: seq<Command<V>>)
    decreases |commands|
  {
    commands == [] || (Enabled(h, commands[0]) && Runnable(Step(h, commands[0]), commands[1..]))
  }

  lemma {:induction false} RunPrefix<V>(h: History<V>, commands: seq<Command<V>>, n: nat)
    requires n < |commands| && Runnable(h, commands)
    ensures Runnable(h, commands[..n]) && Enabled(Run(h, commands[..n]), commands[n])
    ensures Runnable(h, commands[..n + 1]) && Run(h, commands[..n + 1]) == Step(Run(h, commands[..n]), commands[n])
    decreases |commands|
  {
    if n > 0 {
      RunPrefix(Step(h, commands[0]), commands[1..], n - 1);
      assert commands[..n][1..] == commands[1..][..n - 1];
      assert commands[..n + 1][1..] == commands[1..][..n];
    } else {
      assert commands[..1][1..] == [];
    }
  }

  /** No command of any run changes a map that is already published. */
  lemma {:induction false} PublishedNeverChanges<V>(h: History<V>, commands: seq<Command<V>>)
    requires Runnable(h, commands)
    ensures h.versions <= Run(h, commands).versions
    decreases |commands|
  {
    if commands != [] {
      PublishedNeverChanges(Step(h, commands[0]), commands[1..]);
    }
  }

  /** The updates one transaction receives in a run. */
  ghost function UpdatesOf<V>(commands: seq<Command<V>>, open: nat): seq<Update<string, Pointer<V>>>
    decreases |commands|
  {
    if commands == [] then []
    else
      (if commands[0].Apply? && commands[0].open == open then [Update(commands[0].key, commands[0].value)] else [])
      + UpdatesOf(commands[1..], open)
  }

  /** What a transaction holds depends on its own updates only, however the run interleaves it with others. */
  lemma {:induction false} TransactionsAreIsolated<V>(h: History<V>, commands: seq<Command<V>>, open: nat)
    requires Runnable(h, commands) && open < |h.open| && h.open[open].Some?
    requires Command.Finish(open) !in commands
    ensures var after := Run(h, commands);
            open < |after.open| && after.open[open] == Some(Updated(h.open[open].value, UpdatesOf(commands, open)))
    decreases |commands|
  {
    if commands != [] {
      var first, rest := commands[0], UpdatesOf(commands[1..], open);
      TransactionsAreIsolated(Step(h, first), commands[1..], open);
      if first.Apply? && first.open == open {
        assert UpdatesOf(commands, open) == [Update(first.key, first.value)] + rest;
        UpdatedFirst(h.open[open].value, Update(first.key, first.value), rest);
      } else {
        assert UpdatesOf(commands, open) == rest;
      }
    }
  }

  /** A published map, what it means and what it reaches. */
  ghost predicate Standing<V>(version: PersistentMap<V>, hash: Hash, contents: Entries<V>, reach: set<object>)
    reads reach
  {
    && (version.root != null ==> version.root in reach)
    && ReprOf(version.root) == reach && Published(version, hash) && ContentsOf(version.root) == contents
  }

  /** An open transaction, what it means, what it reaches and what it may edit. */
  ghost predicate Running<V>(t: Transaction<V>, hash: Hash, contents: Entries<V>, region: set<object>,
                             owned: set<object>)
    reads t, region
  {
    && t.region == region && t.owned == owned && t !in region
    && (t.root != null ==> t.root in region)
    && ReprOf(t.root) <= region && t.Valid(hash) && ContentsOf(t.root) == contents
  }

  /** Tokens are never handed out twice. */
  ghost predicate Older<V>(nodes: set<object>, token: nat)
    reads nodes
  {
    && (forall n: Node<V> | n in nodes :: n.builderToken < token)
    && (forall k: Bucket<V> | k in nodes :: k.builderToken < token)
  }

  /** What each version reaches, and what each transaction reaches and owns (nothing once it is finished). */
  datatype Sharing = Sharing(reach: seq<set<object>>, regions: seq<set<object>>, owned: seq<set<object>>)

  /** What one transaction owns is out of reach of every version and of every other transaction. */
  ghost predicate Private(s: Sharing, nodes: set<object>) {
    && |s.regions| == |s.owned|
    && (forall j | 0 <= j < |s.reach| :: s.reach[j] <= nodes)
    && (forall i | 0 <= i < |s.owned| :: s.owned[i] <= s.regions[i] <= nodes)
    && (forall i, j | 0 <= i < |s.owned| && 0 <= j < |s.reach| :: s.reach[j] !! s.owned[i])
    && (forall i, j | 0 <= i < |s.owned| && 0 <= j < |s.owned| && i != j :: s.regions[j] !! s.owned[i])
  }

  /** Editing extends what a transaction owns by new objects only, so it stays private. */
  lemma PrivateAfterApply(s: Sharing, nodes: set<object>, i: nat, region: set<object>, owned: set<object>)
    requires Private(s, nodes) && i < |s.owned|
    requires owned <= region <= s.regions[i] + (owned - s.owned[i]) && (owned - s.owned[i]) !! nodes
    ensures Private(s.(regions := s.regions[i := region], owned := s.owned[i := owned]), nodes + region)
  {
  }

  lemma PrivateAfterFinish(s: Sharing, nodes: set<object>, i: nat, reach: set<object>)
    requires Private(s, nodes) && i < |s.owned| && reach <= s.regions[i]
    ensures Private(Sharing(s.reach + [reach], s.regions[i := {}], s.owned[i := {}]), nodes)
  {
  }

  lemma PrivateAfterBegin(s: Sharing, nodes: set<object>, version: nat)
    requires Private(s, nodes) && version < |s.reach|
    ensures Private(s.(regions := s.regions + [s.reach[version]], owned := s.owned + [{}]), nodes)
  {
  }

  lemma OlderWith<V>(some: set<object>, others: set<object>, nodes: set<object>, token: nat, limit: nat)
    requires Older<V>(some, token) && Older<V>(others, token) && nodes <= some + others && token <= limit
    ensures Older<V>(nodes, limit)
  {
  }

  /** A transaction on a version, under a token no reachable node carries. */
  method Start<V(==)>(version: PersistentMap<V>, token: nat, ghost hash: Hash, ghost contents: Entries<V>,
                      ghost reach: set<object>)
    returns (t: Transaction<V>)
    requires Standing(version, hash, contents, reach) && Older<V>(reach, token)
    ensures fresh(t) && t.builderToken == token && Running(t, hash, contents, reach, {})
  {
    hide WellFormed, Editable;
    t := new Transaction(version, token, hash);
  }

  /** One edit of a running transaction. */
  method Edit<V(==)>(t: Transaction<V>, hash: Hash, key: string, value: Option<Pointer<V>>,
                     ghost contents: Entries<V>, ghost region: set<object>, ghost owned: set<object>)
    returns (result: MutationResult<V>)
    requires Running(t, hash, contents, region, owned)
    modifies t, owned
    ensures Running(t, hash, Put(contents, key, value), t.region, t.owned)
    ensures result.previousValue == Get(contents, key) && result.changed == (value != result.previousValue)
    ensures t.builderToken == old(t.builderToken) && Older<V>(t.owned, t.builderToken + 1)
    ensures owned <= t.owned <= t.region <= region + (t.owned - owned) && fresh(t.owned - owned)
  {
    hide WellFormed, Put;
    result := t.Apply(hash, key, value);
  }

  /** Publishing what a transaction built. */
  method Publish<V(==)>(t: Transaction<V>, ghost hash: Hash, ghost contents: Entries<V>, ghost region: set<object>,
                        ghost owned: set<object>)
    returns (version: PersistentMap<V>, ghost reach: set<object>)
    requires Running(t, hash, contents, region, owned)
    modifies t
    ensures reach <= region && Standing(version, hash, contents, reach) && t.builderToken == 0
  {
    hide WellFormed, Tracked;
    reach := ReprOf(t.root);
    version := t.Finish(hash);
  }

  class Workspace<V(==)> {
    const hash: Hash
    var versions: seq<PersistentMap<V>>
    var transactions: seq<Transaction<V>>
    var nextToken: nat
    ghost var nodes: set<object>
    ghost var footprint: set<object>
    ghost var sharing: Sharing
    ghost var history: History<V>

    /** Every version and every open transaction means what the history says, and edits stay private. */
    ghost predicate Valid()
      reads this, footprint
    {
      && Others(|transactions|) && (forall i | 0 <= i < |transactions| :: transactions[i] in footprint)
      && this !in footprint && 0 < nextToken && Older<V>(nodes, nextToken) && Private(sharing, nodes)
      && (forall i | 0 <= i < |transactions| :: transactions[i] !in nodes)
      && (forall i, j | 0 <= i < j < |transactions| :: transactions[i] != transactions[j])
    }

    /** Every version stands, and every open transaction but possibly one. */
    ghost predicate Others(open: nat)
      reads this, footprint
    {
      && |versions| == |history.versions| == |sharing.reach|
      && |transactions| == |history.open| == |sharing.regions| == |sharing.owned|
      && nodes <= footprint
      && (forall j | 0 <= j < |versions| ::
            sharing.reach[j] <= nodes && Standing(versions[j], hash, history.versions[j], sharing.reach[j]))
      && (forall i | 0 <= i < |transactions| && i != open && history.open[i].Some? ::
            sharing.regions[i] <= nodes && transactions[i] in footprint && transactions[i].builderToken < nextToken &&
            Running(transactions[i], hash, history.open[i].value, sharing.regions[i], sharing.owned[i]))
    }

    constructor (hash: Hash)
      ensures Valid() && this.hash == hash && history == History([map[]], [])
    {
      this.hash := hash;
      versions, transactions := [PersistentMap(null, 0)], [];
      nextToken := 1;
      nodes, footprint, sharing, history := {}, {}, Sharing([{}], [], []), History([map[]], []);
    }

    method Begin(version: nat)
      requires Valid() && Enabled(history, Command<V>.Begin(version))
      modifies this, footprint
      ensures Valid() && history == Step(old(history), Command.Begin(version))
      ensures fresh(footprint - old(footprint))
    {
      hide Standing, Running, Private, Older;
      OlderWith<V>(nodes, {}, sharing.reach[version], nextToken, nextToken);
      PrivateAfterBegin(sharing, nodes, version);
      OlderWith<V>(nodes, {}, nodes, nextToken, nextToken + 1);
      var t := Start(versions[version], nextToken, hash, history.versions[version], sharing.reach[version]);
      Open(t, history.versions[version], sharing.reach[version]);
    }

    method Open(t: Transaction<V>, ghost contents: Entries<V>, ghost region: set<object>)
      requires Others(|transactions|) && this !in footprint && t !in footprint && region <= nodes
      requires t.builderToken == nextToken && Running(t, hash, contents, region, {})
      modifies this`transactions, this`footprint, this`nextToken, this`sharing, this`history
      ensures transactions == old(transactions) + [t] && footprint == old(footprint) + {t}
      ensures nextToken == old(nextToken) + 1 && history == old(history).(open := old(history).open + [Some(contents)])
      ensures sharing == old(sharing).(regions := old(sharing).regions + [region], owned := old(sharing).owned + [{}])
      ensures Others(|transactions|)
    {
      hide Standing, Running;
      transactions, footprint, nextToken := transactions + [t], footprint + {t}, nextToken + 1;
      sharing := sharing.(regions := sharing.regions + [region], owned := sharing.owned + [{}]);
      history := history.(open := history.open + [Some(contents)]);
    }

    method Apply(open: nat, key: string, value: Option<Pointer<V>>) returns (result: MutationResult<V>)
      requires Valid() && Enabled(history, Command.Apply(open, key, value))
      modifies this, footprint
      ensures Valid() && history == Step(old(history), Command.Apply(open, key, value))
      ensures result.previousValue == Get(old(history).open[open].value, key)
      ensures result.changed == (value != result.previousValue)
      ensures fresh(footprint - old(footprint))
    {
      hide Standing, Running, Private, Older, Put;
      var t := transactions[open];
      result := EditOne(open, key, value);
      PrivateAfterApply(sharing, nodes, open, t.region, t.owned);
      Record(open, Put(history.open[open].value, key, value));
    }

    ghost method Record(open: nat, contents: Entries<V>)
      requires open < |transactions| && Others(open) && history.open[open].Some? && transactions[open] in footprint
      requires Running(transactions[open], hash, contents, transactions[open].region, transactions[open].owned)
      requires this !in footprint && this !in transactions[open].region && transactions[open].builderToken < nextToken
      modifies this`nodes, this`footprint, this`history, this`sharing
      ensures nodes == old(nodes) + transactions[open].region && footprint == old(footprint) + transactions[open].region
      ensures history == old(history).(open := old(history).open[open := Some(contents)])
      ensures sharing == old(sharing).(regions := old(sharing).regions[open := transactions[open].region],
                                       owned := old(sharing).owned[open := transactions[open].owned])
      ensures Others(|transactions|)
    {
      hide Standing, Running;
      var t := transactions[open];
      nodes, footprint := nodes + t.region, footprint + t.region;
      history := history.(open := history.open[open := Some(contents)]);
      sharing := sharing.(regions := sharing.regions[open := t.region], owned := sharing.owned[open := t.owned]);
      forall j | 0 <= j < |versions|
        ensures sharing.reach[j] <= nodes && Standing(versions[j], hash, history.versions[j], sharing.reach[j])
      {
        assert old(Standing(versions[j], hash, history.versions[j], sharing.reach[j]));
      }
    }

    /** The edit of one transaction, while versions and other transactions stand. */
    method EditOne(open: nat, key: string, value: Option<Pointer<V>>) returns (result: MutationResult<V>)
      requires Valid() && Enabled(history, Command.Apply(open, key, value))
      modifies footprint
      ensures Others(open) && result.previousValue == Get(history.open[open].value, key)
      ensures result.changed == (value != result.previousValue)
      ensures var t := transactions[open];
              && Running(t, hash, Put(history.open[open].value, key, value), t.region, t.owned)
              && t.builderToken < nextToken && Older<V>(nodes + t.region, nextToken)
              && sharing.owned[open] <= t.owned <= t.region <= sharing.regions[open] + (t.owned - sharing.owned[open])
              && fresh(t.owned - sharing.owned[open])
    {
      hide Standing, Running, Private, Older, Put;
      var t := transactions[open];
      ghost var owned := sharing.owned[open];
      OlderWith<V>(nodes, {}, nodes - owned, nextToken, nextToken);
      OwnedApart(sharing, nodes, open);
      result := Edit(t, hash, key, value, history.open[open].value, sharing.regions[open], owned);
      assert Older<V>(nodes - owned, nextToken);
      OlderWith<V>(t.owned, {}, t.owned, t.builderToken + 1, nextToken);
      OlderWith<V>(nodes - owned, t.owned, nodes + t.region, nextToken, nextToken);
    }

    method Finish(open: nat)
      requires Valid() && Enabled(history, Command<V>.Finish(open))
      modifies this, footprint
      ensures Valid() && history == Step(old(history), Command<V>.Finish(open))
      ensures fresh(footprint - old(footprint))
    {
      hide Standing, Running, Private, Older;
      var t := transactions[open];
      var version;
      ghost var reach;
      version, reach := Publish(t, hash, history.open[open].value, sharing.regions[open], sharing.owned[open]);
      PrivateAfterFinish(sharing, nodes, open, reach);
      versions := versions + [version];
      sharing := Sharing(sharing.reach + [reach], sharing.regions[open := {}], sharing.owned[open := {}]);
      history := Step(history, Command.Finish(open));
    }

    method Lookup(version: nat, key: string) returns (value: Option<Pointer<V>>)
      requires Valid() && version < |versions|
      ensures value == Get(history.versions[version], key)
    {
      value := ValueInRoot(versions[version].root, hash, key);
    }

    method Peek(open: nat, key: string) returns (value: Option<Pointer<V>>)
      requires Valid() && open < |transactions| && history.open[open].Some?
      ensures value == Get(history.open[open].value, key)
    {
      value := transactions[open].Value(hash, key);
    }

    method Execute(c: Command<V>)
      requires Valid() && Enabled(history, c)
      modifies this, footprint
      ensures Valid() && history == Step(old(history), c)
      ensures fresh(footprint - old(footprint))
    {
      match c
      case Begin(version) => Begin(version);
      case Apply(open, key, value) => var _ := Apply(open, key, value);
      case Finish(open) => Finish(open);
    }

    /** Any run of any length: the heap always means what the history of finite maps says. */
    method RunAll(commands: seq<Command<V>>)
      requires Valid() && Runnable(history, commands)
      modifies this, footprint
      ensures Valid() && history == Run(old(history), commands)
      ensures old(history).versions <= history.versions
    {
      ghost var start := history;
      for i := 0 to |commands|
        invariant Valid() && Runnable(start, commands[..i]) && history == Run(start, commands[..i])
        invariant fresh(footprint - old(footprint))
      {
        RunPrefix(start, commands, i);
        Execute(commands[i]);
      }
      assert commands[..|commands|] == commands;
      PublishedNeverChanges(start, commands);
    }

    /** A batch of updates: one transaction, started and finished around them. */
    method WithUpdates(version: nat, updates: seq<Update<string, Pointer<V>>>)
      requires Valid() && version < |history.versions|
      modifies this, footprint
      ensures Valid() && history.versions == old(history).versions + [Updated(old(history).versions[version], updates)]
    {
      hide Updated, Put, Older, Private;
      ghost var before := history;
      assert Updated(before.versions[version], updates[..0]) == before.versions[version] by {
        NothingUpdated(before.versions[version]);
      }
      Begin(version);
      var open := |transactions| - 1;
      for i := 0 to |updates|
        invariant Valid() && history.versions == before.versions && |history.open| == |before.open| + 1 == open + 1
        invariant history.open[open] == Some(Updated(before.versions[version], updates[..i]))
        invariant fresh(footprint - old(footprint))
      {
        UpdatedOneMore(before.versions[version], updates, i);
        var _ := Apply(open, updates[i].key, updates[i].value);
      }
      assert updates[..|updates|] == updates;
      Finish(open);
    }
  }

  /** No version and no other transaction meets what one transaction owns. */
  lemma OwnedApart(s: Sharing, nodes: set<object>, i: nat)
    requires Private(s, nodes) && i < |s.owned|
    ensures s.owned[i] <= s.regions[i] <= nodes
    ensures forall j | 0 <= j < |s.reach| :: s.reach[j] !! s.owned[i]
    ensures forall j | 0 <= j < |s.owned| && j != i :: s.regions[j] !! s.owned[i]
  {
  }
}
