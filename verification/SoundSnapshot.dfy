/** Sound snapshots are merged as they arrive, in any order and more than once; each channel keeps its newest
    observation. */
module SoundSnapshot {
  import opened Wrappers

  const CHANNEL_COUNT := 10

  /** What was observed of one channel. */
  datatype Observation = Observation(revision: nat, status: int, volume: real)

  /** A set of changes: a session and the channels one completed sound command affected. */
  datatype Changes = Changes(sessionId: nat, revision: nat, byBuffer: map<int, Observation>)

  /** Merging keeps the newer observation, and the incoming one at equal revisions. */
  function Newer(mine: Option<Observation>, theirs: Option<Observation>): Option<Observation> {
    if theirs.None? then mine
    else if mine.Some? && theirs.value.revision < mine.value.revision then mine
    else theirs
  }

  /** What wins, case by case: whoever is alone, the higher revision, and at equal revisions the incoming one. */
  lemma NewerMeans(mine: Observation, theirs: Observation)
    ensures Newer(None, Some(theirs)) == Some(theirs) && Newer(Some(mine), None) == Some(mine)
    ensures Newer(None, None) == None
    ensures mine.revision > theirs.revision ==> Newer(Some(mine), Some(theirs)) == Some(mine)
    ensures mine.revision <= theirs.revision ==> Newer(Some(mine), Some(theirs)) == Some(theirs)
  {
  }

  lemma HasAKey(m: map<int, Observation>)
    requires m != map[]
    ensures exists key :: key in m
  {
    assert (forall key :: key !in m) ==> m == map[];
  }

  class LuaCallbackSoundPresentationSnapshot {
    var sessionId: nat
    var revision: nat
    var statusByBuffer: map<int, int>
    var volumeByBuffer: map<int, real>
    var revisionByBuffer: map<int, nat>

    /** The three tables are about the same channels; an absent revision reads as zero. */
    ghost predicate Valid()
      reads this
    {
      statusByBuffer.Keys == volumeByBuffer.Keys == revisionByBuffer.Keys
    }

    ghost predicate Blank()
      reads this
    {
      Valid() && statusByBuffer == map[] && revision == 0
    }

    function At(channel: int): Option<Observation>
      requires Valid()
      reads this
    {
      if channel in statusByBuffer then
        Some(Observation(revisionByBuffer[channel], statusByBuffer[channel], volumeByBuffer[channel]))
      else None
    }

    constructor ()
      ensures Valid() && forall c: int :: At(c) == None
    {
      sessionId, revision, statusByBuffer, volumeByBuffer, revisionByBuffer := 0, 0, map[], map[], map[];
    }

    method Merge(changes: Changes)
      requires Valid()
      modifies this
      ensures Valid()
      ensures changes.byBuffer == map[] || (old(statusByBuffer) != map[] && old(sessionId) != changes.sessionId) ==>
                sessionId == old(sessionId) && revision == old(revision) && forall c: int :: At(c) == old(At(c))
      ensures changes.byBuffer != map[] && (old(statusByBuffer) == map[] || old(sessionId) == changes.sessionId) ==>
                && sessionId == changes.sessionId && revision ==
                      (if old(revision) < changes.revision then changes.revision else old(revision))
                && forall c: int :: At(c) == if 1 <= c <= CHANNEL_COUNT then
                      Newer(old(At(c)), Get(changes.byBuffer, c)) else old(At(c))
    {
      if changes.byBuffer == map[] {
        return;
      }
      if statusByBuffer == map[] {
        sessionId := changes.sessionId;
      }
      if sessionId != changes.sessionId {
        return;
      }
      var rest := changes.byBuffer;
      while rest != map[]
        invariant Valid() && sessionId == changes.sessionId && revision == old(revision)
        invariant rest.Keys <= changes.byBuffer.Keys && forall c | c in rest :: rest[c] == changes.byBuffer[c]
        invariant forall c: int :: At(c) == if 1 <= c <= CHANNEL_COUNT && c in changes.byBuffer && c !in rest
                                            then Newer(old(At(c)), Get(changes.byBuffer, c)) else old(At(c))
        decreases rest.Keys
      {
        HasAKey(rest);
        var channel :| channel in rest;
        Observe(channel, rest[channel]);
        rest := rest - {channel};
      }
      if revision < changes.revision {
        revision := changes.revision;
      }
    }

    /** One channel takes an observation that is not older than its own. */
    method Observe(channel: int, change: Observation)
      requires Valid()
      modifies this`statusByBuffer, this`volumeByBuffer, this`revisionByBuffer
      ensures Valid()
      ensures forall c: int :: At(c) == if c == channel && 1 <= c <= CHANNEL_COUNT then Newer(old(At(c)), Some(change))
                                        else old(At(c))
    {
      var mine := if channel in revisionByBuffer then revisionByBuffer[channel] else 0;
      if 1 <= channel <= CHANNEL_COUNT && change.revision >= mine {
        statusByBuffer := statusByBuffer[channel := change.status];
        volumeByBuffer := volumeByBuffer[channel := change.volume];
        revisionByBuffer := revisionByBuffer[channel := change.revision];
      }
    }

    /** Merging a whole history into an empty snapshot. */
    method MergeAll(history: seq<Changes>, session: nat)
      requires Blank()
      requires OfSession(history, session)
      modifies this
      ensures Valid() && (history != [] ==> sessionId == session) && revision == Latest(history)
      ensures forall c: int :: At(c) == Folded(history, c)
    {
      for i := 0 to |history|
        invariant Valid() && (i > 0 ==> sessionId == session) && revision == Latest(history[..i])
        invariant i == 0 ==> statusByBuffer == map[]
        invariant forall c: int :: At(c) == Folded(history[..i], c)
      {
        assert history[i] in history && history[..i + 1][..i] == history[..i];
        HasAKey(history[i].byBuffer);
        ghost var channel :| channel in history[i].byBuffer;
        Merge(history[i]);
        assert At(channel).Some?;
      }
      assert history[..|history|] == history;
    }
  }

  function Latest(history: seq<Changes>): nat
    decreases |history|
  {
    if history == [] then 0 else
      var earlier, last := Latest(history[..|history| - 1]), history[|history| - 1];
      if earlier < last.revision then last.revision else earlier
  }

  ghost function Folded(history: seq<Changes>, channel: int): Option<Observation>
    decreases |history|
  {
    if history == [] then None
    else Newer(Folded(history[..|history| - 1], channel), Get(history[|history| - 1].byBuffer, channel))
  }

  /** Changes of one session, each about some of the channels. */
  ghost predicate OfSession(history: seq<Changes>, session: nat) {
    forall h | h in history ::
      h.sessionId == session && h.byBuffer != map[] && forall c | c in h.byBuffer :: 1 <= c <= CHANNEL_COUNT
  }

  /** Within a session equal revisions of a channel are the same observation. */
  ghost predicate Consistent(history: seq<Changes>) {
    forall h, k, c | h in history && k in history && c in h.byBuffer && c in k.byBuffer
        && h.byBuffer[c].revision == k.byBuffer[c].revision ::
      h.byBuffer[c] == k.byBuffer[c]
  }

  /** The result is the newest observation in the history, if there is any. */
  lemma {:induction false} FoldedIsNewest(history: seq<Changes>, channel: int)
    ensures var f := Folded(history, channel);
            && (f.Some? ==> exists h :: h in history && Get(h.byBuffer, channel) == f)
            && (forall h | h in history && channel in h.byBuffer ::
                  f.Some? && h.byBuffer[channel].revision <= f.value.revision)
    decreases |history|
  {
    if history != [] {
      var earlier, last := history[..|history| - 1], history[|history| - 1];
      FoldedIsNewest(earlier, channel);
      assert history == earlier + [last] && last in history;
      assert forall h :: h in history <==> h in earlier || h == last;
    }
  }

  lemma {:induction false} LatestIsMaximum(history: seq<Changes>)
    ensures forall h | h in history :: h.revision <= Latest(history)
    ensures Latest(history) == 0 || exists h :: h in history && h.revision == Latest(history)
    decreases |history|
  {
    if history != [] {
      var earlier, last := history[..|history| - 1], history[|history| - 1];
      LatestIsMaximum(earlier);
      assert history == earlier + [last] && last in history;
      assert forall h :: h in history <==> h in earlier || h == last;
    }
  }

  /** Any order and any repetition of the same changes gives the same snapshot. */
  lemma Converges(history: seq<Changes>, other: seq<Changes>, channel: int)
    requires Consistent(history) && forall h :: h in history <==> h in other
    ensures Folded(history, channel) == Folded(other, channel)
    ensures Latest(history) == Latest(other)
  {
    FoldedIsNewest(history, channel);
    FoldedIsNewest(other, channel);
    LatestIsMaximum(history);
    LatestIsMaximum(other);
  }

  /** Two snapshots that have received the same changes, in whatever order and however often, end up equal:
      session, revision and all three tables. */
  method SnapshotsAgree(one: LuaCallbackSoundPresentationSnapshot, other: LuaCallbackSoundPresentationSnapshot,
                        history: seq<Changes>, otherHistory: seq<Changes>, session: nat)
    requires one != other && one.Blank() && other.Blank()
    requires OfSession(history, session) && OfSession(otherHistory, session)
    requires Consistent(history) && forall h :: h in history <==> h in otherHistory
    modifies one, other
    ensures one.revision == other.revision && (history != [] ==> one.sessionId == other.sessionId == session)
    ensures one.statusByBuffer == other.statusByBuffer && one.volumeByBuffer == other.volumeByBuffer
    ensures one.revisionByBuffer == other.revisionByBuffer
  {
    one.MergeAll(history, session);
    other.MergeAll(otherHistory, session);
    if history != [] {
      assert history[0] in otherHistory;
    }
    Converges(history, otherHistory, 1);
    forall c: int
      ensures one.At(c) == other.At(c)
    {
      Converges(history, otherHistory, c);
    }
    SameTables(one, other);
  }

  lemma SameTables(one: LuaCallbackSoundPresentationSnapshot, other: LuaCallbackSoundPresentationSnapshot)
    requires one.Valid() && other.Valid() && forall c: int :: one.At(c) == other.At(c)
    ensures one.statusByBuffer == other.statusByBuffer && one.volumeByBuffer == other.volumeByBuffer
    ensures one.revisionByBuffer == other.revisionByBuffer
  {
    forall c: int
      ensures c in one.statusByBuffer <==> c in other.statusByBuffer
      ensures c in one.statusByBuffer ==>
                && one.statusByBuffer[c] == other.statusByBuffer[c] && one.volumeByBuffer[c] == other.volumeByBuffer[c]
                && one.revisionByBuffer[c] == other.revisionByBuffer[c]
    {
      assert one.At(c) == other.At(c);
    }
    assert one.statusByBuffer.Keys == other.statusByBuffer.Keys;
  }
}
