/** Bitmap-compressed child arrays: a 32-bit occupancy bitmap, with one array element per set bit,
    stored at the rank of its bit. */
module SparseBranches {
  import opened Wrappers
  import opened MachineWord

  const FANOUT := 32

  /** A 32-bit occupancy word, least significant bit first. */
  type Bitmap = bits: seq<bool> | |bits| == FANOUT witness seq(FANOUT, i => false)

  const NO_BRANCHES: Bitmap := seq(FANOUT, i => false)

  predicate Occupied(bitmap: Bitmap, branch: nat)
    requires branch < FANOUT
  {
    bitmap[branch]
  }

  /** bitmap | bit */
  function Including(bitmap: Bitmap, branch: nat): Bitmap
    requires branch < FANOUT
  {
    bitmap[branch := true]
  }

  /** bitmap & ~bit */
  function Excluding(bitmap: Bitmap, branch: nat): Bitmap
    requires branch < FANOUT
  {
    bitmap[branch := false]
  }

  /** bitmap & (bit - 1) */
  function Below(bitmap: Bitmap, branch: nat): Bitmap
    requires branch < FANOUT
  {
    seq(FANOUT, i requires 0 <= i < FANOUT => i < branch && bitmap[i])
  }

  /** The bitmap that a 32-bit word stands for. */
  function Bits(word: bv32): Bitmap {
    seq(FANOUT, i requires 0 <= i < FANOUT => Meets(word, Bit(i)))
  }

  /** The word operations are the bitmap operations: the mask of the rank, setting and clearing. */
  lemma WordOperations(word: bv32, branch: nat)
    requires branch < FANOUT
    ensures Bits(Masked(word, Bit(branch))) == Below(Bits(word), branch)
    ensures Popcount(Bits(Masked(word, Bit(branch)))) == BranchIndex(Bits(word), branch)
    ensures Bits(With(word, Bit(branch))) == Including(Bits(word), branch)
    ensures Bits(Without(word, Bit(branch))) == Excluding(Bits(word), branch)
  {
    hide Bit, Meets, Masked, With, Without, Single, Lower;
    var bit := Bit(branch);
    forall i | 0 <= i < FANOUT
      ensures Bits(Masked(word, bit))[i] == Below(Bits(word), branch)[i]
      ensures Bits(With(word, bit))[i] == Including(Bits(word), branch)[i]
      ensures Bits(Without(word, bit))[i] == Excluding(Bits(word), branch)[i]
    {
      OneBit(i);
      OneBit(branch);
      BitsInOrder(i, branch);
      LowMask(word, bit, Bit(i));
      SetBit(word, bit, Bit(i));
      ClearedBit(word, bit, Bit(i));
    }
  }

  /** A word is zero exactly when its bitmap has no branch. */
  lemma ZeroWord(word: bv32)
    ensures word == 0 <==> Bits(word) == NO_BRANCHES
  {
    hide Bit, Meets;
    NoBits(word);
    if Bits(word) == NO_BRANCHES {
      forall i | 0 <= i < FANOUT
        ensures !Meets(word, Bit(i))
      {
        assert !Bits(word)[i];
      }
    }
  }

  /** Number of set bits strictly below position n. */
  function SetBitsBelow(bitmap: Bitmap, n: nat): nat
    requires n <= FANOUT
  {
    if n == 0 then 0 else SetBitsBelow(bitmap, n - 1) + if Occupied(bitmap, n - 1) then 1 else 0
  }

  function Popcount(bitmap: Bitmap): nat {
    SetBitsBelow(bitmap, FANOUT)
  }

  function BranchIndex(bitmap: Bitmap, branch: nat): nat
    requires branch < FANOUT
  {
    Popcount(Below(bitmap, branch))
  }

  /** A compressed array has exactly one element per occupied branch. */
  predicate Compressed<T>(bitmap: Bitmap, items: seq<T>) {
    |items| == Popcount(bitmap)
  }

  /** The element a compressed array holds for one branch. */
  function Slot<T>(bitmap: Bitmap, items: seq<T>, branch: nat): (slot: Option<T>)
    requires branch < FANOUT && Compressed(bitmap, items)
    ensures slot.Some? <==> Occupied(bitmap, branch)
    ensures slot.Some? ==> BranchIndex(bitmap, branch) < |items|
  {
    if Occupied(bitmap, branch) then
      RankInRange(bitmap, branch);
      Some(items[BranchIndex(bitmap, branch)])
    else
      None
  }

  // ----- Ranks -----

  /** The masked popcount is the number of occupied branches below the given one. */
  lemma {:induction false} RankUpTo(bitmap: Bitmap, branch: nat, n: nat)
    requires branch < FANOUT && n <= FANOUT
    ensures SetBitsBelow(Below(bitmap, branch), n)
         == SetBitsBelow(bitmap, if n < branch then n else branch)
  {
    if n > 0 {
      RankUpTo(bitmap, branch, n - 1);
    }
  }

  lemma {:induction false} NoBranchesNoElements(n: nat)
    requires n <= FANOUT
    ensures SetBitsBelow(NO_BRANCHES, n) == 0
  {
    if n > 0 {
      NoBranchesNoElements(n - 1);
    }
  }

  lemma {:induction false} RankGrows(bitmap: Bitmap, low: nat, high: nat)
    requires low <= high <= FANOUT
    ensures SetBitsBelow(bitmap, low) <= SetBitsBelow(bitmap, high)
    ensures low < high && Occupied(bitmap, low) ==> SetBitsBelow(bitmap, low) < SetBitsBelow(bitmap, high)
  {
    if low < high {
      RankGrows(bitmap, low, high - 1);
    }
  }

  lemma RankInRange(bitmap: Bitmap, branch: nat)
    requires branch < FANOUT
    ensures BranchIndex(bitmap, branch) == SetBitsBelow(bitmap, branch) <= Popcount(bitmap)
    ensures Occupied(bitmap, branch) ==> BranchIndex(bitmap, branch) < Popcount(bitmap)
  {
    RankUpTo(bitmap, branch, FANOUT);
    RankGrows(bitmap, branch, FANOUT);
  }

  /** Every array position belongs to an occupied branch, so nothing is stored out of reach. */
  lemma {:induction false} EveryPositionHasABranch(bitmap: Bitmap, index: nat, n: nat) returns (branch: nat)
    requires n <= FANOUT && index < SetBitsBelow(bitmap, n)
    ensures branch < n && Occupied(bitmap, branch) && SetBitsBelow(bitmap, branch) == index
  {
    if Occupied(bitmap, n - 1) && SetBitsBelow(bitmap, n - 1) == index {
      branch := n - 1;
    } else {
      branch := EveryPositionHasABranch(bitmap, index, n - 1);
    }
  }

  lemma DistinctBranchesDistinctPositions(bitmap: Bitmap, a: nat, b: nat)
    requires a < FANOUT && b < FANOUT && a != b && Occupied(bitmap, a) && Occupied(bitmap, b)
    ensures BranchIndex(bitmap, a) != BranchIndex(bitmap, b)
  {
    RankInRange(bitmap, a);
    RankInRange(bitmap, b);
    RankGrows(bitmap, if a < b then a else b, if a < b then b else a);
  }

  // ----- The three array edits, seen through View -----

  lemma SetBitsAfterInsert(bitmap: Bitmap, branch: nat, n: nat)
    requires branch < FANOUT && n <= FANOUT && !Occupied(bitmap, branch)
    ensures SetBitsBelow(Including(bitmap, branch), n) == SetBitsBelow(bitmap, n) + if branch < n then 1 else 0
  {
    if n > 0 {
      SetBitsAfterInsert(bitmap, branch, n - 1);
    }
  }

  lemma SetBitsAfterRemove(bitmap: Bitmap, branch: nat, n: nat)
    requires branch < FANOUT && n <= FANOUT && Occupied(bitmap, branch)
    ensures SetBitsBelow(Excluding(bitmap, branch), n) == SetBitsBelow(bitmap, n) - if branch < n then 1 else 0
  {
    if n > 0 {
      SetBitsAfterRemove(bitmap, branch, n - 1);
    }
  }

  /** The compressed array seen as a finite map from occupied branches to elements. */
  ghost function View<T>(bitmap: Bitmap, items: seq<T>): (view: map<nat, T>)
    requires Compressed(bitmap, items)
  {
    map b: nat | b < FANOUT && Occupied(bitmap, b) :: Slot(bitmap, items, b).value
  }

  /** Overwriting the array element of an occupied branch changes that branch and no other. */
  lemma ReplaceKeepsOthers<T>(bitmap: Bitmap, items: seq<T>, branch: nat, item: T)
    requires branch < FANOUT && Compressed(bitmap, items) && Occupied(bitmap, branch)
    ensures BranchIndex(bitmap, branch) < |items|
    ensures View(bitmap, items[BranchIndex(bitmap, branch) := item]) == View(bitmap, items)[branch := item]
  {
    RankInRange(bitmap, branch);
    var before, after := View(bitmap, items), View(bitmap, items[BranchIndex(bitmap, branch) := item]);
    forall b | b in after
      ensures after[b] == before[branch := item][b]
    {
      if b != branch {
        DistinctBranchesDistinctPositions(bitmap, b, branch);
      }
    }
  }

  /** Inserting at the rank of a free branch fills that branch and moves no other branch. */
  lemma InsertKeepsOthers<T>(bitmap: Bitmap, items: seq<T>, branch: nat, item: T)
    requires branch < FANOUT && Compressed(bitmap, items) && !Occupied(bitmap, branch)
    ensures BranchIndex(bitmap, branch) <= |items|
    ensures var at := BranchIndex(bitmap, branch);
            var grown := items[..at] + [item] + items[at..];
            && Compressed(Including(bitmap, branch), grown)
            && View(Including(bitmap, branch), grown) == View(bitmap, items)[branch := item]
  {
    RankInRange(bitmap, branch);
    var at := BranchIndex(bitmap, branch);
    var grown := items[..at] + [item] + items[at..];
    var wider := Including(bitmap, branch);
    SetBitsAfterInsert(bitmap, branch, FANOUT);
    var before, after := View(bitmap, items), View(wider, grown);
    forall b | b in after
      ensures after[b] == before[branch := item][b]
    {
      RankInRange(bitmap, b);
      RankInRange(wider, b);
      SetBitsAfterInsert(bitmap, branch, b);
      if b < branch {
        RankGrows(bitmap, b, branch);
      } else {
        RankGrows(bitmap, branch, b);
      }
    }
  }

  /** Removing at the rank of an occupied branch frees that branch and moves no other branch. */
  lemma RemoveKeepsOthers<T>(bitmap: Bitmap, items: seq<T>, branch: nat)
    requires branch < FANOUT && Compressed(bitmap, items) && Occupied(bitmap, branch)
    ensures BranchIndex(bitmap, branch) < |items|
    ensures var at := BranchIndex(bitmap, branch);
            var shrunk := items[..at] + items[at + 1..];
            && Compressed(Excluding(bitmap, branch), shrunk)
            && View(Excluding(bitmap, branch), shrunk) == View(bitmap, items) - {branch}
  {
    RankInRange(bitmap, branch);
    var at := BranchIndex(bitmap, branch);
    var shrunk := items[..at] + items[at + 1..];
    var narrower := Excluding(bitmap, branch);
    SetBitsAfterRemove(bitmap, branch, FANOUT);
    var before, after := View(bitmap, items), View(narrower, shrunk);
    forall b | b in after
      ensures after[b] == (before - {branch})[b]
    {
      RankInRange(bitmap, b);
      RankInRange(narrower, b);
      SetBitsAfterRemove(bitmap, branch, b);
      if b < branch {
        RankGrows(bitmap, b, branch);
      } else {
        RankGrows(bitmap, branch, b);
      }
    }
  }

  /** The bitmap and array represent the given map. */
  ghost predicate Shows<T>(bitmap: Bitmap, items: seq<T>, view: map<nat, T>) {
    Compressed(bitmap, items) && view == View(bitmap, items)
  }

  lemma EmptyShows<T>()
    ensures Shows<T>(NO_BRANCHES, [], map[])
  {
    NoBranchesNoElements(FANOUT);
  }

  lemma ShowsEmpty<T>(bitmap: Bitmap, items: seq<T>, view: map<nat, T>)
    requires Shows(bitmap, items, view)
    ensures view == map[] <==> bitmap == NO_BRANCHES
  {
    if view == map[] {
      forall b: nat | b < FANOUT
        ensures !bitmap[b]
      {
        assert b !in View(bitmap, items);
      }
      assert bitmap == NO_BRANCHES;
    }
  }

  lemma ShowsAt<T>(bitmap: Bitmap, items: seq<T>, view: map<nat, T>, branch: nat)
    requires branch < FANOUT && Shows(bitmap, items, view)
    ensures branch in view <==> Occupied(bitmap, branch)
    ensures branch in view ==>
              BranchIndex(bitmap, branch) < |items| && view[branch] == items[BranchIndex(bitmap, branch)]
  {
  }

  /** One update of a compressed array: overwrite, insert at the rank, remove at the rank, or nothing. */
  function Installed<T>(bitmap: Bitmap, items: seq<T>, branch: nat, item: Option<T>, ghost view: map<nat, T>)
    : (edited: (Bitmap, seq<T>))
    requires branch < FANOUT && Shows(bitmap, items, view)
    ensures Shows(edited.0, edited.1, Put(view, branch, item))
  {
    RankInRange(bitmap, branch);
    var index := BranchIndex(bitmap, branch);
    if item.Some? then
      if Occupied(bitmap, branch) then
        ReplaceKeepsOthers(bitmap, items, branch, item.value);
        (bitmap, items[index := item.value])
      else
        InsertKeepsOthers(bitmap, items, branch, item.value);
        (Including(bitmap, branch), items[..index] + [item.value] + items[index..])
    else if Occupied(bitmap, branch) then
      RemoveKeepsOthers(bitmap, items, branch);
      (Excluding(bitmap, branch), items[..index] + items[index + 1..])
    else
      (bitmap, items)
  }
}
