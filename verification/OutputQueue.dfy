/**
 The ring buffer of the output queue: 256 slots, unsigned 64-bit indexes, and at most 255 waiting texts.
 */
module OutputQueues {

  const QUEUE_SIZE := 256
  const SIZE_MOD := 0x1_0000_0000_0000_0000  // `size_t` wraps around here

  /** What `GetItemTot` makes of two indexes. */
  function ItemTot(start: int, end: int): int {
    var difference := (start - end) % SIZE_MOD;
    if difference == QUEUE_SIZE then QUEUE_SIZE else difference % QUEUE_SIZE
  }

  /** The next index, going back to 0 at the end of the buffer. */
  function Bump(i: int): int {
    if i + 1 >= QUEUE_SIZE then 0 else i + 1
  }

  predicate IsIndex(i: int) {
    0 <= i < QUEUE_SIZE
  }

  /** The slot `k` places after the index `i`. */
  function Slot(i: int, k: int): int {
    (i + k) % QUEUE_SIZE
  }

  /** The texts waiting between two indexes, oldest first. */
  function Waiting(slots: seq<string>, start: int, end: int): seq<string>
    requires |slots| == QUEUE_SIZE && IsIndex(start) && IsIndex(end)
  {
    seq((start - end) % QUEUE_SIZE, k requires 0 <= k => slots[Slot(end, k)])
  }

  /** Adding the size, whether or not the sum wraps around, keeps the remainder by the size. */
  lemma AddSize(tot: int)
    requires QUEUE_SIZE < tot < SIZE_MOD
    ensures var sum := (tot + QUEUE_SIZE) % SIZE_MOD;
            && 0 <= sum < SIZE_MOD && sum % QUEUE_SIZE == tot % QUEUE_SIZE && sum != QUEUE_SIZE
            && (sum > QUEUE_SIZE ==> sum > tot)
  {
  }

  /** Adding the size repeatedly, modulo the word size, ends with the difference modulo the size. */
  method GetItemTot(start: int, end: int) returns (tot: int)
    requires 0 <= start < 0x1_0000_0000_0000_0000 && 0 <= end < 0x1_0000_0000_0000_0000
    ensures tot == ItemTot(start, end) && 0 <= tot <= 256
    ensures var difference := (start - end) % 0x1_0000_0000_0000_0000;
            tot == if difference == 256 then 256 else difference % 256
  {
    tot := (start - end) % SIZE_MOD;
    ghost var difference := tot;
    while tot > QUEUE_SIZE
      invariant 0 <= tot < SIZE_MOD
      invariant tot % QUEUE_SIZE == difference % QUEUE_SIZE
      invariant tot == QUEUE_SIZE <==> difference == QUEUE_SIZE
      decreases if tot > QUEUE_SIZE then SIZE_MOD - tot else 0
    {
      AddSize(tot);
      tot := (tot + QUEUE_SIZE) % SIZE_MOD;
    }
  }

  /** For indexes in the buffer, even the end index caught just before it wraps, it is the number waiting. */
  lemma ItemTotCounts(start: int, end: int)
    requires IsIndex(start) && 0 <= end <= QUEUE_SIZE
    ensures ItemTot(start, end) == (start - end % 256) % 256 < 256
  {
  }

  /** Popping takes the oldest text. */
  lemma WaitingPop(slots: seq<string>, start: int, end: int)
    requires |slots| == QUEUE_SIZE && IsIndex(start) && IsIndex(end) && start != end
    ensures Waiting(slots, start, end) == [slots[end]] + Waiting(slots, start, Bump(end))
  {
  }

  /**
   Writing the slot at the start index disturbs no waiting text. Bumping the index then appends the text, or,
   when 255 texts wait already, makes the queue look empty.
   */
  lemma WaitingPush(slots: seq<string>, start: int, end: int, text: string)
    requires |slots| == QUEUE_SIZE && IsIndex(start) && IsIndex(end)
    ensures Waiting(slots[start := text], start, end) == Waiting(slots, start, end)
    ensures Waiting(slots[start := text], Bump(start), end) ==
            if |Waiting(slots, start, end)| < 255 then Waiting(slots, start, end) + [text] else []
  {
    WaitingWrite(slots, start, end, text);
    WaitingBump(slots[start := text], start, end);
  }

  lemma WaitingWrite(slots: seq<string>, start: int, end: int, text: string)
    requires |slots| == QUEUE_SIZE && IsIndex(start) && IsIndex(end)
    ensures Waiting(slots[start := text], start, end) == Waiting(slots, start, end)
  {
  }

  lemma WaitingBump(slots: seq<string>, start: int, end: int)
    requires |slots| == QUEUE_SIZE && IsIndex(start) && IsIndex(end)
    ensures Waiting(slots, Bump(start), end) ==
            if |Waiting(slots, start, end)| < 255 then Waiting(slots, start, end) + [slots[start]] else []
  {
  }

  /** The memory of the queue. */
  datatype Ring = Ring(slots: seq<string>, start: int, end: int)
  {
    predicate Valid() {
      |slots| == QUEUE_SIZE && IsIndex(start) && IsIndex(end)
    }

    /** After the part of `Push` under the lock. */
    function Pushed(text: string): Ring
      requires Valid()
    {
      Ring(slots[start := text], Bump(start), end)
    }

    /** After `Pop`, and the slot it returns. */
    function Popped(): (Ring, int)
      requires Valid()
    {
      if ItemTot(start, end) == 0 then (this, -1) else (Ring(slots, start, Bump(end)), end)
    }
  }

  class OutputQueue {
    const queue: array<string>
    var startIndex: int
    var endIndex: int

    ghost function Memory(): Ring
      reads this, queue
    {
      Ring(queue[..], startIndex, endIndex)
    }

    ghost predicate Valid()
      reads this, queue
    {
      Memory().Valid()
    }

    /** The texts waiting to be printed. */
    ghost function Contents(): seq<string>
      requires Valid()
      reads this, queue
    {
      Waiting(queue[..], startIndex, endIndex)
    }

    constructor ()
      ensures Valid() && fresh(queue) && Contents() == []
    {
      queue := new string[QUEUE_SIZE](_ => "");
      startIndex, endIndex := 0, 0;
    }

    /**
     The part of `Push` under the lock. With room for the text it is appended, and the slot handed out by
     the last `Pop` is not the one written; on a full queue everything waiting is lost.
     */
    method Push(text: string)
      requires Valid()
      modifies this`startIndex, queue
      ensures Valid() && Memory() == old(Memory()).Pushed(text)
      ensures Contents() == if |old(Contents())| < 255 then old(Contents()) + [text] else []
      ensures |old(Contents())| < 255 ==>
                queue[(endIndex - 1) % 256] == old(queue[(endIndex - 1) % 256])
    {
      WaitingPush(queue[..], startIndex, endIndex, text);
      queue[startIndex] := text;
      startIndex := startIndex + 1;
      if startIndex >= QUEUE_SIZE {
        startIndex := 0;
      }
    }

    /** Removes the oldest text and returns its slot, or -1 when none is waiting. */
    method Pop() returns (slot: int)
      requires Valid()
      modifies this`endIndex
      ensures Valid() && (Memory(), slot) == old(Memory()).Popped()
      ensures old(Contents()) == [] ==> slot == -1 && Contents() == []
      ensures old(Contents()) != [] ==>
                && slot == (endIndex - 1) % 256 && queue[slot] == old(Contents())[0]
                && Contents() == old(Contents())[1..]
    {
      PopTakesOldest(queue[..], startIndex, endIndex);
      slot := -1;
      var tot := GetItemTot(startIndex, endIndex);
      hide ItemTot, Waiting;
      if tot != 0 {
        slot := endIndex;
        endIndex := endIndex + 1;
        if endIndex >= QUEUE_SIZE {
          endIndex := 0;
        }
      }
    }

    /** The drain loop of the worker: prints everything that waits, in order. */
    method Drain() returns (printed: seq<string>)
      requires Valid()
      modifies this`endIndex
      ensures Valid() && Contents() == [] && printed == old(Contents())
    {
      hide Waiting, ItemTot;
      printed := [];
      var slot := Pop();
      while slot != -1
        invariant Valid() && -1 <= slot < QUEUE_SIZE
        invariant slot != -1 ==> old(Contents()) == printed + [queue[slot]] + Contents()
        invariant slot == -1 ==> old(Contents()) == printed && Contents() == []
        decreases slot != -1, |Contents()|
      {
        printed := printed + [queue[slot]];
        slot := Pop();
      }
    }
  }

  /** Nothing waits exactly if the number of items is 0; otherwise the oldest text is at the end index. */
  lemma PopTakesOldest(slots: seq<string>, start: int, end: int)
    requires |slots| == QUEUE_SIZE && IsIndex(start) && IsIndex(end)
    ensures ItemTot(start, end) == 0 <==> Waiting(slots, start, end) == []
    ensures ItemTot(start, end) != 0 ==> Waiting(slots, start, end) == [slots[end]] + Waiting(slots, start, Bump(end))
    ensures end == (Bump(end) - 1) % QUEUE_SIZE
  {
    ItemTotCounts(start, end);
    if start != end {
      WaitingPop(slots, start, end);
    }
  }
}
