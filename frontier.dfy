/** The open set's priority queue: entries `(priority, counter, node)` and
    the removal of the least entry under Python's tuple ordering. The heap
    behind `PriorityQueue` is replaced by a sequence in insertion order. */
module Frontier {
  import opened Cells

  /** One queued item `(priority, counter, node)`. */
  datatype Entry = Entry(priority: nat, counter: nat, node: Pos)

  /** `Node.__lt__`: a node is never less than another node. */
  predicate NodeLess(a: Pos, b: Pos) {
    false
  }

  /** Python's `<` on `(priority, counter, node)` tuples: lexicographic,
      falling back on `Node.__lt__` only when priority and counter tie. */
  predicate EntryLess(a: Entry, b: Entry) {
    || a.priority < b.priority
    || (a.priority == b.priority && a.counter < b.counter)
    || (a.priority == b.priority && a.counter == b.counter && NodeLess(a.node, b.node))
  }

  /** `get()`: remove and return an entry that no other queued entry is
      less than. */
  method PopMin(queue: seq<Entry>) returns (least: Entry, rest: seq<Entry>, ghost k: nat)
    requires queue != []
    ensures k < |queue| && least == queue[k]
    ensures rest == queue[..k] + queue[k + 1..]
    ensures forall i :: 0 <= i < |queue| ==> !EntryLess(queue[i], least)
  {
    var m := 0;
    for i := 1 to |queue|
      invariant m < i
      invariant forall j :: 0 <= j < i ==> !EntryLess(queue[j], queue[m])
    {
      if EntryLess(queue[i], queue[m]) {
        m := i;
      }
    }
    least, rest, k := queue[m], queue[..m] + queue[m + 1..], m;
  }

  /** Ties on priority go to the entry queued first: an entry no other
      entry is less than has the smallest counter among its priority. */
  lemma FirstInFirstOut(queue: seq<Entry>, k: nat)
    requires k < |queue|
    requires forall i, j :: 0 <= i < j < |queue| ==> queue[i].counter != queue[j].counter
    requires forall i :: 0 <= i < |queue| ==> !EntryLess(queue[i], queue[k])
    ensures forall e :: e in queue && e != queue[k] && e.priority == queue[k].priority ==>
      queue[k].counter < e.counter
  {
    forall e | e in queue && e != queue[k] && e.priority == queue[k].priority
      ensures queue[k].counter < e.counter
    {
      var i :| 0 <= i < |queue| && queue[i] == e;
      assert !EntryLess(queue[i], queue[k]);
      assert i != k;
      assert queue[i].counter != queue[k].counter;
    }
  }

  /** The tuple order is a strict order, as the queue requires. */
  lemma EntryLessStrict(a: Entry, b: Entry, c: Entry)
    ensures !EntryLess(a, a)
    ensures EntryLess(a, b) && EntryLess(b, c) ==> EntryLess(a, c)
  {
  }

  /** Entries with different counters are always ordered by priority then
      counter, so `Node.__lt__` never decides a comparison. */
  lemma CountersDecide(a: Entry, b: Entry)
    requires a.counter != b.counter
    ensures EntryLess(a, b) <==> a.priority < b.priority || (a.priority == b.priority && a.counter < b.counter)
    ensures EntryLess(a, b) || EntryLess(b, a)
  {
  }
}
