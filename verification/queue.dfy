/**
 * The scheduler's `queue.PriorityQueue` of `(priority, node_id)` tuples,
 * modelled by what it does rather than as a heap: `put` adds an entry, `get`
 * removes and returns a least entry under Python's tuple order (priority
 * first, then the id as a string).
 */
module Queue {
  import opened Text
  import opened Nodes

  datatype Entry = Entry(priority: int, id: Id)

  /** Python's `<` on `(priority, node_id)` tuples: the ids compare as strings. */
  predicate Less(a: Entry, b: Entry)
  {
    a.priority < b.priority || (a.priority == b.priority && LexLess(IdText(a.id), IdText(b.id)))
  }

  /** The priority decides first; the id only breaks ties. */
  lemma LessByPriority(a: Entry, b: Entry)
    ensures a.priority < b.priority ==> Less(a, b)
    ensures Less(a, b) ==> a.priority <= b.priority
  {
  }

  lemma LessIrreflexive(a: Entry)
    ensures !Less(a, a)
  {
    LexLessIrreflexive(IdText(a.id));
  }

  lemma LessTransitive(a: Entry, b: Entry, c: Entry)
    requires Less(a, b) && Less(b, c)
    ensures Less(a, c)
  {
    if a.priority == b.priority == c.priority {
      LexLessTransitive(IdText(a.id), IdText(b.id), IdText(c.id));
    }
  }

  /** Tuple order is total: of two different entries one is smaller. */
  lemma LessTotal(a: Entry, b: Entry)
    requires a != b
    ensures Less(a, b) || Less(b, a)
  {
    if a.priority == b.priority {
      if IdText(a.id) != IdText(b.id) {
        LexLessTotal(IdText(a.id), IdText(b.id));
      } else {
        IdTextInjective(a.id, b.id);
      }
    }
  }

  /** The position of a least entry: no entry of `s` is smaller than `s[k]`. */
  method MinIndex(s: seq<Entry>) returns (k: nat)
    requires |s| > 0
    ensures k < |s|
    ensures forall j :: 0 <= j < |s| ==> !Less(s[j], s[k])
  {
    k := 0;
    LessIrreflexive(s[0]);
    for i := 1 to |s|
      invariant k < i
      invariant forall j :: 0 <= j < i ==> !Less(s[j], s[k])
    {
      if Less(s[i], s[k]) {
        forall j | 0 <= j < i ensures !Less(s[j], s[i]) {
          if Less(s[j], s[i]) {
            LessTransitive(s[j], s[i], s[k]);
          }
        }
        LessIrreflexive(s[i]);
        k := i;
      }
    }
  }

  /** Two least entries of the same collection are equal: `get`'s answer does not depend on the heap's layout. */
  lemma LeastIsUnique(s: seq<Entry>, a: Entry, b: Entry)
    requires a in s && b in s
    requires forall j :: 0 <= j < |s| ==> !Less(s[j], a) && !Less(s[j], b)
    ensures a == b
  {
    if a != b {
      LessTotal(a, b);
    }
  }

  class PriorityQueue {
    var entries: seq<Entry>

    constructor ()
      ensures entries == []
    {
      entries := [];
    }

    /** `empty()`. */
    function Empty(): (r: bool)
      reads this
      ensures r <==> |entries| == 0
    {
      entries == []
    }

    /** `put(e)`. */
    method Put(e: Entry)
      modifies this
      ensures entries == old(entries) + [e]
    {
      entries := entries + [e];
    }

    /**
     * `get()`: remove and return a least entry. Python's `get` blocks on an
     * empty queue, so callers first ask `empty()`.
     */
    method Get() returns (e: Entry)
      requires entries != []
      modifies this
      ensures e in old(entries)
      ensures forall j :: 0 <= j < |old(entries)| ==> !Less(old(entries)[j], e)
      ensures multiset(entries) + multiset{e} == multiset(old(entries))
    {
      var k := MinIndex(entries);
      e := entries[k];
      assert entries == entries[..k] + [e] + entries[k + 1..];
      entries := entries[..k] + entries[k + 1..];
    }
  }
}
