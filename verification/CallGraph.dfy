/** The profiler's call graph: hash buckets of function entries, each with a list of
    call arcs, linked by address through memory from the slab allocator. */
module CallGraph {
  import opened Heap

  const HASH_BUCKETS: nat := 64
  /** Both kinds of record are three words. */
  const RECORD_SIZE: nat := 12

  datatype FnEntry = FnEntry(next: nat, selfPc: nat, arcHead: nat)

  datatype FnArc = FnArc(next: nat, fromPc: nat, count: nat)

  /** Following the next pointers from `head` visits exactly `list`. */
  ghost predicate FnList(fns: map<nat, FnEntry>, head: nat, list: seq<nat>)
    decreases |list|
  {
    if list == [] then head == 0
    else head == list[0] && head != 0 && head in fns && FnList(fns, fns[head].next, list[1..])
  }

  ghost predicate ArcList(arcs: map<nat, FnArc>, head: nat, list: seq<nat>)
    decreases |list|
  {
    if list == [] then head == 0
    else head == list[0] && head != 0 && head in arcs && ArcList(arcs, arcs[head].next, list[1..])
  }

  /** A list does not notice new entries, nor changes that keep the next pointers. */
  lemma {:induction false} FnListKept(fns: map<nat, FnEntry>, fns': map<nat, FnEntry>, head: nat, list: seq<nat>)
    requires FnList(fns, head, list)
    requires forall a :: a in fns ==> a in fns' && fns'[a].next == fns[a].next
    ensures FnList(fns', head, list)
    decreases |list|
  {
    if list != [] {
      FnListKept(fns, fns', fns[head].next, list[1..]);
    }
  }

  lemma {:induction false} ArcListKept(arcs: map<nat, FnArc>, arcs': map<nat, FnArc>, head: nat, list: seq<nat>)
    requires ArcList(arcs, head, list)
    requires forall a :: a in arcs ==> a in arcs' && arcs'[a] == arcs[a]
    ensures ArcList(arcs', head, list)
    decreases |list|
  {
    if list != [] {
      ArcListKept(arcs, arcs', arcs[head].next, list[1..]);
    }
  }

  /** Function entries and arcs lie in records of their own. */
  ghost predicate Placed(records: seq<Block>, fns: set<nat>, arcs: set<nat>) {
    && fns !! arcs
    && (forall a :: a in fns || a in arcs ==> a != 0 && Block(a, RECORD_SIZE, true) in records)
  }

  /** The buckets and arc lists as the profiler keeps them. */
  ghost predicate Linked(fnHead: seq<nat>, fns: map<nat, FnEntry>, arcs: map<nat, FnArc>,
                         buckets: seq<seq<nat>>, arcLists: map<nat, seq<nat>>)
  {
    && |fnHead| == |buckets| == HASH_BUCKETS && arcLists.Keys == fns.Keys
    && (forall b :: 0 <= b < HASH_BUCKETS ==> FnList(fns, fnHead[b], buckets[b]))
    && (forall a :: a in fns ==> ArcList(arcs, fns[a].arcHead, arcLists[a]))
  }

  /** A new entry in front of a bucket. */
  lemma EntryLinked(fnHead: seq<nat>, fns: map<nat, FnEntry>, arcs: map<nat, FnArc>, buckets: seq<seq<nat>>,
                    arcLists: map<nat, seq<nat>>, entry: nat, selfPc: nat, bucket: nat)
    requires Linked(fnHead, fns, arcs, buckets, arcLists) && bucket < HASH_BUCKETS
    requires entry != 0 && entry !in fns
    ensures Linked(fnHead[bucket := entry], fns[entry := FnEntry(fnHead[bucket], selfPc, 0)], arcs,
                   buckets[bucket := [entry] + buckets[bucket]], arcLists[entry := []])
    ensures fns[entry := FnEntry(fnHead[bucket], selfPc, 0)].Keys == fns.Keys + {entry}
  {
    var fns' := fns[entry := FnEntry(fnHead[bucket], selfPc, 0)];
    var buckets' := buckets[bucket := [entry] + buckets[bucket]];
    forall b | 0 <= b < HASH_BUCKETS
      ensures FnList(fns', fnHead[bucket := entry][b], buckets'[b])
    {
      FnListKept(fns, fns', fnHead[b], buckets[b]);
      assert buckets'[bucket][1..] == buckets[bucket];
    }
  }

  /** A new arc in front of the list of a function entry. */
  lemma ArcLinked(fnHead: seq<nat>, fns: map<nat, FnEntry>, arcs: map<nat, FnArc>, buckets: seq<seq<nat>>,
                  arcLists: map<nat, seq<nat>>, arc: nat, fromPc: nat, entry: nat)
    requires Linked(fnHead, fns, arcs, buckets, arcLists) && entry in fns
    requires arc !in arcs && arc != 0
    ensures Linked(fnHead, fns[entry := fns[entry].(arcHead := arc)],
                   arcs[arc := FnArc(fns[entry].arcHead, fromPc, 1)],
                   buckets, arcLists[entry := [arc] + arcLists[entry]])
    ensures fns[entry := fns[entry].(arcHead := arc)].Keys == fns.Keys
    ensures arcs[arc := FnArc(fns[entry].arcHead, fromPc, 1)].Keys == arcs.Keys + {arc}
  {
    var fns' := fns[entry := fns[entry].(arcHead := arc)];
    var arcs' := arcs[arc := FnArc(fns[entry].arcHead, fromPc, 1)];
    var arcLists' := arcLists[entry := [arc] + arcLists[entry]];
    forall b | 0 <= b < HASH_BUCKETS
      ensures FnList(fns', fnHead[b], buckets[b])
    {
      FnListKept(fns, fns', fnHead[b], buckets[b]);
    }
    forall a | a in fns'
      ensures ArcList(arcs', fns'[a].arcHead, arcLists'[a])
    {
      ArcListKept(arcs, arcs', fns[a].arcHead, arcLists[a]);
      assert arcLists'[entry][1..] == arcLists[entry];
    }
  }

  lemma Overwrite<T>(m: map<nat, T>, k: nat, x: T, y: T)
    ensures m[k := x][k := y] == m[k := y]
  {
  }

  class Profile {
    const heap: Allocator
    var fnHead: seq<nat>
    var fns: map<nat, FnEntry>
    var arcs: map<nat, FnArc>
    /** The entries of every bucket and the arcs of every entry, newest first. */
    ghost var buckets: seq<seq<nat>>
    ghost var arcLists: map<nat, seq<nat>>

    ghost predicate Valid()
      reads this, heap
    {
      && heap.Valid() && 0 < heap.heapStart && heap.heapLimit + 6 < HALF
      && Placed(heap.records, fns.Keys, arcs.Keys)
      && Linked(fnHead, fns, arcs, buckets, arcLists)
    }

    constructor (h: Allocator)
      requires h.Valid() && 0 < h.heapStart && h.heapLimit + 6 < HALF
      ensures Valid() && heap == h && fns == map[] && arcs == map[]
      ensures buckets == seq(HASH_BUCKETS, _ => []) && arcLists == map[]
    {
      heap := h;
      fnHead := seq(HASH_BUCKETS, _ => 0);
      fns, arcs := map[], map[];
      buckets, arcLists := seq(HASH_BUCKETS, _ => []), map[];
    }

    /** Get memory for a record: none of the records so far lies at its address. */
    method NewRecord() returns (a: nat, ok: bool)
      requires Valid()
      modifies heap
      ensures ok <==> old(heap.Available(RECORD_SIZE))
      ensures ok ==> (heap.Available(RECORD_SIZE) <==> old(heap.Available(2 * RECORD_SIZE)))
      ensures ok ==> Valid() && a !in fns && a !in arcs
      ensures ok ==> a != 0 && Block(a, RECORD_SIZE, true) in heap.records
    {
      a, ok := heap.McountAllocate(RECORD_SIZE);
    }

    /** Add a function entry in front of its bucket. */
    method AddFunction(selfPc: nat, bucket: nat) returns (entry: nat, ok: bool)
      requires Valid() && bucket < HASH_BUCKETS
      modifies this`fnHead, this`fns, this`buckets, this`arcLists, heap
      ensures ok <==> old(heap.Available(RECORD_SIZE))
      ensures ok ==> (heap.Available(RECORD_SIZE) <==> old(heap.Available(2 * RECORD_SIZE)))
      ensures ok ==> Valid() && entry !in old(fns) && entry in fns
      ensures ok ==> fns == old(fns)[entry := FnEntry(old(fnHead)[bucket], selfPc, 0)]
      ensures ok ==> fnHead == old(fnHead)[bucket := entry]
      ensures ok ==> buckets == old(buckets)[bucket := [entry] + old(buckets)[bucket]]
      ensures ok ==> arcLists == old(arcLists)[entry := []]
    {
      entry, ok := NewRecord();
      if ok {
        EntryLinked(fnHead, fns, arcs, buckets, arcLists, entry, selfPc, bucket);
        fns := fns[entry := FnEntry(fnHead[bucket], selfPc, 0)];
        fnHead := fnHead[bucket := entry];
        buckets := buckets[bucket := [entry] + buckets[bucket]];
        arcLists := arcLists[entry := []];
      }
    }

    /** Add an arc in front of the list of a function entry. */
    method AddArc(fromPc: nat, entry: nat) returns (arc: nat, ok: bool)
      requires Valid() && entry in fns
      modifies this`fns, this`arcs, this`arcLists, heap
      ensures ok <==> old(heap.Available(RECORD_SIZE))
      ensures ok ==> Valid() && arc !in old(arcs) && arc !in old(fns)
      ensures ok ==> arcs == old(arcs)[arc := FnArc(old(fns)[entry].arcHead, fromPc, 1)]
      ensures ok ==> fns == old(fns)[entry := old(fns)[entry].(arcHead := arc)]
      ensures ok ==> arcLists == old(arcLists)[entry := [arc] + old(arcLists)[entry]]
    {
      arc, ok := NewRecord();
      if ok {
        LinkArc(arc, fromPc, entry);
      }
    }

    /** Fill in the record of a new arc and put it in front of its list. */
    method LinkArc(arc: nat, fromPc: nat, entry: nat)
      requires Linked(fnHead, fns, arcs, buckets, arcLists) && entry in fns && arc !in arcs && arc != 0
      modifies this`fns, this`arcs, this`arcLists
      ensures Linked(fnHead, fns, arcs, buckets, arcLists)
      ensures fns.Keys == old(fns.Keys) && arcs.Keys == old(arcs.Keys) + {arc}
      ensures arcs == old(arcs)[arc := FnArc(old(fns)[entry].arcHead, fromPc, 1)]
      ensures fns == old(fns)[entry := old(fns)[entry].(arcHead := arc)]
      ensures arcLists == old(arcLists)[entry := [arc] + old(arcLists)[entry]]
    {
      ArcLinked(fnHead, fns, arcs, buckets, arcLists, arc, fromPc, entry);
      arcs := arcs[arc := FnArc(fns[entry].arcHead, fromPc, 1)];
      fns := fns[entry := fns[entry].(arcHead := arc)];
      arcLists := arcLists[entry := [arc] + arcLists[entry]];
    }

    /** Record the first call of a function that has no entry. */
    method RecordNew(selfPc: nat, fromPc: nat, bucket: nat) returns (ok: bool, fn: nat, arc: nat)
      requires Valid() && bucket < HASH_BUCKETS
      modifies this`fnHead, this`fns, this`arcs, this`buckets, this`arcLists, heap
      ensures ok <==> old(heap.Available(2 * RECORD_SIZE))
      ensures ok ==> Valid() && fn !in old(fns) && arc !in old(arcs)
      ensures ok ==> fns == old(fns)[fn := FnEntry(old(fnHead)[bucket], selfPc, arc)]
      ensures ok ==> fnHead == old(fnHead)[bucket := fn] && arcs == old(arcs)[arc := FnArc(0, fromPc, 1)]
      ensures ok ==> buckets == old(buckets)[bucket := [fn] + old(buckets)[bucket]]
      ensures ok ==> arcLists == old(arcLists)[fn := [arc]]
    {
      arc := 0;
      fn, ok := AddFunction(selfPc, bucket);
      if ok {
        ghost var entry, lists := fns[fn], arcLists;
        arc, ok := AddArc(fromPc, fn);
        assert ok ==> [arc] + lists[fn] == [arc];
        Overwrite(old(arcLists), fn, [], [arc]);
        Overwrite(old(fns), fn, entry, entry.(arcHead := arc));
      }
    }

    /** Record a call that has no arc yet; `entry` is 0 when the called function has
        no entry either.  `fn` and `arc` are the records used. */
    method Record(selfPc: nat, fromPc: nat, entry: nat, bucket: nat) returns (ok: bool, fn: nat, arc: nat)
      requires Valid() && bucket < HASH_BUCKETS && (entry == 0 || entry in fns)
      modifies this`fnHead, this`fns, this`arcs, this`buckets, this`arcLists, heap
      ensures ok <==> old(heap.Available(if entry == 0 then 2 * RECORD_SIZE else RECORD_SIZE))
      ensures ok ==> Valid() && arc !in old(arcs)
      ensures ok && entry == 0 ==>
                && fn !in old(fns) && fnHead == old(fnHead)[bucket := fn]
                && fns == old(fns)[fn := FnEntry(old(fnHead)[bucket], selfPc, arc)]
                && arcs == old(arcs)[arc := FnArc(0, fromPc, 1)]
                && buckets == old(buckets)[bucket := [fn] + old(buckets)[bucket]]
                && arcLists == old(arcLists)[fn := [arc]]
      ensures ok && entry != 0 ==>
                && fn == entry && fnHead == old(fnHead) && buckets == old(buckets)
                && fns == old(fns)[entry := old(fns)[entry].(arcHead := arc)]
                && arcs == old(arcs)[arc := FnArc(old(fns)[entry].arcHead, fromPc, 1)]
                && arcLists == old(arcLists)[entry := [arc] + old(arcLists)[entry]]
    {
      if entry == 0 {
        ok, fn, arc := RecordNew(selfPc, fromPc, bucket);
      } else {
        fn := entry;
        arc, ok := AddArc(fromPc, entry);
      }
    }
  }
}
