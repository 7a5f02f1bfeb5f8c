/** The ring of objects that the garbage collector tracks (objimpl.h): a circular
    doubly linked list through the sentinel _PyGC_generation0. */
module GcRing {
  import opened GcOrder

  const REFS_UNTRACKED := -2
  const REFS_REACHABLE := -3

  /** PyGC_Head. */
  class Head {
    var gc_next: Head?
    var gc_prev: Head?
    var gc_refs: int

    constructor ()
      ensures gc_refs == REFS_UNTRACKED
    {
      gc_next, gc_prev, gc_refs := null, null, REFS_UNTRACKED;
    }
  }

  /** gc_next goes round the circle, and gc_prev goes round it backwards. */
  ghost predicate Linked(c: seq<Head>)
    requires |c| >= 1
    reads c
  {
    && (forall i {:trigger c[i].gc_next} :: 0 <= i < |c| - 1 ==> c[i].gc_next == c[i + 1])
    && c[|c| - 1].gc_next == c[0]
    && (forall i {:trigger c[i].gc_prev} :: 1 <= i < |c| ==> c[i].gc_prev == c[i - 1])
    && c[0].gc_prev == c[|c| - 1]
  }

  /** Taking a node out of a circle: its neighbours are linked to each other. */
  method Unlink(g: Head, ghost c: seq<Head>, ghost k: nat)
    requires 1 <= k < |c| && c[k] == g && Distinct(c) && Linked(c)
    modifies g.gc_prev`gc_next, g.gc_next`gc_prev
    ensures Linked(c[..k] + c[k + 1..])
    ensures g.gc_prev == old(g.gc_prev) && g.gc_next == old(g.gc_next)
  {
    ghost var n := |c|;
    assert g.gc_prev == c[k - 1] && g.gc_next == (if k == n - 1 then c[0] else c[k + 1]);
    g.gc_prev.gc_next := g.gc_next;
    g.gc_next.gc_prev := g.gc_prev;
    ghost var d := c[..k] + c[k + 1..];
    assert forall i :: 0 <= i < n - 1 ==> d[i] == if i < k then c[i] else c[i + 1];
  }

  class Generation {
    const generation0: Head
    ghost var objects: set<Head>   // every object with a GC head
    ghost var ring: seq<Head>      // the tracked ones, in ring order

    /** The sentinel and the tracked objects behind it. */
    ghost function Circle(): seq<Head>
      reads this
    {
      [generation0] + ring
    }

    /** The objects of `s` are those marked as tracked. */
    ghost predicate Marked(s: seq<Head>)
      reads this, objects
    {
      && generation0 !in objects
      && (forall g :: g in s ==> g in objects)
      && Distinct(s)
      && (forall g :: g in objects ==> (g.gc_refs == REFS_UNTRACKED <==> g !in s))
    }

    ghost predicate Valid()
      reads this, generation0, objects
    {
      Marked(ring) && Linked(Circle())
    }

    /** An empty generation: the sentinel is linked to itself. */
    constructor (objs: set<Head>)
      requires forall g :: g in objs ==> g.gc_refs == REFS_UNTRACKED
      ensures Valid() && ring == [] && objects == objs && fresh(generation0)
    {
      var sentinel := new Head();
      sentinel.gc_next, sentinel.gc_prev := sentinel, sentinel;
      generation0 := sentinel;
      objects, ring := objs, [];
    }

    /** _PyObject_GC_TRACK. Py_FatalError, for an object already tracked, ends the
        process: here the call reports it and changes nothing. */
    method GcTrack(g: Head) returns (fatal: bool)
      requires Valid() && g in objects
      modifies `ring, g, generation0, generation0.gc_prev
      ensures Valid() && fatal == (g in old(ring))
      ensures ring == if fatal then old(ring) else old(ring) + [g]
      ensures fatal ==> unchanged(g, generation0) && unchanged(old(generation0.gc_prev))
      ensures !fatal ==> g.gc_refs == REFS_REACHABLE
      ensures forall h :: h in objects && h != g ==> h.gc_refs == old(h.gc_refs)
    {
      if g.gc_refs != REFS_UNTRACKED {
        return true;
      }
      ghost var c := Circle();
      g.gc_refs := REFS_REACHABLE;
      g.gc_next := generation0;
      g.gc_prev := generation0.gc_prev;
      g.gc_prev.gc_next := g;
      generation0.gc_prev := g;
      ring := ring + [g];
      assert Circle() == c + [g];
      return false;
    }

    /** _PyObject_GC_UNTRACK; its assertion demands a tracked object. */
    method GcUntrack(g: Head)
      requires Valid() && g in objects && g.gc_refs != REFS_UNTRACKED
      modifies `ring, g, g.gc_prev, g.gc_next
      ensures Valid() && ring == Without(old(ring), g)
      ensures g.gc_refs == REFS_UNTRACKED && g.gc_next == null && g.gc_prev == old(g.gc_prev)
      ensures forall h :: h in objects && h != g ==> h.gc_refs == old(h.gc_refs)
    {
      ghost var k :| 0 <= k < |ring| && ring[k] == g;
      WithoutBehind(generation0, ring, k);
      DistinctBehind(generation0, ring);
      assert Circle()[k + 1] == g;
      Unlink(g, Circle(), k + 1);
      assert forall h :: h in objects ==> h.gc_refs == old(h.gc_refs);
      Retire(g, k);
    }

    /** The rest of UNTRACK: the object is marked, and loses its gc_next. */
    method Retire(g: Head, ghost k: nat)
      requires Marked(ring) && k < |ring| && ring[k] == g
      requires Linked([generation0] + Without(ring, g))
      modifies `ring, g`gc_refs, g`gc_next
      ensures Valid() && ring == Without(old(ring), g)
      ensures g.gc_refs == REFS_UNTRACKED && g.gc_next == null
    {
      WithoutAt(ring, k);
      OneLess(ring, k);
      WithoutDistinct(ring, g);
      ring := Without(ring, g);
      g.gc_refs := REFS_UNTRACKED;
      g.gc_next := null;
    }

    /** UNTRACK right after TRACK leaves the ring, and the links and marks of every
        other object and of the sentinel, as they were. */
    method TrackAndUntrack(g: Head)
      requires Valid() && g in objects && g !in ring
      modifies `ring, g, generation0, generation0.gc_prev
      ensures Valid() && ring == old(ring)
      ensures forall h :: h in Circle() ==> h.gc_next == old(h.gc_next) && h.gc_prev == old(h.gc_prev)
      ensures forall h :: h in objects ==> h.gc_refs == old(h.gc_refs)
    {
      RingLinks();
      var fatal := GcTrack(g);
      assert g.gc_next == generation0 && g.gc_prev == old(generation0.gc_prev) by {
        RingLinks();
        assert ring[|ring| - 1] == g;
      }
      GcUntrack(g);
      assert ring == old(ring) by {
        TrackUntrackCancel(old(ring), g);
      }
      SameLinks(Circle());
    }

    /** The links of the ring, by index. */
    lemma RingLinks()
      requires Valid()
      ensures generation0.gc_next == if |ring| == 0 then generation0 else ring[0]
      ensures generation0.gc_prev == if |ring| == 0 then generation0 else ring[|ring| - 1]
      ensures forall i {:trigger ring[i].gc_next} :: 0 <= i < |ring| ==>
                ring[i] != generation0 &&
                ring[i].gc_next == if i + 1 == |ring| then generation0 else ring[i + 1]
      ensures forall i {:trigger ring[i].gc_prev} :: 0 <= i < |ring| ==>
                ring[i] != generation0 &&
                ring[i].gc_prev == if i == 0 then generation0 else ring[i - 1]
    {
      var c := Circle();
      assert |c| == |ring| + 1 && c[0] == generation0;
      forall i | 0 <= i < |ring|
        ensures c[i + 1] == ring[i] != generation0
      {
        assert ring[i] in ring;
      }
    }

    /** Following gc_next from the sentinel visits the tracked objects in order and
        comes back. */
    method Walk() returns (s: seq<Head>)
      requires Valid()
      ensures s == ring
    {
      RingLinks();
      s := [];
      var h := generation0.gc_next;
      while h != generation0
        invariant |s| <= |ring| && s == ring[..|s|]
        invariant h == if |s| == |ring| then generation0 else ring[|s|]
        decreases |ring| - |s|
      {
        s := s + [h];
        h := h.gc_next;
      }
    }

    /** Following gc_prev visits them backwards. */
    method WalkBack() returns (s: seq<Head>)
      requires Valid()
      ensures s == ring
    {
      RingLinks();
      s := [];
      var h := generation0.gc_prev;
      while h != generation0
        invariant |s| <= |ring| && s == ring[|ring| - |s|..]
        invariant h == if |s| == |ring| then generation0 else ring[|ring| - |s| - 1]
        decreases |ring| - |s|
      {
        s := [h] + s;
        h := h.gc_prev;
      }
    }

    /** One event on the ring. */
    method Step(e: Event<Head>)
      requires Valid() && e.g in objects && Applicable(e, ring)
      modifies `ring, generation0, objects
      ensures Valid() && ring == Apply(e, old(ring))
    {
      NeighboursKnown(e.g);
      if e.Track? {
        var fatal := GcTrack(e.g);
      } else {
        GcUntrack(e.g);
      }
    }

    /** After any legal history of the two operations, from an empty ring, the ring
        holds the surviving objects in tracking order. */
    method Run(history: seq<Event<Head>>)
      requires Valid() && ring == [] && Legal(history)
      requires forall i :: 0 <= i < |history| ==> history[i].g in objects
      modifies `ring, generation0, objects
      ensures Valid() && ring == Survivors(history, |history|)
    {
      var i := 0;
      while i < |history|
        invariant 0 <= i <= |history| && Valid()
        invariant ring == Replay(history[..i])
      {
        LegalPrefix(history, i);
        Step(history[i]);
        i := i + 1;
      }
      assert history[..i] == history;
      ReplayIsSurvivors(history);
    }

    /** The nodes an operation writes are the sentinel and objects. */
    lemma NeighboursKnown(g: Head)
      requires Valid() && g in objects
      ensures generation0.gc_prev in objects + {generation0}
      ensures g in ring ==> g.gc_prev in objects + {generation0} && g.gc_next in objects + {generation0}
    {
      RingLinks();
    }
  }

  /** A circle has one way of being linked. */
  twostate lemma SameLinks(c: seq<Head>)
    requires |c| >= 1 && old(Linked(c)) && Linked(c)
    ensures forall h :: h in c ==> h.gc_next == old(h.gc_next) && h.gc_prev == old(h.gc_prev)
  {
    assert forall i :: 0 <= i < |c| ==> c[i].gc_next == old(c[i].gc_next) && c[i].gc_prev == old(c[i].gc_prev);
  }

  lemma OneLess(s: seq<Head>, k: nat)
    requires k < |s| && Distinct(s)
    ensures var d := s[..k] + s[k + 1..];
            forall h :: h in d <==> h in s && h != s[k]
  {
    var d := s[..k] + s[k + 1..];
    forall h | h in s && h != s[k]
      ensures h in d
    {
      var i :| 0 <= i < |s| && s[i] == h;
      assert h == if i < k then d[i] else d[i - 1];
    }
  }
}
