/**
  Scroll-reveal marking.

  The animated elements of the page are observed for intersection with the
  viewport. Each callback receives a batch of entries and walks them in order:
  an entry that reports its target intersecting gives that target the
  `visible` flag; any other entry is ignored. Nothing ever removes the flag.
  Elements are identified by their position among the observed elements.
 */
module ScrollReveal {

  /** One intersection report: which observed element, and whether it now
      intersects the viewport. */
  datatype Entry = Entry(target: nat, isIntersecting: bool)

  /** Whether some entry of the batch reports element `t` intersecting. */
  predicate Intersected(entries: seq<Entry>, t: nat) {
    exists e :: e in entries && e.target == t && e.isIntersecting
  }

  /** Every entry of the batch is about an observed element. */
  predicate Targets(entries: seq<Entry>, count: nat) {
    forall e :: e in entries ==> e.target < count
  }

  /** The effect of one entry on the flags. */
  function Mark(flags: seq<bool>, e: Entry): seq<bool>
    requires e.target < |flags|
  {
    if e.isIntersecting then flags[e.target := true] else flags
  }

  /** The flags after a batch of entries, walked in order: an element carries
      the flag afterwards iff it carried it before or some entry of the batch
      reported it intersecting. */
  function Revealed(flags: seq<bool>, entries: seq<Entry>): (r: seq<bool>)
    requires Targets(entries, |flags|)
    ensures |r| == |flags|
    ensures forall j :: 0 <= j < |flags| ==> (r[j] <==> flags[j] || Intersected(entries, j))
    decreases |entries|
  {
    if entries == [] then flags
    else
      assert entries[0] in entries;
      assert forall e :: e in entries[1..] ==> e in entries;
      Revealed(Mark(flags, entries[0]), entries[1..])
  }

  /** The flag is monotone: a batch never clears it. */
  lemma RevealedIsMonotone(flags: seq<bool>, entries: seq<Entry>, j: nat)
    requires Targets(entries, |flags|)
    requires j < |flags| && flags[j]
    ensures Revealed(flags, entries)[j]
  {
  }

  /** How the observer splits its reports into callbacks does not matter: two
      batches in a row have the effect of one batch holding both. */
  lemma BatchingIsIrrelevant(flags: seq<bool>, a: seq<Entry>, b: seq<Entry>)
    requires Targets(a + b, |flags|)
    ensures Targets(a, |flags|) && Targets(b, |flags|)
    ensures Revealed(Revealed(flags, a), b) == Revealed(flags, a + b)
  {
    assert forall e :: e in a ==> e in a + b;
    assert forall e :: e in b ==> e in a + b;
    forall j | 0 <= j < |flags|
      ensures Intersected(a + b, j) <==> Intersected(a, j) || Intersected(b, j)
    {
      if Intersected(a + b, j) {
        var e :| e in a + b && e.target == j && e.isIntersecting;
        assert e in a || e in b;
      }
    }
  }

  /** The observer's callback, over one flag per observed element. */
  class Observer {
    const visible: array<bool>

    constructor (initial: seq<bool>)
      ensures fresh(visible) && visible[..] == initial
    {
      visible := new bool[|initial|](j requires 0 <= j < |initial| => initial[j]);
    }

    /** The intersection callback, given its batch of entries. */
    method OnIntersection(entries: seq<Entry>)
      requires Targets(entries, visible.Length)
      modifies visible
      ensures visible[..] == Revealed(old(visible[..]), entries)
      ensures forall j :: 0 <= j < visible.Length ==> (old(visible[j]) ==> visible[j])
    {
      var k := 0;
      while k < |entries|
        invariant 0 <= k <= |entries|
        invariant forall j :: 0 <= j < visible.Length ==>
                    (visible[j] <==> old(visible[j]) || Intersected(entries[..k], j))
      {
        var entry := entries[k];
        assert entry in entries;
        if entry.isIntersecting {
          visible[entry.target] := true;
        }
        assert entries[..k + 1] == entries[..k] + [entry];
        forall j | 0 <= j < visible.Length
          ensures Intersected(entries[..k + 1], j)
              <==> Intersected(entries[..k], j) || (entry.target == j && entry.isIntersecting)
        {
          if Intersected(entries[..k + 1], j) {
            var e :| e in entries[..k + 1] && e.target == j && e.isIntersecting;
            assert e in entries[..k] || e == entry;
          }
          if entry.target == j && entry.isIntersecting {
            assert entry in entries[..k + 1];
          }
        }
        k := k + 1;
      }
      assert entries[..k] == entries;
    }
  }
}
