/**
 * Scroll-triggered reveals. Elements are numbered by their position in the
 * page's list of `.reveal` elements; a stagger container is the list of the
 * numbers of the `.reveal` elements inside it, in document order.
 */
module Reveal {

  /**
   * The delay index each child of one container receives: its position; a
   * repeated child keeps its last one. Exactly the children get an index, and
   * each index is a position of that child.
   */
  function ListDelays(children: seq<nat>): (r: map<nat, nat>)
    ensures forall x :: x in r <==> x in children
    ensures forall x :: x in r ==> r[x] < |children| && children[r[x]] == x
  {
    if |children| == 0 then map[]
    else
      var n := |children| - 1;
      assert children == children[..n] + [children[n]];
      ListDelays(children[..n])[children[n] := n]
  }

  /**
   * The delay indices after every container has been processed in order; a
   * later container overrides an earlier one. Each index is the element's
   * position in one of the containers.
   */
  function StaggerDelays(lists: seq<seq<nat>>): (r: map<nat, nat>)
    ensures forall x :: x in r ==> PositionInSome(lists, x, r[x])
  {
    if |lists| == 0 then map[]
    else
      var n := |lists| - 1;
      var earlier := StaggerDelays(lists[..n]);
      var last := ListDelays(lists[n]);
      var r := earlier + last;
      assert forall x :: x in last ==> PositionInSome(lists, x, last[x]) by {
        forall x | x in last
          ensures PositionInSome(lists, x, last[x])
        {
          assert last[x] < |lists[n]| && lists[n][last[x]] == x;
        }
      }
      assert forall x :: x in earlier ==> PositionInSome(lists, x, earlier[x]) by {
        forall x | x in earlier
          ensures PositionInSome(lists, x, earlier[x])
        {
          assert PositionInSome(lists[..n], x, earlier[x]);
          var k :| 0 <= k < n && earlier[x] < |lists[..n][k]| && lists[..n][k][earlier[x]] == x;
          assert lists[..n][k] == lists[k];
        }
      }
      r
  }

  /** `d` is the position of element `x` in one of the containers. */
  ghost predicate PositionInSome(lists: seq<seq<nat>>, x: nat, d: nat) {
    exists k :: 0 <= k < |lists| && d < |lists[k]| && lists[k][d] == x
  }

  /** In a container without repeats, each child's delay index is its position in the container. */
  lemma {:induction false} ListDelayIsPosition(children: seq<nat>, i: nat)
    requires i < |children|
    requires forall a, b :: 0 <= a < b < |children| ==> children[a] != children[b]
    ensures children[i] in ListDelays(children) && ListDelays(children)[children[i]] == i
    decreases |children|
  {
    var n := |children| - 1;
    if i < n {
      ListDelayIsPosition(children[..n], i);
    }
  }

  /** Exactly the children of some container receive a delay. */
  lemma {:induction false} StaggerDelayKeys(lists: seq<seq<nat>>, x: nat)
    ensures x in StaggerDelays(lists) <==> exists k :: 0 <= k < |lists| && x in lists[k]
    decreases |lists|
  {
    if |lists| > 0 {
      var n := |lists| - 1;
      StaggerDelayKeys(lists[..n], x);
      if exists k :: 0 <= k < |lists| && x in lists[k] {
        var k :| 0 <= k < |lists| && x in lists[k];
        if k < n {
          assert x in lists[..n][k];
        }
      }
    }
  }

  /** An element's delay index is its position in the last container that holds it. */
  lemma {:induction false} StaggerDelayFromLastList(lists: seq<seq<nat>>, k: nat, i: nat)
    requires k < |lists| && i < |lists[k]|
    requires forall a, b :: 0 <= a < b < |lists[k]| ==> lists[k][a] != lists[k][b]
    requires forall m :: k < m < |lists| ==> lists[k][i] !in lists[m]
    ensures lists[k][i] in StaggerDelays(lists) && StaggerDelays(lists)[lists[k][i]] == i
    decreases |lists|
  {
    var n := |lists| - 1;
    if k == n {
      ListDelayIsPosition(lists[n], i);
    } else {
      StaggerDelayFromLastList(lists[..n], k, i);
    }
  }

  /** One step of `ListDelays`: the next child records its position. */
  lemma ListDelaysStep(children: seq<nat>, index: nat)
    requires index < |children|
    ensures ListDelays(children[..index + 1]) == ListDelays(children[..index])[children[index] := index]
  {
    assert children[..index + 1][..index] == children[..index];
  }

  /** One step of `StaggerDelays`: the next container's delays override the earlier ones. */
  lemma StaggerDelaysStep(lists: seq<seq<nat>>, k: nat)
    requires k < |lists|
    ensures StaggerDelays(lists[..k + 1]) == StaggerDelays(lists[..k]) + ListDelays(lists[k])
  {
    assert lists[..k + 1][..k] == lists[..k];
  }

  /** Updating a merged map is merging with the updated right-hand map. */
  lemma MergeUpdate(a: map<nat, nat>, b: map<nat, nat>, x: nat, d: nat)
    ensures (a + b)[x := d] == a + b[x := d]
  {
  }

  /** The inner loop of `setupStaggerDelays`: every child of one container in order, its index recorded. */
  method RecordChildren(base: map<nat, nat>, children: seq<nat>) returns (delays: map<nat, nat>)
    ensures delays == base + ListDelays(children)
  {
    delays := base;
    var index: nat := 0;
    while index < |children|
      invariant index <= |children|
      invariant delays == base + ListDelays(children[..index])
    {
      ListDelaysStep(children, index);
      MergeUpdate(base, ListDelays(children[..index]), children[index], index);
      delays := delays[children[index] := index];
      index := index + 1;
    }
    assert children[..index] == children;
  }

  /** `setupStaggerDelays`: every container in order, every child in order, its index recorded. */
  method ComputeStaggerDelays(lists: seq<seq<nat>>) returns (delays: map<nat, nat>)
    ensures delays == StaggerDelays(lists)
  {
    delays := map[];
    var k: nat := 0;
    while k < |lists|
      invariant k <= |lists|
      invariant delays == StaggerDelays(lists[..k])
    {
      StaggerDelaysStep(lists, k);
      delays := RecordChildren(delays, lists[k]);
      k := k + 1;
    }
    assert lists[..k] == lists;
  }

  /** The numbers of the first `n` elements. */
  function Indices(n: nat): (r: set<nat>)
    ensures forall i: int :: i in r <==> 0 <= i < n
  {
    if n == 0 then {} else Indices(n - 1) + {n - 1}
  }

  /** One `IntersectionObserverEntry`: which element, and whether it crossed the threshold. */
  datatype Entry = Entry(target: nat, isIntersecting: bool)

  /** The elements some intersecting entry of the batch names. */
  function Hits(entries: seq<Entry>): set<nat> {
    set j | 0 <= j < |entries| && entries[j].isIntersecting :: entries[j].target
  }

  class ScrollObserver {
    /** At least one `.reveal` element exists. */
    const enabled: bool
    /** The stagger containers. */
    const staggerLists: seq<seq<nat>>
    /** Each `.reveal` element carries `reveal-visible`. */
    var revealed: seq<bool>
    /** The elements the observer still watches. */
    var watched: set<nat>
    /** The `--delay` index given to staggered elements. */
    var delays: map<nat, nat>

    /** A watched element is a real element that has not been revealed yet. */
    ghost predicate Valid()
      reads this
    {
      forall i :: i in watched ==> i < |revealed| && !revealed[i]
    }

    /** Finds `n` reveal elements; when there is one, sets the stagger delays and watches them all. */
    constructor (staggerLists: seq<seq<nat>>, n: nat)
      ensures Valid()
      ensures enabled == (n > 0) && this.staggerLists == staggerLists
      ensures |revealed| == n && forall i :: 0 <= i < n ==> !revealed[i]
      ensures watched == if n > 0 then Indices(n) else {}
      ensures delays == if n > 0 then StaggerDelays(staggerLists) else map[]
    {
      enabled := n > 0;
      this.staggerLists := staggerLists;
      revealed := seq(n, _ => false);
      if n > 0 {
        var d := ComputeStaggerDelays(staggerLists);
        delays := d;
        watched := Indices(n);
      } else {
        delays := map[];
        watched := {};
      }
    }

    /** The observer callback: each intersecting entry reveals its element and stops watching it. */
    method OnIntersect(entries: seq<Entry>)
      requires Valid()
      requires forall j :: 0 <= j < |entries| ==> entries[j].target < |revealed|
      modifies this
      ensures Valid()
      ensures |revealed| == |old(revealed)| && delays == old(delays)
      ensures forall i :: 0 <= i < |revealed| && old(revealed)[i] ==> revealed[i]
      ensures enabled ==> forall i :: 0 <= i < |revealed| ==> (revealed[i] <==> old(revealed)[i] || i in Hits(entries))
      ensures enabled ==> watched == old(watched) - Hits(entries)
      ensures !enabled ==> revealed == old(revealed) && watched == old(watched)
    {
      if !enabled {
        return;
      }
      var j := 0;
      while j < |entries|
        invariant 0 <= j <= |entries| && |revealed| == |old(revealed)| && delays == old(delays)
        invariant Valid()
        invariant forall i :: 0 <= i < |revealed| ==> (revealed[i] <==> old(revealed)[i] || i in Hits(entries[..j]))
        invariant watched == old(watched) - Hits(entries[..j])
      {
        var entry := entries[j];
        assert entries[..j + 1] == entries[..j] + [entry];
        assert Hits(entries[..j + 1]) == Hits(entries[..j]) + (if entry.isIntersecting then {entry.target} else {});
        if entry.isIntersecting {
          revealed := revealed[entry.target := true];
          watched := watched - {entry.target};
        }
        j := j + 1;
      }
      assert entries[..j] == entries;
    }
  }
}
