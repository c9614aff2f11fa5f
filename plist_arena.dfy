/** The link updates of createTssRequest (fwstitcher.c:166-188) on an arena
    of plist nodes. Node n has `next[n]` and `prev[n]`, its neighbours in
    the entry list it belongs to (NIL for NULL), and, when it is a
    dictionary, `values[n]`, the first node of its own entry list. A list
    is described by the ghost sequence of its nodes. */
module PlistArena {

  const NIL: int := -1

  /** `xs` is the doubly-linked list that starts at `head`: distinct nodes
      in the arena, each pointing to the next and back to the one before,
      the first with no predecessor and the last with no successor. */
  ghost predicate Linked(nx: seq<int>, pv: seq<int>, head: int, xs: seq<nat>)
  {
    |nx| == |pv| &&
    (forall j :: 0 <= j < |xs| ==> xs[j] < |nx|) &&
    (forall j, k :: 0 <= j < k < |xs| ==> xs[j] != xs[k]) &&
    (if xs == [] then head == NIL
     else head == xs[0] && pv[xs[0]] == NIL && nx[xs[|xs| - 1]] == NIL) &&
    (forall j :: 0 <= j < |xs| - 1 ==> nx[xs[j]] == xs[j + 1] && pv[xs[j + 1]] == xs[j])
  }

  ghost predicate Disjoint(xs: seq<nat>, ys: seq<nat>)
  {
    forall j :: 0 <= j < |xs| ==> xs[j] !in ys
  }

  lemma DisjointAppend(xs: seq<nat>, ys: seq<nat>, ids: seq<nat>)
    requires Disjoint(xs, ids) && Disjoint(ids, ys)
    ensures Disjoint(xs + ys, ids)
  {
    forall j | 0 <= j < |xs + ys| ensures (xs + ys)[j] !in ids {
      if j >= |xs| {
        assert (xs + ys)[j] == ys[j - |xs|];
      }
    }
  }

  /** Links of nodes outside a list do not matter to it. */
  lemma LinkedFrame(nx: seq<int>, pv: seq<int>, nx': seq<int>, pv': seq<int>, head: int, xs: seq<nat>)
    requires Linked(nx, pv, head, xs) && |nx'| == |nx| && |pv'| == |pv|
    requires forall j :: 0 <= j < |xs| ==> nx'[xs[j]] == nx[xs[j]] && pv'[xs[j]] == pv[xs[j]]
    ensures Linked(nx', pv', head, xs)
  {
    if xs != [] {
      assert nx'[xs[|xs| - 1]] == nx[xs[|xs| - 1]];
    }
  }

  /** Pointing the last node of `xs` at the head of `ys`, and that head
      back at it, makes one list of the two. */
  lemma LinkedAppend(nx: seq<int>, pv: seq<int>, hx: int, xs: seq<nat>, hy: nat, ys: seq<nat>)
    requires Linked(nx, pv, hx, xs) && Linked(nx, pv, hy, ys) && ys != [] && Disjoint(xs, ys)
    ensures var last := if xs == [] then NIL else xs[|xs| - 1];
            Linked(if xs == [] then nx else nx[last := hy], pv[hy := last],
                   if xs == [] then hy else hx, xs + ys)
  {
    var last := if xs == [] then NIL else xs[|xs| - 1];
    var nx' := if xs == [] then nx else nx[last := hy];
    var pv' := pv[hy := last];
    var zs := xs + ys;
    forall j, k | 0 <= j < k < |zs| ensures zs[j] != zs[k] {
      if j < |xs| && k >= |xs| {
        assert zs[k] == ys[k - |xs|];
      }
    }
    forall j | 0 <= j < |zs| - 1 ensures nx'[zs[j]] == zs[j + 1] && pv'[zs[j + 1]] == zs[j] {
      if j < |xs| - 1 {
        assert xs[j] != last && xs[j + 1] != hy by {
          assert xs[j + 1] !in ys;
        }
      } else if j >= |xs| {
        assert ys[j - |xs|] != last && ys[j + 1 - |xs|] != hy;
      }
    }
    assert nx'[zs[|zs| - 1]] == NIL by {
      assert zs[|zs| - 1] == ys[|ys| - 1];
      assert ys[|ys| - 1] !in xs;
    }
  }

  /** The neighbours of the node at i of a list. */
  lemma Neighbours(nx: seq<int>, pv: seq<int>, head: int, ids: seq<nat>, i: nat)
    requires Linked(nx, pv, head, ids) && i < |ids|
    ensures pv[ids[i]] == if i == 0 then NIL else ids[i - 1]
    ensures nx[ids[i]] == if i == |ids| - 1 then NIL else ids[i + 1]
  {
    if i > 0 {
      assert nx[ids[i - 1]] == ids[i];
    }
  }

  /** Removing node ids[i] from its list: the node before it (or the list
      head) takes its successor p, the node after it takes its
      predecessor n. */
  lemma LinkedRemove(nx: seq<int>, pv: seq<int>, head: int, ids: seq<nat>, i: nat, p: int, n: int)
    requires Linked(nx, pv, head, ids) && i < |ids|
    requires p == (if i == 0 then NIL else ids[i - 1])
    requires n == (if i == |ids| - 1 then NIL else ids[i + 1])
    ensures Linked(if p == NIL then nx else nx[p := n], if n == NIL then pv else pv[n := p],
                   if p == NIL then n else head, ids[..i] + ids[i + 1..])
  {
    var nx' := if p == NIL then nx else nx[p := n];
    var pv' := if n == NIL then pv else pv[n := p];
    var zs := ids[..i] + ids[i + 1..];
    RemovedAt(ids, i, zs);
    RemovedNext(nx, pv, head, ids, i, p, n, nx', zs);
    RemovedPrev(nx, pv, head, ids, i, p, n, pv', zs);
    if zs != [] {
      assert pv'[zs[0]] == NIL;
      assert nx'[zs[|zs| - 1]] == NIL;
    }
  }

  lemma RemovedAt(ids: seq<nat>, i: nat, zs: seq<nat>)
    requires i < |ids| && zs == ids[..i] + ids[i + 1..]
    ensures |zs| == |ids| - 1
    ensures forall j :: 0 <= j < i ==> zs[j] == ids[j]
    ensures forall j :: i <= j < |zs| ==> zs[j] == ids[j + 1]
  {
  }

  /** After the removal each remaining node's successor is the next one left. */
  lemma RemovedNext(nx: seq<int>, pv: seq<int>, head: int, ids: seq<nat>, i: nat, p: int, n: int,
                    nx': seq<int>, zs: seq<nat>)
    requires Linked(nx, pv, head, ids) && i < |ids|
    requires p == (if i == 0 then NIL else ids[i - 1])
    requires n == (if i == |ids| - 1 then NIL else ids[i + 1])
    requires nx' == (if p == NIL then nx else nx[p := n])
    requires |zs| == |ids| - 1
    requires forall j :: 0 <= j < i ==> zs[j] == ids[j]
    requires forall j :: i <= j < |zs| ==> zs[j] == ids[j + 1]
    ensures forall j :: 0 <= j < |zs| - 1 ==> nx'[zs[j]] == zs[j + 1]
  {
    forall j | 0 <= j < |zs| - 1 ensures nx'[zs[j]] == zs[j + 1] {
      if j + 1 == i {
        assert zs[j] == p;
      } else {
        assert zs[j] != p;
      }
    }
  }

  /** After the removal each remaining node's predecessor is the one before
      it that is left. */
  lemma RemovedPrev(nx: seq<int>, pv: seq<int>, head: int, ids: seq<nat>, i: nat, p: int, n: int,
                    pv': seq<int>, zs: seq<nat>)
    requires Linked(nx, pv, head, ids) && i < |ids|
    requires p == (if i == 0 then NIL else ids[i - 1])
    requires n == (if i == |ids| - 1 then NIL else ids[i + 1])
    requires pv' == (if n == NIL then pv else pv[n := p])
    requires |zs| == |ids| - 1
    requires forall j :: 0 <= j < i ==> zs[j] == ids[j]
    requires forall j :: i <= j < |zs| ==> zs[j] == ids[j + 1]
    ensures forall j :: 0 <= j < |zs| - 1 ==> pv'[zs[j + 1]] == zs[j]
  {
    forall j | 0 <= j < |zs| - 1 ensures pv'[zs[j + 1]] == zs[j] {
      if j + 1 == i {
        assert zs[j + 1] == n;
      } else {
        assert zs[j + 1] != n;
      }
    }
  }

  class Plist {
    var next: seq<int>
    var prev: seq<int>
    var values: seq<int>

    ghost predicate Valid()
      reads this
    {
      |next| == |prev| == |values|
    }

    constructor (next0: seq<int>, prev0: seq<int>, values0: seq<int>)
      requires |next0| == |prev0| == |values0|
      ensures Valid() && next == next0 && prev == prev0 && values == values0
    {
      next, prev, values := next0, prev0, values0;
    }

    /** The walk to the end of a list (fwstitcher.c:167-173): the last node,
        or NIL for the empty list. */
    method Tail(head: int, ghost xs: seq<nat>) returns (last: int)
      requires Valid() && Linked(next, prev, head, xs)
      ensures last == if xs == [] then NIL else xs[|xs| - 1]
    {
      var current := head;
      last := NIL;
      ghost var k := 0;
      while current != NIL
        invariant 0 <= k <= |xs|
        invariant current == if k < |xs| then xs[k] else NIL
        invariant last == if k == 0 then NIL else xs[k - 1]
        decreases |xs| - k
      {
        last := current;
        current := next[current];
        k := k + 1;
      }
    }

    /** The relocation as the request needs it: the entries of the
        `Manifest` dictionary m follow the request's entries, and m leaves
        the identity's list wherever it stands in it, first and last
        included; an empty `Manifest` adds nothing. */
    method Relocate(request: nat, identity: nat, m: nat,
                    ghost xs: seq<nat>, ghost ids: seq<nat>, ghost i: nat, ghost ys: seq<nat>)
      requires Valid() && request < |values| && identity < |values| && m < |values|
      requires request != identity
      requires Linked(next, prev, values[request], xs)
      requires Linked(next, prev, values[identity], ids) && i < |ids| && ids[i] == m
      requires Linked(next, prev, values[m], ys)
      requires Disjoint(xs, ys) && Disjoint(xs, ids) && Disjoint(ids, ys)
      modifies this
      ensures Valid() && |next| == old(|next|) && |values| == old(|values|)
      ensures Linked(next, prev, values[request], xs + ys)
      ensures Linked(next, prev, values[identity], ids[..i] + ids[i + 1..])
      ensures forall n :: 0 <= n < |next| && n !in xs && n !in ids && n !in ys ==>
                next[n] == old(next[n]) && prev[n] == old(prev[n])
      ensures forall n :: 0 <= n < |values| && n != request && n != identity ==> values[n] == old(values[n])
    {
      var firmware := values[m];
      var previous := Tail(values[request], xs);
      DisjointAppend(xs, ys, ids);
      if firmware != NIL {
        LinkAfter(request, identity, previous, firmware, xs, ys, ids);
      } else {
        assert xs + ys == xs;
      }
      UnlinkAt(request, identity, m, xs + ys, ids, i);
    }

    /** Linking a non-empty list after the last node of the request's list
        (fwstitcher.c:175-181): its head takes that node as predecessor,
        and that node, or the request itself when its list is empty, takes
        the head as successor. A third list, disjoint from both, keeps its
        links. */
    method LinkAfter(request: nat, identity: nat, previous: int, firmware: nat,
                     ghost xs: seq<nat>, ghost ys: seq<nat>, ghost ids: seq<nat>)
      requires Valid() && request < |values| && identity < |values| && request != identity
      requires Linked(next, prev, values[request], xs) && Linked(next, prev, firmware, ys)
      requires Linked(next, prev, values[identity], ids)
      requires previous == (if xs == [] then NIL else xs[|xs| - 1]) && ys != []
      requires Disjoint(xs, ys) && Disjoint(xs, ids) && Disjoint(ids, ys)
      modifies this
      ensures Valid() && |next| == old(|next|) && |values| == old(|values|)
      ensures Linked(next, prev, values[request], xs + ys)
      ensures Linked(next, prev, values[identity], ids)
      ensures forall n :: 0 <= n < |next| && n !in xs && n !in ys ==>
                next[n] == old(next[n]) && prev[n] == old(prev[n])
      ensures values == old(values)[request := values[request]]
    {
      LinkedAppend(next, prev, values[request], xs, firmware, ys);
      ghost var nx, pv := next, prev;
      prev := prev[firmware := previous];
      if previous == NIL {
        values := values[request := firmware];
      } else {
        next := next[previous := firmware];
      }
      LinkedFrame(nx, pv, next, prev, values[identity], ids);
    }

    /** Unlinking m, the entry at i of the identity's list
        (fwstitcher.c:184-186), with the ends handled. */
    method UnlinkAt(request: nat, identity: nat, m: nat, ghost zs: seq<nat>, ghost ids: seq<nat>, ghost i: nat)
      requires Valid() && request < |values| && identity < |values| && request != identity
      requires Linked(next, prev, values[request], zs)
      requires Linked(next, prev, values[identity], ids) && i < |ids| && ids[i] == m
      requires Disjoint(zs, ids)
      modifies this
      ensures Valid() && |next| == old(|next|) && |values| == old(|values|)
      ensures Linked(next, prev, values[request], zs)
      ensures Linked(next, prev, values[identity], ids[..i] + ids[i + 1..])
      ensures forall n :: 0 <= n < |next| && n !in ids ==> next[n] == old(next[n]) && prev[n] == old(prev[n])
      ensures values == old(values)[identity := values[identity]]
    {
      Neighbours(next, prev, values[identity], ids, i);
      var p, n := prev[m], next[m];
      LinkedRemove(next, prev, values[identity], ids, i, p, n);
      ghost var nx, pv := next, prev;
      if p == NIL {
        values := values[identity := n];
      } else {
        next := next[p := n];
      }
      if n != NIL {
        prev := prev[n := p];
      }
      LinkedFrame(nx, pv, next, prev, values[request], zs);
    }

    /** The relocation as written: `firmware->prev` is written through the
        Manifest's first entry (fwstitcher.c:175), `current->prev->next`
        through m's predecessor (fwstitcher.c:185) and `current->next->prev`
        through its successor (fwstitcher.c:186). `faulted` reports the NULL
        dereference: an empty `Manifest`, or m first or last in the
        identity. Otherwise the result is the one Relocate gives. */
    method RelocateAsWritten(request: nat, identity: nat, m: nat,
                             ghost xs: seq<nat>, ghost ids: seq<nat>, ghost i: nat, ghost ys: seq<nat>)
      returns (faulted: bool)
      requires Valid() && request < |values| && identity < |values| && m < |values|
      requires request != identity
      requires Linked(next, prev, values[request], xs)
      requires Linked(next, prev, values[identity], ids) && i < |ids| && ids[i] == m
      requires Linked(next, prev, values[m], ys)
      requires Disjoint(xs, ys) && Disjoint(xs, ids) && Disjoint(ids, ys)
      modifies this
      ensures Valid() && |values| == old(|values|)
      ensures faulted <==> ys == [] || i == 0 || i == |ids| - 1
      ensures !faulted ==> Linked(next, prev, values[request], xs + ys)
      ensures !faulted ==> Linked(next, prev, values[identity], ids[..i] + ids[i + 1..])
      ensures !faulted ==> forall n :: 0 <= n < |next| && n !in xs && n !in ids && n !in ys ==>
                             next[n] == old(next[n]) && prev[n] == old(prev[n])
      ensures !faulted ==> forall n :: 0 <= n < |values| && n != request && n != identity ==>
                             values[n] == old(values[n])
    {
      var firmware := values[m];
      var previous := Tail(values[request], xs);
      if firmware == NIL {
        return true;
      }
      LinkAfter(request, identity, previous, firmware, xs, ys, ids);
      DisjointAppend(xs, ys, ids);
      Neighbours(next, prev, values[identity], ids, i);
      if prev[m] == NIL || next[m] == NIL {
        return true;
      }
      faulted := false;
      UnlinkAt(request, identity, m, xs + ys, ids, i);
    }
  }

  /** The arena of an identity whose only entry is `Manifest`, with an
      empty request. Nodes: 0 the request, 1 the identity, 2 the `Manifest`
      dictionary, 3 its one entry. */
  lemma ManifestAloneArena(nx: seq<int>, pv: seq<int>, vs: seq<int>)
    requires nx == pv == [NIL, NIL, NIL, NIL] && vs == [NIL, 2, 3, NIL]
    ensures Linked(nx, pv, vs[0], []) && Linked(nx, pv, vs[1], [2]) && Linked(nx, pv, vs[2], [3])
    ensures Disjoint([], [3]) && Disjoint([], [2]) && Disjoint([2], [3])
  {
  }

  /** The code as written dereferences NULL on that arena. */
  method ManifestAloneFaults() returns (asWritten: bool)
    ensures asWritten
  {
    var nx, pv, vs := [NIL, NIL, NIL, NIL], [NIL, NIL, NIL, NIL], [NIL, 2, 3, NIL];
    ManifestAloneArena(nx, pv, vs);
    var original := new Plist(nx, pv, vs);
    asWritten := original.RelocateAsWritten(0, 1, 2, [], [2], 0, [3]);
  }

  /** The corrected relocation moves the one firmware entry into the empty
      request and leaves the identity empty. */
  method ManifestAloneMoved() returns (corrected: Plist)
    ensures corrected.Valid() && |corrected.values| == 4
    ensures Linked(corrected.next, corrected.prev, corrected.values[0], [3])
    ensures Linked(corrected.next, corrected.prev, corrected.values[1], [])
  {
    var nx, pv, vs := [NIL, NIL, NIL, NIL], [NIL, NIL, NIL, NIL], [NIL, 2, 3, NIL];
    ManifestAloneArena(nx, pv, vs);
    corrected := new Plist(nx, pv, vs);
    corrected.Relocate(0, 1, 2, [], [2], 0, [3]);
    assert [2][..0] + [2][1..] == [];
  }
}
