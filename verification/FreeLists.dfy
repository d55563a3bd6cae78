/**
 * The lists of kernel/src/memory.c: block headers linked through memory, one doubly linked list of
 * used blocks and seven free lists. A block is named by the address of its header.
 */
module FreeLists {
  // `room` is not in memory: the bytes behind the header that are the block's own.
  datatype Header = Header(next: nat, prev: nat, size: nat, origin: nat, room: nat)

  type Heap = map<nat, Header>

  const USED := 0
  const LISTS := 8           // list 0 is the used list, list c + 1 the free list of class c

  type Rows = l: seq<seq<nat>> | |l| == LISTS witness seq(LISTS, _ => [])

  function At(l: seq<nat>, i: int): nat {
    if 0 <= i < |l| then l[i] else 0
  }

  function Members(l: seq<nat>): set<nat> {
    set a | a in l
  }

  /** l is the chain of next pointers from head, without repetition, of blocks owned by list id. */
  ghost predicate ListOk(hdr: Heap, owner: map<nat, nat>, head: nat, l: seq<nat>, id: nat) {
    && head == At(l, 0)
    && (forall i {:trigger l[i]} :: 0 <= i < |l| ==> l[i] != 0 && l[i] in hdr && l[i] in owner && owner[l[i]] == id)
    && (forall i {:trigger hdr[l[i]]} :: 0 <= i < |l| ==> hdr[l[i]].next == At(l, i + 1))
    && (forall i, j :: 0 <= i < j < |l| ==> l[i] != l[j])
  }

  /** The prev pointers of the used list are exact; those of free blocks may be stale. */
  ghost predicate BackOk(hdr: Heap, l: seq<nat>) {
    forall i {:trigger hdr[l[i]]} :: 0 <= i < |l| ==> l[i] in hdr && hdr[l[i]].prev == At(l, i - 1)
  }

  ghost predicate Listed(owner: map<nat, nat>, lists: seq<seq<nat>>, a: nat)
    requires a in owner
  {
    owner[a] < |lists| && a in lists[owner[a]]
  }

  ghost predicate Lists(hdr: Heap, owner: map<nat, nat>, heads: seq<nat>, lists: seq<seq<nat>>) {
    && |heads| == LISTS && |lists| == LISTS && owner.Keys == hdr.Keys && 0 !in hdr
    && (forall id {:trigger lists[id]} :: 0 <= id < LISTS ==> ListOk(hdr, owner, heads[id], lists[id], id))
    && (forall a {:trigger Listed(owner, lists, a)} :: a in owner ==> Listed(owner, lists, a))
    && BackOk(hdr, lists[USED])
  }

  lemma ListsShape(hdr: Heap, owner: map<nat, nat>, heads: seq<nat>, lists: seq<seq<nat>>)
    requires Lists(hdr, owner, heads, lists)
    ensures |heads| == LISTS && |lists| == LISTS && owner.Keys == hdr.Keys && 0 !in hdr
  {
    hide ListOk, Listed, BackOk;
  }

  /** A list is untouched when its blocks keep their next pointers and owner. */
  lemma ListFrame(hdr: Heap, owner: map<nat, nat>, hdr': Heap, owner': map<nat, nat>, head: nat, l: seq<nat>, id: nat)
    requires ListOk(hdr, owner, head, l, id)
    requires forall a :: a in owner && owner[a] == id ==>
      a in hdr' && a in owner' && owner'[a] == id && (a in hdr ==> hdr'[a].next == hdr[a].next)
    ensures ListOk(hdr', owner', head, l, id)
  {
  }

  lemma ListPush(hdr: Heap, owner: map<nat, nat>, hdr': Heap, owner': map<nat, nat>, head: nat, l: seq<nat>, id: nat, b: nat)
    requires ListOk(hdr, owner, head, l, id) && b != 0 && b !in owner
    requires b in hdr' && b in owner' && hdr'[b].next == head && owner'[b] == id
    requires forall a :: a in owner && owner[a] == id ==>
      a in hdr' && a in owner' && owner'[a] == id && (a in hdr ==> hdr'[a].next == hdr[a].next)
    ensures ListOk(hdr', owner', b, [b] + l, id)
  {
    var l' := [b] + l;
    forall i | 0 <= i < |l'|
      ensures l'[i] != 0 && l'[i] in hdr' && l'[i] in owner' && owner'[l'[i]] == id && hdr'[l'[i]].next == At(l', i + 1)
    {
      if i > 0 {
        assert l'[i] == l[i - 1] && l[i - 1] in hdr && hdr[l[i - 1]].next == At(l, i);
      }
    }
  }

  /** The list without its element i. */
  function Without(l: seq<nat>, i: nat): (r: seq<nat>)
    requires i < |l|
    ensures |r| == |l| - 1 && forall j {:trigger r[j]} :: 0 <= j < |r| ==> r[j] == l[if j < i then j else j + 1]
  {
    l[..i] + l[i + 1..]
  }

  /** The list without b. */
  function Removed(l: seq<nat>, b: nat): seq<nat> {
    if l == [] then [] else if l[0] == b then l[1..] else [l[0]] + Removed(l[1..], b)
  }

  lemma {:induction false} RemovedAt(l: seq<nat>, i: nat)
    requires i < |l| && forall j {:trigger l[j]} :: 0 <= j < i ==> l[j] != l[i]
    ensures Removed(l, l[i]) == Without(l, i)
  {
    hide Without;
    if i == 0 {
      WithoutFirst(l);
    } else {
      var rest := l[1..];
      assert forall j {:trigger rest[j]} :: 0 <= j < i - 1 ==> rest[j] == l[j + 1];
      RemovedAt(rest, i - 1);
      WithoutCons(l, i);
    }
  }

  lemma WithoutFirst(l: seq<nat>)
    requires l != []
    ensures Without(l, 0) == l[1..]
  {
  }

  lemma WithoutCons(l: seq<nat>, i: nat)
    requires 0 < i < |l|
    ensures Without(l, i) == [l[0]] + Without(l[1..], i - 1)
  {
    hide Without;
  }

  /** Block i leaves the list: its predecessor, if any, now points behind it. */
  lemma ListDrop(hdr: Heap, owner: map<nat, nat>, hdr': Heap, owner': map<nat, nat>, head: nat, l: seq<nat>, id: nat, i: nat)
    requires ListOk(hdr, owner, head, l, id) && i < |l|
    requires forall j {:trigger l[j]} :: 0 <= j < |l| && j != i ==>
      && l[j] in hdr' && l[j] in owner' && owner'[l[j]] == id
      && hdr'[l[j]].next == if j == i - 1 then At(l, i + 1) else At(l, j + 1)
    ensures ListOk(hdr', owner', if i == 0 then At(l, 1) else head, Without(l, i), id)
  {
    hide Without;
    var l' := Without(l, i);
    forall j | 0 <= j < |l'|
      ensures l'[j] != 0 && l'[j] in hdr' && l'[j] in owner' && owner'[l'[j]] == id
      ensures hdr'[l'[j]].next == At(l', j + 1)
    {
      var k := if j < i then j else j + 1;
      assert l'[j] == l[k];
      assert j + 1 < |l'| ==> l'[j + 1] == l[if j + 1 < i then j + 1 else j + 2];
    }
  }

  function WithPrev(hdr: Heap, a: nat, prev: nat): (hdr': Heap)
    ensures hdr'.Keys == hdr.Keys
  {
    if a in hdr then hdr[a := hdr[a].(prev := prev)] else hdr
  }

  function WithNext(hdr: Heap, a: nat, next: nat): (hdr': Heap)
    ensures hdr'.Keys == hdr.Keys
  {
    if a in hdr then hdr[a := hdr[a].(next := next)] else hdr
  }

  /** The lists are in order and do not know the block b. */
  ghost predicate Loose(hdr: Heap, owner: map<nat, nat>, heads: seq<nat>, lists: seq<seq<nat>>, b: nat) {
    b != 0 && b !in hdr && Lists(hdr, owner, heads, lists)
  }

  /** The block b as the first of the list that starts at head. */
  function Pushed(hdr: Heap, head: nat, b: nat, h: Header): Heap {
    WithPrev(hdr, head, b)[b := h]
  }

  /** A loose block becomes the first of a list (memory.c:323-329, 362-396). */
  lemma Push(hdr: Heap, owner: map<nat, nat>, heads: seq<nat>, lists: seq<seq<nat>>, b: nat, h: Header, id: nat)
    requires Loose(hdr, owner, heads, lists, b) && id < LISTS && h.next == heads[id] && h.prev == 0
    ensures Lists(Pushed(hdr, heads[id], b, h), owner[b := id], heads[id := b], lists[id := [b] + lists[id]])
  {
    hide Pushed, ListOk, BackOk, Listed;
    var hdr', owner', lists' := Pushed(hdr, heads[id], b, h), owner[b := id], lists[id := [b] + lists[id]];
    PushedKeys(hdr, heads[id], b, h);
    forall k | 0 <= k < LISTS ensures ListOk(hdr', owner', heads[id := b][k], lists'[k], k) {
      PushAt(hdr, owner, heads, lists, b, h, id, k);
    }
    forall a | a in owner' ensures Listed(owner', lists', a) {
      PushListed(owner, lists, b, id, a);
    }
    PushBack(hdr, owner, heads, lists, b, h, id);
  }

  lemma PushedKeys(hdr: Heap, head: nat, b: nat, h: Header)
    ensures Pushed(hdr, head, b, h).Keys == hdr.Keys + {b} && Pushed(hdr, head, b, h)[b] == h
    ensures forall a {:trigger Pushed(hdr, head, b, h)[a]} :: a in hdr && a != b ==> Pushed(hdr, head, b, h)[a].next == hdr[a].next
  {
  }

  lemma PushAt(hdr: Heap, owner: map<nat, nat>, heads: seq<nat>, lists: seq<seq<nat>>, b: nat, h: Header, id: nat, k: nat)
    requires Loose(hdr, owner, heads, lists, b) && id < LISTS && h.next == heads[id] && k < LISTS
    ensures ListOk(Pushed(hdr, heads[id], b, h), owner[b := id], heads[id := b][k], lists[id := [b] + lists[id]][k], k)
  {
    hide Pushed, ListOk, BackOk, Listed;
    PushedKeys(hdr, heads[id], b, h);
    assert ListOk(hdr, owner, heads[k], lists[k], k);
    if k == id {
      ListPush(hdr, owner, Pushed(hdr, heads[id], b, h), owner[b := id], heads[k], lists[k], k, b);
    } else {
      ListFrame(hdr, owner, Pushed(hdr, heads[id], b, h), owner[b := id], heads[k], lists[k], k);
    }
  }

  lemma PushListed(owner: map<nat, nat>, lists: seq<seq<nat>>, b: nat, id: nat, a: nat)
    requires id < |lists| && a in owner[b := id] && (a != b ==> a in owner && Listed(owner, lists, a))
    ensures Listed(owner[b := id], lists[id := [b] + lists[id]], a)
  {
  }

  lemma PushBack(hdr: Heap, owner: map<nat, nat>, heads: seq<nat>, lists: seq<seq<nat>>, b: nat, h: Header, id: nat)
    requires Loose(hdr, owner, heads, lists, b) && id < LISTS && h.next == heads[id] && h.prev == 0
    ensures BackOk(Pushed(hdr, heads[id], b, h), lists[id := [b] + lists[id]][USED])
  {
    var hdr' := Pushed(hdr, heads[id], b, h);
    var l, m := lists[USED], lists[id];
    var l' := lists[id := [b] + lists[id]][USED];
    assert ListOk(hdr, owner, heads[USED], l, USED) && ListOk(hdr, owner, heads[id], m, id);
    forall i | 0 <= i < |l'| ensures l'[i] in hdr' && hdr'[l'[i]].prev == At(l', i - 1) {
      var k := if id == USED then i - 1 else i;
      if k >= 0 {
        assert l'[i] == l[k] && hdr[l[k]].prev == At(l, k - 1);
        if l[k] == heads[id] {
          assert m != [] && owner[m[0]] == id;
        }
      }
    }
  }

  /** A free list gives up its first block (memory.c:227-228). */
  lemma PopFree(hdr: Heap, owner: map<nat, nat>, heads: seq<nat>, lists: seq<seq<nat>>, id: nat)
    requires Lists(hdr, owner, heads, lists) && 0 < id < LISTS && heads[id] != 0
    ensures lists[id] != [] && heads[id] == lists[id][0] && heads[id] in hdr
    ensures Loose(hdr - {heads[id]}, owner - {heads[id]}, heads[id := hdr[heads[id]].next], lists[id := lists[id][1..]], heads[id])
  {
    var b, l := heads[id], lists[id];
    assert ListOk(hdr, owner, b, l, id) && l[0] == b && hdr[l[0]].next == At(l, 1);
    PopLists(hdr, owner, heads, lists, id);
    PopListed(hdr, owner, heads, lists, id);
    forall i | 0 <= i < |lists[USED]|
      ensures lists[USED][i] in hdr - {b} && (hdr - {b})[lists[USED][i]].prev == At(lists[USED], i - 1)
    {
      assert ListOk(hdr, owner, heads[USED], lists[USED], USED);
      assert hdr[lists[USED][i]].prev == At(lists[USED], i - 1);
    }
  }

  lemma PopLists(hdr: Heap, owner: map<nat, nat>, heads: seq<nat>, lists: seq<seq<nat>>, id: nat)
    requires Lists(hdr, owner, heads, lists) && 0 < id < LISTS && lists[id] != []
    ensures var b := lists[id][0];
      b in hdr && forall k {:trigger lists[id := lists[id][1..]][k]} :: 0 <= k < LISTS ==>
        ListOk(hdr - {b}, owner - {b}, heads[id := hdr[b].next][k], lists[id := lists[id][1..]][k], k)
  {
    var l := lists[id];
    assert ListOk(hdr, owner, heads[id], l, id);
    var b := l[0];
    var hdr', owner', heads', lists' := hdr - {b}, owner - {b}, heads[id := hdr[b].next], lists[id := l[1..]];
    forall k | 0 <= k < LISTS ensures ListOk(hdr', owner', heads'[k], lists'[k], k) {
      assert ListOk(hdr, owner, heads[k], lists[k], k);
      if k == id {
        assert Without(l, 0) == l[1..] && hdr[l[0]].next == At(l, 1);
        forall j | 0 < j < |l| ensures l[j] in hdr' && l[j] in owner' && hdr'[l[j]].next == At(l, j + 1) {
          assert hdr[l[j]].next == At(l, j + 1);
        }
        ListDrop(hdr, owner, hdr', owner', heads[id], l, id, 0);
      } else {
        ListFrame(hdr, owner, hdr', owner', heads[k], lists[k], k);
      }
    }
  }

  lemma PopListed(hdr: Heap, owner: map<nat, nat>, heads: seq<nat>, lists: seq<seq<nat>>, id: nat)
    requires Lists(hdr, owner, heads, lists) && 0 < id < LISTS && lists[id] != []
    ensures var b := lists[id][0];
      forall a {:trigger Listed(owner - {b}, lists[id := lists[id][1..]], a)} :: a in owner - {b} ==>
        Listed(owner - {b}, lists[id := lists[id][1..]], a)
  {
    var l := lists[id];
    forall a | a in owner - {l[0]} ensures Listed(owner - {l[0]}, lists[id := l[1..]], a) {
      assert Listed(owner, lists, a);
      if owner[a] == id {
        var i :| 0 <= i < |l| && l[i] == a;
        assert l[1..][i - 1] == a;
      }
    }
  }

  /** The heap without the used block b (memory.c:353-358). */
  function Unlinked(hdr: Heap, b: nat): Heap
    requires b in hdr
  {
    WithPrev(WithNext(hdr, hdr[b].prev, hdr[b].next), hdr[b].next, hdr[b].prev) - {b}
  }

  lemma Unlink(hdr: Heap, owner: map<nat, nat>, heads: seq<nat>, lists: seq<seq<nat>>, i: nat)
    requires Lists(hdr, owner, heads, lists) && i < |lists[USED]|
    ensures var b := lists[USED][i];
      && b in hdr
      && Loose(Unlinked(hdr, b), owner - {b}, heads[USED := if heads[USED] == b then hdr[b].next else heads[USED]],
               lists[USED := Without(lists[USED], i)], b)
  {
    hide ListOk, Listed, BackOk, Unlinked, Without;
    UsedBlock(hdr, owner, heads[USED], lists[USED], i);
    UnlinkUsed(hdr, owner, heads[USED], lists[USED], i);
    UnlinkOthers(hdr, owner, heads, lists, i);
    UnlinkListed(hdr, owner, heads, lists, i);
    UnlinkBack(hdr, owner, heads[USED], lists[USED], i);
    UnlinkedKeys(hdr, lists[USED][i]);
  }

  lemma UsedBlock(hdr: Heap, owner: map<nat, nat>, head: nat, l: seq<nat>, i: nat)
    requires ListOk(hdr, owner, head, l, USED) && BackOk(hdr, l) && i < |l|
    ensures l[i] in hdr && l[i] != 0 && hdr[l[i]].next == At(l, i + 1) && hdr[l[i]].prev == At(l, i - 1)
    ensures head == l[i] <==> i == 0
  {
  }

  /** The other blocks of the list are other blocks, in its care. */
  lemma OthersOwned(hdr: Heap, owner: map<nat, nat>, head: nat, l: seq<nat>, i: nat)
    requires ListOk(hdr, owner, head, l, USED) && i < |l|
    ensures forall j {:trigger l[j]} :: 0 <= j < |l| && j != i ==>
      l[j] in owner - {l[i]} && (owner - {l[i]})[l[j]] == USED && l[j] != l[i]
  {
  }

  /** Blocks k and i are neighbours exactly when the links of i say so. */
  lemma Neighbours(hdr: Heap, owner: map<nat, nat>, head: nat, l: seq<nat>, i: nat, k: nat)
    requires ListOk(hdr, owner, head, l, USED) && BackOk(hdr, l) && i < |l| && k < |l|
    ensures l[i] in hdr && l[k] != 0 && (l[k] == l[i] <==> k == i)
    ensures l[k] == hdr[l[i]].next <==> k == i + 1
    ensures l[k] == hdr[l[i]].prev <==> k == i - 1
  {
    UsedBlock(hdr, owner, head, l, i);
    UsedBlock(hdr, owner, head, l, k);
  }

  lemma UnlinkUsed(hdr: Heap, owner: map<nat, nat>, head: nat, l: seq<nat>, i: nat)
    requires ListOk(hdr, owner, head, l, USED) && BackOk(hdr, l) && i < |l|
    ensures l[i] in hdr
    ensures ListOk(Unlinked(hdr, l[i]), owner - {l[i]}, if i == 0 then hdr[l[i]].next else head, Without(l, i), USED)
  {
    hide Without, Unlinked, ListOk, BackOk;
    UsedBlock(hdr, owner, head, l, i);
    UnlinkNext(hdr, owner, head, l, i);
    OthersOwned(hdr, owner, head, l, i);
    ListDrop(hdr, owner, Unlinked(hdr, l[i]), owner - {l[i]}, head, l, USED, i);
  }

  lemma UnlinkListed(hdr: Heap, owner: map<nat, nat>, heads: seq<nat>, lists: seq<seq<nat>>, i: nat)
    requires Lists(hdr, owner, heads, lists) && i < |lists[USED]|
    ensures forall a {:trigger Listed(owner - {lists[USED][i]}, lists[USED := Without(lists[USED], i)], a)} ::
      a in owner - {lists[USED][i]} ==> Listed(owner - {lists[USED][i]}, lists[USED := Without(lists[USED], i)], a)
  {
    hide Without;
    forall a | a in owner - {lists[USED][i]}
      ensures Listed(owner - {lists[USED][i]}, lists[USED := Without(lists[USED], i)], a)
    {
      assert Listed(owner, lists, a);
      if owner[a] == USED {
        WithoutMember(lists[USED], i, a);
      }
    }
  }

  lemma WithoutMember(l: seq<nat>, i: nat, a: nat)
    requires i < |l| && a in l && a != l[i]
    ensures a in Without(l, i)
  {
    var j :| 0 <= j < |l| && l[j] == a;
    assert Without(l, i)[if j < i then j else j - 1] == a;
  }

  lemma UnlinkedKeys(hdr: Heap, b: nat)
    requires b in hdr
    ensures Unlinked(hdr, b).Keys == hdr.Keys - {b}
  {
  }

  lemma UnlinkOthers(hdr: Heap, owner: map<nat, nat>, heads: seq<nat>, lists: seq<seq<nat>>, i: nat)
    requires Lists(hdr, owner, heads, lists) && i < |lists[USED]|
    ensures lists[USED][i] in hdr
    ensures forall k {:trigger lists[k]} :: 0 < k < LISTS ==>
      ListOk(Unlinked(hdr, lists[USED][i]), owner - {lists[USED][i]}, heads[k], lists[k], k)
  {
    var l := lists[USED];
    var b := l[i];
    assert ListOk(hdr, owner, heads[USED], l, USED);
    assert hdr[b].next == At(l, i + 1) && hdr[b].prev == At(l, i - 1);
    assert hdr[b].prev in owner ==> owner[hdr[b].prev] == USED;
    forall k | 0 < k < LISTS ensures ListOk(Unlinked(hdr, b), owner - {b}, heads[k], lists[k], k) {
      ListFrame(hdr, owner, Unlinked(hdr, b), owner - {b}, heads[k], lists[k], k);
    }
  }

  lemma UnlinkNext(hdr: Heap, owner: map<nat, nat>, head: nat, l: seq<nat>, i: nat)
    requires ListOk(hdr, owner, head, l, USED) && BackOk(hdr, l) && i < |l|
    ensures forall j {:trigger l[j]} :: 0 <= j < |l| && j != i ==>
      && l[j] in Unlinked(hdr, l[i])
      && Unlinked(hdr, l[i])[l[j]].next == if j == i - 1 then At(l, i + 1) else At(l, j + 1)
  {
    hide Unlinked;
    forall j | 0 <= j < |l| && j != i
      ensures l[j] in Unlinked(hdr, l[i])
      ensures Unlinked(hdr, l[i])[l[j]].next == if j == i - 1 then At(l, i + 1) else At(l, j + 1)
    {
      UsedBlock(hdr, owner, head, l, i);
      UsedBlock(hdr, owner, head, l, j);
      UnlinkedNext(hdr, l[i], l[j]);
      assert l[j] == hdr[l[i]].prev <==> j == i - 1;
    }
  }

  lemma UnlinkedNext(hdr: Heap, b: nat, a: nat)
    requires b in hdr && a in hdr && a != b
    ensures a in Unlinked(hdr, b)
    ensures Unlinked(hdr, b)[a].next == if a == hdr[b].prev then hdr[b].next else hdr[a].next
    ensures Unlinked(hdr, b)[a].prev == if a == hdr[b].next then hdr[b].prev else hdr[a].prev
    ensures Unlinked(hdr, b)[a].size == hdr[a].size && Unlinked(hdr, b)[a].room == hdr[a].room
  {
  }

  lemma UnlinkBack(hdr: Heap, owner: map<nat, nat>, head: nat, l: seq<nat>, i: nat)
    requires ListOk(hdr, owner, head, l, USED) && BackOk(hdr, l) && i < |l|
    ensures BackOk(Unlinked(hdr, l[i]), Without(l, i))
  {
    hide Without, Unlinked, ListOk;
    UsedBlock(hdr, owner, head, l, i);
    var l', hdr' := Without(l, i), Unlinked(hdr, l[i]);
    forall j | 0 <= j < |l'| ensures l'[j] in hdr' && hdr'[l'[j]].prev == At(l', j - 1) {
      BackAt(hdr, owner, head, l, i, j);
    }
  }

  lemma BackAt(hdr: Heap, owner: map<nat, nat>, head: nat, l: seq<nat>, i: nat, j: nat)
    requires ListOk(hdr, owner, head, l, USED) && BackOk(hdr, l) && i < |l| && j < |l| - 1
    ensures var l', hdr' := Without(l, i), Unlinked(hdr, l[i]);
      l[i] in hdr && l'[j] in hdr' && hdr'[l'[j]].prev == At(l', j - 1)
  {
    hide Without, Unlinked, ListOk, BackOk;
    var l', k := Without(l, i), if j < i then j else j + 1;
    UsedBlock(hdr, owner, head, l, i);
    UsedBlock(hdr, owner, head, l, k);
    Neighbours(hdr, owner, head, l, i, k);
    assert l'[j] == l[k];
    UnlinkedNext(hdr, l[i], l[k]);
    assert j > 0 ==> l'[j - 1] == l[if j - 1 < i then j - 1 else j];
  }
}
