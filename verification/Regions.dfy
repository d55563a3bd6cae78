/**
 * A run of pages cut into the blocks of one size class (kernel/src/memory.c, `free_buckets_format_unused`).
 * The walk stops one block early, so the last link names zeroed memory: an empty header, the tail.
 */
module Regions {
  import opened Words
  import opened FreeLists
  import opened Blocks

  function Stride(c: nat): nat
    requires c < CLASS_COUNT
  {
    HEADER_SIZE + ClassSize(c)
  }

  /** How many blocks the walk formats. */
  function Buckets(c: nat): nat
    requires c < CLASS_COUNT
  {
    (REGION - 1) / Stride(c)
  }

  function Node(data: nat, c: nat, i: nat): nat
    requires c < CLASS_COUNT
  {
    data + i * Stride(c)
  }

  /** In every class the tail's header fits behind the formatted blocks, and its payload does not. */
  lemma TailIsShort(c: nat)
    requires c < CLASS_COUNT
    ensures Buckets(c) > 0
    ensures HEADER_SIZE <= REGION - Buckets(c) * Stride(c) < Stride(c)
  {
    if c == 0 { assert Stride(c) == 48; }
    if c == 1 { assert Stride(c) == 96; }
    if c == 2 { assert Stride(c) == 288; }
    if c == 3 { assert Stride(c) == 1056; }
    if c == 4 { assert Stride(c) == 4128; }
    if c == 5 { assert Stride(c) == 16416; }
    if c == 6 { assert Stride(c) == 65568; }
  }

  lemma NodesApart(data: nat, c: nat, i: nat, j: nat)
    requires c < CLASS_COUNT && i < j
    ensures Node(data, c, i) + Stride(c) <= Node(data, c, j)
  {
    var s := Stride(c);
    assert j * s == i * s + (j - i) * s;
    MulAtLeast(s, j - i);
  }

  function BucketHeader(data: nat, c: nat, i: nat): Header
    requires c < CLASS_COUNT
  {
    Header(Node(data, c, i + 1), if i > 0 then Node(data, c, i - 1) else 0, ClassSize(c), 0, ClassSize(c))
  }

  /** The bytes that the region still has behind the tail's header. */
  function Room(c: nat): (r: nat)
    requires c < CLASS_COUNT
    ensures r < ClassSize(c)
    ensures r == [0, 0, 96, 96, 2016, 3552, 3936][c]
  {
    TailIsShort(c);
    RoomValues(c);
    REGION - Buckets(c) * Stride(c) - HEADER_SIZE
  }

  lemma RoomValues(c: nat)
    requires c < CLASS_COUNT
    ensures REGION - Buckets(c) * Stride(c) - HEADER_SIZE == [0, 0, 96, 96, 2016, 3552, 3936][c]
  {
    if c == 0 { assert Stride(c) == 48 && Buckets(c) == 5546; }
    if c == 1 { assert Stride(c) == 96 && Buckets(c) == 2773; }
    if c == 2 { assert Stride(c) == 288 && Buckets(c) == 924; }
    if c == 3 { assert Stride(c) == 1056 && Buckets(c) == 252; }
    if c == 4 { assert Stride(c) == 4128 && Buckets(c) == 64; }
    if c == 5 { assert Stride(c) == 16416 && Buckets(c) == 16; }
    if c == 6 { assert Stride(c) == 65568 && Buckets(c) == 4; }
  }

  /** size bytes behind the tail's header stay inside the region exactly when the room suffices. */
  lemma RoomExact(data: nat, c: nat, size: nat)
    requires c < CLASS_COUNT
    ensures Node(data, c, Buckets(c)) + HEADER_SIZE + size <= data + REGION <==> size <= [0, 0, 96, 96, 2016, 3552, 3936][c]
  {
    assert Room(c) == [0, 0, 96, 96, 2016, 3552, 3936][c];
  }

  /** What is read as the tail's header: zeros, with the room that is left. */
  function Tail(c: nat): Header
    requires c < CLASS_COUNT
  {
    Header(0, 0, 0, 0, Room(c))
  }

  /** The headers after the first k blocks are formatted. */
  function Format(h: Heap, data: nat, c: nat, k: nat): Heap
    requires c < CLASS_COUNT
  {
    if k == 0 then h else Format(h, data, c, k - 1)[Node(data, c, k - 1) := BucketHeader(data, c, k - 1)]
  }

  function Nodes(data: nat, c: nat): (l: seq<nat>)
    requires c < CLASS_COUNT
    ensures |l| == Buckets(c) + 1
    ensures forall i {:trigger l[i]} :: 0 <= i < |l| ==> l[i] == Node(data, c, i)
  {
    seq(Buckets(c) + 1, i requires i >= 0 => Node(data, c, i))
  }

  function Region(h: Heap, data: nat, c: nat): Heap
    requires c < CLASS_COUNT
  {
    Format(h, data, c, Buckets(c))[Node(data, c, Buckets(c)) := Tail(c)]
  }

  /** No block of h begins inside the region at data. */
  ghost predicate Vacant(h: Heap, data: nat) {
    forall a :: a in h ==> a < data || data + REGION <= a
  }

  lemma {:induction false} FormatOld(h: Heap, data: nat, c: nat, k: nat, a: nat)
    requires c < CLASS_COUNT && (a < data || data + REGION <= a)
    requires k <= Buckets(c)
    ensures a in Format(h, data, c, k) <==> a in h
    ensures a in h ==> Format(h, data, c, k)[a] == h[a]
  {
    if k > 0 {
      FormatOld(h, data, c, k - 1, a);
      TailIsShort(c);
      NodesApart(data, c, k - 1, Buckets(c));
    }
  }

  lemma {:induction false} FormatNew(h: Heap, data: nat, c: nat, k: nat, i: nat)
    requires c < CLASS_COUNT && i < k
    ensures Node(data, c, i) in Format(h, data, c, k)
    ensures Format(h, data, c, k)[Node(data, c, i)] == BucketHeader(data, c, i)
  {
    if i < k - 1 {
      FormatNew(h, data, c, k - 1, i);
      NodesApart(data, c, i, k - 1);
    }
  }

  lemma {:induction false} FormatKeys(h: Heap, data: nat, c: nat, k: nat, a: nat)
    requires c < CLASS_COUNT && a in Format(h, data, c, k) && a !in h
    ensures exists i: nat {:trigger Node(data, c, i)} :: i < k && a == Node(data, c, i)
  {
    if k > 0 {
      if a != Node(data, c, k - 1) {
        FormatKeys(h, data, c, k - 1, a);
      }
    }
  }

  /** What a region adds: its chain of blocks, ending in the tail, and nothing else. */
  lemma RegionBlocks(h: Heap, data: nat, c: nat)
    requires c < CLASS_COUNT && Vacant(h, data)
    ensures var h', l := Region(h, data, c), Nodes(data, c);
      && (forall a {:trigger h'[a]} {:trigger h[a]} :: a in h ==> a in h' && h'[a] == h[a] && a !in l)
      && (forall a {:trigger a in h'} :: a in h' ==> a in h || a in l)
      && (forall i {:trigger l[i]} :: 0 <= i < |l| ==>
          l[i] in h' && l[i] !in h && data <= l[i] < data + REGION &&
          h'[l[i]] == if i == Buckets(c) then Tail(c) else BucketHeader(data, c, i))
  {
    hide Format, Buckets, Node, BucketHeader;
    var n, h', l := Buckets(c), Region(h, data, c), Nodes(data, c);
    TailIsShort(c);
    NodeInside(data, c, n);
    forall i | 0 <= i < |l|
      ensures l[i] in h' && l[i] !in h && data <= l[i] < data + REGION
      ensures h'[l[i]] == if i == n then Tail(c) else BucketHeader(data, c, i)
    {
      NodeInside(data, c, i);
      if i < n {
        FormatNew(h, data, c, n, i);
        NodesApart(data, c, i, n);
      }
    }
    forall a | a in h ensures a in h' && h'[a] == h[a] && a !in l {
      FormatOld(h, data, c, n, a);
    }
    forall a | a in h' && a !in h ensures a in l {
      if a == Node(data, c, n) {
        assert l[n] == a;
      } else {
        FormatKeys(h, data, c, n, a);
        var i: nat :| i < n && a == Node(data, c, i);
        assert l[i] == a;
      }
    }
  }

  lemma NodeInside(data: nat, c: nat, i: nat)
    requires c < CLASS_COUNT && i <= Buckets(c)
    ensures data <= Node(data, c, i) && Node(data, c, i) + HEADER_SIZE <= data + REGION
    ensures i < Buckets(c) ==> Node(data, c, i) + Stride(c) <= data + REGION
    ensures i == Buckets(c) ==> Node(data, c, i) + HEADER_SIZE + Room(c) == data + REGION
  {
    TailIsShort(c);
    if i < Buckets(c) {
      NodesApart(data, c, i, Buckets(c));
    }
  }
}
