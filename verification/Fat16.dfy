/** The FAT16 reader of kernel/src/fat16.c: the layout arithmetic and the cluster-chain walk. */
module Fat16 {
  import opened Words
  import opened Options

  const U32: int := 0x1_0000_0000
  const SIGNATURE := 0xaa55
  const FAT12_LIMIT := 4085
  const FAT16_LIMIT := 65525
  const END_OF_CHAIN := 0xfff8

  /** Places are offsets from the start of the image. */
  datatype Fs = Fs(bytesPerSector: nat, sectorsPerCluster: nat, clusterCount: nat, fat: nat, rootDir: nat, data: nat)

  function U16At(image: seq<u8>, at: nat): (w: nat)
    requires at + 2 <= |image|
    ensures w < 0x1_0000
  {
    image[at] as int + image[at + 1] as int * 256
  }

  function U32At(image: seq<u8>, at: nat): (w: nat)
    requires at + 4 <= |image|
    ensures w < U32
  {
    U16At(image, at) + 0x1_0000 * U16At(image, at + 2)
  }

  function TotalSectors(image: seq<u8>): (n: nat)
    requires |image| >= 512
    ensures n < U32
  {
    if U16At(image, 19) == 0 then U32At(image, 32) else U16At(image, 19)
  }

  /** e / b, rounded up */
  function RoundUp(e: nat, b: nat): (q: nat)
    requires b > 0
    ensures q <= e
  {
    RoundUpBound(e, b);
    (e + (b - 1)) / b
  }

  lemma ProductBound(a: nat, b: nat, c: nat, d: nat)
    requires a <= c && b <= d
    ensures a * b <= c * d
  {
    assert c * d == a * b + a * (d - b) + (c - a) * d;
  }

  lemma RoundUpBound(e: nat, b: nat)
    requires b > 0
    ensures 0 <= (e + (b - 1)) / b <= e
  {
    var q, r := (e + (b - 1)) / b, (e + (b - 1)) % b;
    assert e + (b - 1) == b * q + r;
    assert b * (e + 1) == b * e + b;
    ProductBound(1, e, b, e);
    DivBound(e + (b - 1), b);
    if q > e {
      ProductBound(b, e + 1, b, q);
    }
  }

  function Product(a: nat, b: nat, c: nat): nat {
    ProductBound(0, 0, a, b);
    ProductBound(0, 0, a * b, c);
    a * b * c
  }

  /** Sectors in front of the data area, as the boot sector counts them. */
  function FrontSectors(image: seq<u8>): nat
    requires |image| >= 512 && U16At(image, 11) > 0
  {
    U16At(image, 14) + image[16] as int * U16At(image, 22) + RoundUp(U16At(image, 17) * 32, U16At(image, 11))
  }

  /** unsigned int arithmetic: a front larger than the whole wraps around. */
  function ClusterCount(image: seq<u8>): nat
    requires |image| >= 512 && U16At(image, 11) > 0 && image[13] > 0
  {
    hide TotalSectors, FrontSectors, U16At;
    DivBound((TotalSectors(image) - FrontSectors(image)) % U32, image[13]);
    (TotalSectors(image) - FrontSectors(image)) % U32 / image[13]
  }

  function Layout(image: seq<u8>): Fs
    requires |image| >= 512 && U16At(image, 11) > 0 && image[13] > 0
  {
    var bps := U16At(image, 11);
    var fat := Product(1, U16At(image, 14), bps);
    var rootDir := fat + Product(image[16], U16At(image, 22), bps) / 2 * 2;
    Fs(bps, image[13], ClusterCount(image), fat, rootDir, rootDir + 32 * U16At(image, 17))
  }

  /** Bytes per cluster. */
  function ClusterSize(fs: Fs): nat {
    fs.sectorsPerCluster * fs.bytesPerSector
  }

  /** The byte count of n clusters as the code computes it, in unsigned int. */
  function Span(fs: Fs, n: nat): nat {
    n * fs.sectorsPerCluster % U32 * fs.bytesPerSector % U32
  }

  /** verify_initrd; a boot sector with an empty sector or cluster size would divide by zero. */
  function VerifyInitrd(image: seq<u8>): Option<Fs>
    requires |image| >= 512 && U16At(image, 11) > 0 && image[13] > 0
  {
    if U16At(image, 0x1fe) != SIGNATURE then None
    else if U16At(image, 22) == 0 || TotalSectors(image) == 0 then None
    else if ClusterCount(image) < FAT12_LIMIT || ClusterCount(image) >= FAT16_LIMIT then None
    else
      var fs := Layout(image);
      if fs.data + Span(fs, fs.clusterCount) != |image| then None else Some(fs)
  }

  predicate Accepted(image: seq<u8>, fs: Fs) {
    |image| >= 512 && U16At(image, 11) > 0 && image[13] > 0 && VerifyInitrd(image) == Some(fs)
  }

  // ----- what acceptance gives -----

  lemma FrontBound(image: seq<u8>)
    requires |image| >= 512 && U16At(image, 11) > 0
    ensures FrontSectors(image) <= 18874080
  {
    ProductBound(image[16], U16At(image, 22), 255, 65535);
  }

  lemma WrappedIsLarge(d: int, s: nat)
    requires -18874080 <= d < 0 < s < 256
    ensures d % U32 / s >= FAT16_LIMIT
  {
    var q, r := d % U32 / s, d % U32 % s;
    assert d % U32 == d + U32 == s * q + r;
    if 0 <= q < FAT16_LIMIT {
      ProductBound(s, q, 255, FAT16_LIMIT);
    }
  }

  /** An accepted image has its data area behind its front: the subtraction did not wrap around. */
  lemma AcceptedCounts(image: seq<u8>, fs: Fs)
    requires Accepted(image, fs)
    ensures FAT12_LIMIT <= fs.clusterCount < FAT16_LIMIT
    ensures image[510] == 0x55 && image[511] == 0xaa && U16At(image, 22) != 0
    ensures FrontSectors(image) <= TotalSectors(image)
    ensures fs.clusterCount == (TotalSectors(image) - FrontSectors(image)) / fs.sectorsPerCluster
    ensures ClusterSize(fs) > 0 && ClusterSize(fs) < 0x100_0000
  {
    Signed(image);
    hide Span, FrontSectors, TotalSectors, U16At, Product;
    var t: nat := image[13];
    assert fs.clusterCount == ClusterCount(image) && fs.sectorsPerCluster == t;
    FrontBound(image);
    NoWrap(TotalSectors(image), FrontSectors(image), t, fs.clusterCount);
    ClusterBounds(fs.sectorsPerCluster, fs.bytesPerSector);
  }

  lemma Signed(image: seq<u8>)
    requires |image| >= 512
    ensures U16At(image, 510) == SIGNATURE <==> image[510] == 0x55 && image[511] == 0xaa
  {
  }

  lemma NoWrap(total: nat, front: nat, s: nat, n: nat)
    requires total < U32 && front <= 18874080 && 0 < s < 256 && n == (total - front) % U32 / s && n < FAT16_LIMIT
    ensures front <= total && n == (total - front) / s
  {
    if total < front {
      WrappedIsLarge(total - front, s);
    }
  }

  lemma ClusterBounds(s: nat, b: nat)
    requires 0 < s < 256 && 0 < b < 65536
    ensures 0 < s * b < 0x100_0000
  {
    ProductBound(1, 1, s, b);
    ProductBound(s, b, 255, 65535);
  }

  lemma RoundUpExact(e: nat, b: nat)
    requires b > 0
    ensures RoundUp(e, b) * b >= e
    ensures RoundUp(e, b) * b == e <==> e % b == 0
  {
    var q, r := RoundUp(e, b), (e + (b - 1)) % b;
    assert e + (b - 1) == b * q + r;
    if e % b == 0 {
      assert e == b * (e / b);
      DivModUnique(e + (b - 1), b, e / b, b - 1);
    }
    if q * b == e {
      DivModUnique(e, b, q, 0);
    }
  }

  /** The data area begins behind the front sectors exactly when root directory and FATs fill what the code counts for them. */
  lemma LayoutExact(image: seq<u8>)
    requires |image| >= 512 && U16At(image, 11) > 0 && image[13] > 0
    ensures var fs, bps := Layout(image), U16At(image, 11); var fatBytes := Product(image[16], U16At(image, 22), bps);
      && fs.fat == Product(1, U16At(image, 14), bps) <= fs.rootDir <= fs.data
      && (fs.data == Product(1, FrontSectors(image), bps) <==> fatBytes % 2 == 0 && 32 * U16At(image, 17) % bps == 0)
  {
    hide U16At, ClusterCount;
    var b, r, n, e := U16At(image, 11), U16At(image, 14), image[16] as int * U16At(image, 22), U16At(image, 17) * 32;
    ProductBound(0, 0, image[16], U16At(image, 22));
    RoundUpExact(e, b);
    assert (r + n + RoundUp(e, b)) * b == r * b + n * b + RoundUp(e, b) * b;
  }

  /** Bytes of n clusters, up to the cluster count: exact below 2^32, reduced above. */
  lemma SpanIs(fs: Fs, n: nat)
    requires n < FAT16_LIMIT && fs.sectorsPerCluster < 256
    ensures Span(fs, n) == n * ClusterSize(fs) % U32
  {
    ProductBound(n, fs.sectorsPerCluster, FAT16_LIMIT, 255);
    var a := n * fs.sectorsPerCluster;
    assert a % U32 == a;
    assert a * fs.bytesPerSector == n * ClusterSize(fs);
  }

  /** get_fat_cluster_data */
  function GetFatClusterData(fs: Fs, id: nat): Option<nat> {
    if id > fs.clusterCount || id < 2 then None else Some(fs.data + Span(fs, id - 2))
  }

  /** get_next_cluster */
  function GetNextCluster(image: seq<u8>, fs: Fs, id: nat): nat
    requires fs.fat + 2 * fs.clusterCount + 2 <= |image|
  {
    if id > fs.clusterCount || id < 2 then 0
    else if U16At(image, fs.fat + 2 * id) > fs.clusterCount + 2 then 0
    else U16At(image, fs.fat + 2 * id)
  }

  /** For a readable cluster get_next_cluster gives the two bytes of its entry, unless they name none up to the slack. */
  lemma NextExact(image: seq<u8>, fs: Fs, id: nat)
    requires fs.fat + 2 * fs.clusterCount + 2 <= |image|
    ensures var at := fs.fat + 2 * id; var next := GetNextCluster(image, fs, id);
      && (!(2 <= id <= fs.clusterCount) ==> next == 0)
      && (2 <= id <= fs.clusterCount ==>
            var entry: nat := image[at] as int + 256 * image[at + 1] as int;
            next == if entry <= fs.clusterCount + 2 then entry else 0)
  {
  }

  /** The block of cluster id lies in the image. */
  predicate BlockInside(image: seq<u8>, fs: Fs, id: nat) {
    GetFatClusterData(fs, id).Some? && fs.data <= GetFatClusterData(fs, id).value &&
    GetFatClusterData(fs, id).value + ClusterSize(fs) <= |image|
  }

  predicate BlocksApart(fs: Fs, i: nat, j: nat) {
    var a, b := GetFatClusterData(fs, i), GetFatClusterData(fs, j);
    a.Some? && b.Some? && (a.value + ClusterSize(fs) <= b.value || b.value + ClusterSize(fs) <= a.value)
  }

  /** The first multiple of s that does not fit below m. */
  lemma Crossing(s: nat, n: nat, m: nat) returns (i: nat)
    requires 0 < s && n * s >= m && 0 < m
    ensures 0 < i <= n && (i - 1) * s < m <= i * s
  {
    i := n;
    while (i - 1) * s >= m
      invariant 0 < i <= n && i * s >= m
    {
      assert i > 1;
      i := i - 1;
    }
  }

  /** Every block of an accepted image lies in its data area exactly when the area is smaller than 2^32 bytes. */
  lemma InsideExact(image: seq<u8>, fs: Fs)
    requires Accepted(image, fs)
    ensures (forall id :: 2 <= id <= fs.clusterCount ==> BlockInside(image, fs, id)) <==>
            fs.clusterCount * ClusterSize(fs) < U32
  {
    hide Span, VerifyInitrd;
    AcceptedCounts(image, fs);
    var n, s := fs.clusterCount, ClusterSize(fs);
    AreaLength(image, fs);
    if n * s < U32 {
      forall id | 2 <= id <= n ensures BlockInside(image, fs, id) {
        BlockAt(fs, id);
        ProductBound(id - 1, s, n, s);
        assert (id - 1) * s == (id - 2) * s + s;
      }
    } else {
      var k := OutsideIndex(s, n);
      BlockAt(fs, k + 2);
      assert !BlockInside(image, fs, k + 2);
    }
  }

  /** The boot sector of a volume of 4096 clusters of 4 MiB, and nothing behind its FAT. */
  function WrappedImage(): (image: seq<u8>)
    ensures |image| == 65536
  {
    seq(65536, i => if i == 12 || i == 13 then 128 else if i == 14 || i == 16 || i == 22 then 1
      else if i == 32 then 2 else if i == 34 then 8 else if i == 0x1fe then 0x55 else if i == 0x1ff then 0xaa else 0)
  }

  function WrappedFs(): Fs {
    Fs(32768, 128, 4096, 32768, 65536, 65536)
  }

  lemma WrappedFields()
    ensures var image := WrappedImage();
      && U16At(image, 11) == 32768 && image[13] == 128 && U16At(image, 14) == 1 && image[16] == 1
      && U16At(image, 17) == 0 && U16At(image, 19) == 0 && U16At(image, 22) == 1 && U16At(image, 0x1fe) == SIGNATURE
      && U32At(image, 32) == 524290
  {
  }

  lemma WrappedSpan()
    ensures Span(WrappedFs(), 4096) == 0 && Span(WrappedFs(), 1024) == 0 && Span(WrappedFs(), 0) == 0
  {
  }

  lemma WrappedLayout()
    ensures Accepted(WrappedImage(), WrappedFs())
  {
    hide WrappedImage, U16At, U32At, Span;
    WrappedFields();
    WrappedSpan();
    assert RoundUp(0, 32768) == 0 && FrontSectors(WrappedImage()) == 2;
    assert (524290 - 2) % U32 / 128 == 4096;
    assert Product(1, 1, 32768) == 32768;
  }

  /** An accepted image whose data area, 2^34 bytes, is counted as none: no block lies inside, and two coincide. */
  lemma WrappedAccepted()
    ensures Accepted(WrappedImage(), WrappedFs()) && ClusterSize(WrappedFs()) == 0x40_0000
    ensures WrappedFs().clusterCount == 4096 && WrappedFs().data == |WrappedImage()|
    ensures GetFatClusterData(WrappedFs(), 2) == GetFatClusterData(WrappedFs(), 1026)
    ensures forall id :: 2 <= id <= 4096 ==> !BlockInside(WrappedImage(), WrappedFs(), id)
  {
    hide WrappedImage, VerifyInitrd, Span;
    WrappedLayout();
    WrappedSpan();
  }

  lemma OutsideIndex(s: nat, n: nat) returns (k: nat)
    requires 0 < s < 0x100_0000 && n >= 2 && n * s >= U32
    ensures k <= n - 2 && k * s < U32 && k * s + s > n * s % U32
  {
    var i := Crossing(s, n, U32);
    assert (i - 1) * s == i * s - s;
    k := i - 1;
    if i == n {
      k := n - 2;
      assert (n - 2) * s == n * s - 2 * s;
      assert n * s % U32 == n * s - U32;
    }
  }

  lemma AreaLength(image: seq<u8>, fs: Fs)
    requires Accepted(image, fs)
    ensures |image| == fs.data + fs.clusterCount * ClusterSize(fs) % U32
    ensures fs.sectorsPerCluster < 256
  {
    AcceptedCounts(image, fs);
    SpanIs(fs, fs.clusterCount);
  }

  lemma BlockAt(fs: Fs, id: nat)
    requires 2 <= id <= fs.clusterCount < FAT16_LIMIT && fs.sectorsPerCluster < 256
    ensures GetFatClusterData(fs, id) == Some(fs.data + (id - 2) * ClusterSize(fs) % U32)
    ensures (id - 2) * ClusterSize(fs) < U32 ==> GetFatClusterData(fs, id) == Some(fs.data + (id - 2) * ClusterSize(fs))
  {
    hide Span, ClusterSize;
    SpanIs(fs, id - 2);
    ProductBound(0, 0, id - 2, ClusterSize(fs));
  }

  /** Different clusters have disjoint blocks exactly when the last readable one begins below 2^32. */
  lemma ApartExact(image: seq<u8>, fs: Fs)
    requires Accepted(image, fs)
    ensures (forall i, j :: 2 <= i < j <= fs.clusterCount ==> BlocksApart(fs, i, j)) <==>
            (fs.clusterCount - 2) * ClusterSize(fs) < U32
  {
    hide Span, VerifyInitrd;
    AcceptedCounts(image, fs);
    AreaLength(image, fs);
    var n, s := fs.clusterCount, ClusterSize(fs);
    if (n - 2) * s < U32 {
      forall i, j | 2 <= i < j <= n ensures BlocksApart(fs, i, j) {
        ProductBound(i - 2, s, n - 2, s);
        ProductBound(j - 2, s, n - 2, s);
        BlockAt(fs, i);
        BlockAt(fs, j);
        ProductBound(i - 1, s, j - 2, s);
        assert (i - 1) * s == (i - 2) * s + s;
      }
    } else {
      var i := Crossing(s, n - 2, U32);
      BlockAt(fs, 2);
      BlockAt(fs, i + 2);
      assert (i - 1) * s == i * s - s;
      assert i * s % U32 == i * s - U32;
      assert !BlocksApart(fs, 2, i + 2);
    }
  }

  // ----- reading a file -----

  /** The next entry of the chain, as the FAT holds it. */
  function Entry(image: seq<u8>, fs: Fs, id: nat): nat
    requires fs.fat + 2 * id + 2 <= |image|
  {
    U16At(image, fs.fat + 2 * id)
  }

  /** ids is a cluster chain of the file system: cluster numbers linked by the FAT, then an end mark. */
  ghost predicate IsChain(image: seq<u8>, fs: Fs, ids: seq<nat>)
    requires fs.fat + 2 * fs.clusterCount + 4 <= |image|
  {
    && ids != []
    && (forall k {:trigger ids[k]} :: 0 <= k < |ids| ==> 2 <= ids[k] <= fs.clusterCount + 1)
    && (forall k {:trigger Entry(image, fs, ids[k])} :: 0 <= k < |ids| - 1 ==> Entry(image, fs, ids[k]) == ids[k + 1])
    && Entry(image, fs, ids[|ids| - 1]) >= END_OF_CHAIN
  }

  /** The clusters before the first one that get_fat_cluster_data rejects, number cluster_count + 1. */
  function Readable(fs: Fs, ids: seq<nat>): (r: seq<nat>)
    ensures r <= ids && (forall k {:trigger r[k]} :: 0 <= k < |r| ==> r[k] <= fs.clusterCount)
    ensures |r| < |ids| ==> ids[|r|] > fs.clusterCount
  {
    if ids == [] || ids[0] > fs.clusterCount then [] else [ids[0]] + Readable(fs, ids[1..])
  }

  /** The whole chain is readable exactly when the last cluster of the volume is not in it. */
  lemma ReadableAll(image: seq<u8>, fs: Fs, ids: seq<nat>)
    requires fs.fat + 2 * fs.clusterCount + 4 <= |image| && IsChain(image, fs, ids)
    ensures Readable(fs, ids) == ids <==> fs.clusterCount + 1 !in ids
  {
    var r := Readable(fs, ids);
    if |r| < |ids| {
      assert ids[|r|] == fs.clusterCount + 1;
    } else {
      assert r == ids;
    }
  }

  /** Bytes of n clusters. */
  function Times(n: nat, size: nat): nat {
    ProductBound(0, 0, n, size);
    n * size
  }

  lemma TimesNext(n: nat, size: nat)
    ensures Times(n + 1, size) == Times(n, size) + size
  {
  }

  /** Where the code looks for cluster id. */
  function Start(fs: Fs, id: nat): nat
    requires id >= 2
  {
    fs.data + Span(fs, id - 2)
  }

  predicate InImage(image: seq<u8>, fs: Fs, ids: seq<nat>) {
    forall k {:trigger ids[k]} :: 0 <= k < |ids| ==> 2 <= ids[k] && Start(fs, ids[k]) + ClusterSize(fs) <= |image|
  }

  /** The contents of clusters, one behind the other. */
  function Clusters(image: seq<u8>, fs: Fs, ids: seq<nat>): (s: seq<u8>)
    requires InImage(image, fs, ids)
    ensures |s| == Times(|ids|, ClusterSize(fs))
  {
    if ids == [] then [] else
      var last := Start(fs, ids[|ids| - 1]);
      TimesNext(|ids| - 1, ClusterSize(fs));
      Clusters(image, fs, ids[..|ids| - 1]) + image[last..last + ClusterSize(fs)]
  }

  /** An entry that is an end mark lies above every cluster number, even above the slack that the code allows. */
  lemma EndMarksStop(image: seq<u8>, fs: Fs, id: nat)
    requires Accepted(image, fs) && fs.fat + 2 * fs.clusterCount + 4 <= |image| && id <= fs.clusterCount
    requires Entry(image, fs, id) >= 0xfff8
    ensures GetNextCluster(image, fs, id) == 0
  {
    hide VerifyInitrd;
    AcceptedCounts(image, fs);
  }

  /** When the data area is smaller than 2^32 bytes, every readable cluster lies by its number, inside the image. */
  lemma ClustersInside(image: seq<u8>, fs: Fs, ids: seq<nat>)
    requires Accepted(image, fs) && Times(fs.clusterCount, ClusterSize(fs)) < U32
    requires forall k {:trigger ids[k]} :: 0 <= k < |ids| ==> 2 <= ids[k] <= fs.clusterCount
    ensures InImage(image, fs, ids)
    ensures forall k {:trigger ids[k]} :: 0 <= k < |ids| ==> Start(fs, ids[k]) == fs.data + Times(ids[k] - 2, ClusterSize(fs))
  {
    hide VerifyInitrd, Span, ClusterSize;
    AcceptedCounts(image, fs);
    AreaLength(image, fs);
    InsideExact(image, fs);
    forall k | 0 <= k < |ids|
      ensures Start(fs, ids[k]) + ClusterSize(fs) <= |image|
      ensures Start(fs, ids[k]) == fs.data + Times(ids[k] - 2, ClusterSize(fs))
    {
      assert BlockInside(image, fs, ids[k]);
      SpanIs(fs, ids[k] - 2);
      ProductBound(ids[k] - 2, ClusterSize(fs), fs.clusterCount, ClusterSize(fs));
    }
  }

  /** s with x written over its bytes from `to` on. */
  function Spliced(s: seq<u8>, to: nat, x: seq<u8>): (r: seq<u8>)
    requires to + |x| <= |s|
    ensures |r| == |s|
  {
    s[..to] + x + s[to + |x|..]
  }

  /** memcpy of one cluster */
  method CopyCluster(image: seq<u8>, from: nat, buffer: array<u8>, to: nat, size: nat)
    requires from + size <= |image| && to + size <= buffer.Length
    modifies buffer
    ensures buffer[..] == Spliced(old(buffer[..]), to, image[from..from + size])
  {
    var i := 0;
    while i < size
      invariant 0 <= i <= size
      invariant forall k :: 0 <= k < buffer.Length ==>
        buffer[k] == if to <= k < to + i then image[from + k - to] else old(buffer[k])
    {
      buffer[to + i] := image[from + i];
      i := i + 1;
    }
  }

  /** The walk of read_file_full from `first`: the n-th number that it comes to. */
  function WalkAt(image: seq<u8>, fs: Fs, first: nat, n: nat): nat
    requires fs.fat + 2 * fs.clusterCount + 2 <= |image|
  {
    if n == 0 then first else GetNextCluster(image, fs, WalkAt(image, fs, first, n - 1))
  }

  /** The first n numbers. */
  function Walk(image: seq<u8>, fs: Fs, first: nat, n: nat): (r: seq<nat>)
    requires fs.fat + 2 * fs.clusterCount + 2 <= |image|
    ensures |r| == n && forall i :: 0 <= i < n ==> r[i] == WalkAt(image, fs, first, i)
  {
    seq(n, i requires 0 <= i => WalkAt(image, fs, first, i))
  }

  /** The walk stops at such a number. */
  predicate Stops(fs: Fs, id: nat) {
    GetFatClusterData(fs, id).None?
  }

  ghost predicate Ends(image: seq<u8>, fs: Fs, first: nat)
    requires fs.fat + 2 * fs.clusterCount + 2 <= |image|
  {
    exists n {:trigger WalkAt(image, fs, first, n)} :: n >= 0 && Stops(fs, WalkAt(image, fs, first, n))
  }

  /** It comes to no cluster twice. */
  ghost predicate NoneTwice(image: seq<u8>, fs: Fs, first: nat)
    requires fs.fat + 2 * fs.clusterCount + 2 <= |image|
  {
    forall i, j {:trigger WalkAt(image, fs, first, i), WalkAt(image, fs, first, j)} ::
      0 <= i < j && !Stops(fs, WalkAt(image, fs, first, j)) ==>
      WalkAt(image, fs, first, i) != WalkAt(image, fs, first, j)
  }

  /** The walk from any number ends if and only if it comes to no cluster twice. */
  lemma EndsExact(image: seq<u8>, fs: Fs, first: nat)
    requires fs.fat + 2 * fs.clusterCount + 2 <= |image|
    ensures Ends(image, fs, first) <==> NoneTwice(image, fs, first)
  {
    hide WalkAt;
    if Ends(image, fs, first) {
      var n: nat :| Stops(fs, WalkAt(image, fs, first, n));
      forall i, j | 0 <= i < j && !Stops(fs, WalkAt(image, fs, first, j))
        ensures WalkAt(image, fs, first, i) != WalkAt(image, fs, first, j)
      {
        if WalkAt(image, fs, first, i) == WalkAt(image, fs, first, j) {
          NeverEnds(image, fs, first, i, j, n);
        }
      }
    } else {
      var c := fs.clusterCount + 2;
      var w := Walk(image, fs, first, c);
      forall i | 0 <= i < c ensures w[i] <= fs.clusterCount {
        assert !Stops(fs, WalkAt(image, fs, first, i));
      }
      var i, j := TwiceIn(w, fs.clusterCount);
      assert !Stops(fs, WalkAt(image, fs, first, j));
      assert WalkAt(image, fs, first, i) == WalkAt(image, fs, first, j);
    }
  }

  /** Once stopped, the walk stays so. */
  lemma {:induction false} StaysStopped(image: seq<u8>, fs: Fs, first: nat, n: nat, k: nat)
    requires fs.fat + 2 * fs.clusterCount + 2 <= |image| && n <= k && Stops(fs, WalkAt(image, fs, first, n))
    ensures Stops(fs, WalkAt(image, fs, first, k))
    decreases k
  {
    if n < k {
      StaysStopped(image, fs, first, n, k - 1);
    }
  }

  /** From the second time on the walk repeats itself. */
  lemma {:induction false} Repeats(image: seq<u8>, fs: Fs, first: nat, i: nat, j: nat, t: nat)
    requires fs.fat + 2 * fs.clusterCount + 2 <= |image| && WalkAt(image, fs, first, i) == WalkAt(image, fs, first, j)
    ensures WalkAt(image, fs, first, i + t) == WalkAt(image, fs, first, j + t)
    decreases t
  {
    if t > 0 {
      Repeats(image, fs, first, i, j, t - 1);
      assert WalkAt(image, fs, first, i + t) == GetNextCluster(image, fs, WalkAt(image, fs, first, i + t - 1));
      assert WalkAt(image, fs, first, j + t) == GetNextCluster(image, fs, WalkAt(image, fs, first, j + t - 1));
    }
  }

  /** A walk that comes to a cluster twice does not stop at any n. */
  lemma {:induction false} NeverEnds(image: seq<u8>, fs: Fs, first: nat, i: nat, j: nat, n: nat)
    requires fs.fat + 2 * fs.clusterCount + 2 <= |image| && i < j && WalkAt(image, fs, first, i) == WalkAt(image, fs, first, j)
    requires !Stops(fs, WalkAt(image, fs, first, j))
    ensures !Stops(fs, WalkAt(image, fs, first, n))
    decreases n
  {
    hide WalkAt;
    if n < j {
      if Stops(fs, WalkAt(image, fs, first, n)) {
        StaysStopped(image, fs, first, n, j);
      }
    } else {
      Repeats(image, fs, first, i, j, n - j);
      assert i + (n - j) == n - (j - i);
      NeverEnds(image, fs, first, i, j, n - (j - i));
    }
  }

  function UpTo(c: nat): (t: set<nat>)
    ensures |t| == c + 1 && forall k :: k in t <==> 0 <= k <= c
  {
    if c == 0 then {0} else UpTo(c - 1) + {c}
  }

  function Elements(w: seq<nat>): set<nat> {
    set x | x in w
  }

  /** c + 2 numbers up to c are not all different. */
  lemma TwiceIn(w: seq<nat>, c: nat) returns (i: nat, j: nat)
    requires |w| == c + 2 && forall k :: 0 <= k < |w| ==> w[k] <= c
    ensures i < j < |w| && w[i] == w[j]
  {
    if forall i, j :: 0 <= i < j < |w| ==> w[i] != w[j] {
      DistinctCount(w);
      SmallerSet(Elements(w), UpTo(c));
      assert false;
    }
    i, j :| 0 <= i < j < |w| && w[i] == w[j];
  }

  lemma {:induction false} DistinctCount(w: seq<nat>)
    requires forall i, j :: 0 <= i < j < |w| ==> w[i] != w[j]
    ensures |Elements(w)| == |w|
  {
    if w == [] {
      assert Elements(w) == {};
    } else {
      var front, last := w[..|w| - 1], w[|w| - 1];
      DistinctCount(front);
      assert Elements(w) == Elements(front) + {last};
    }
  }

  lemma SmallerSet(s: set<nat>, t: set<nat>)
    requires s <= t
    ensures |s| <= |t|
  {
    assert t == s + (t - s);
  }

  /** Of a cluster chain the walk meets the readable clusters, in order, and then ends. */
  lemma ChainWalk(image: seq<u8>, fs: Fs, ids: seq<nat>)
    requires Accepted(image, fs) && fs.fat + 2 * fs.clusterCount + 4 <= |image| && IsChain(image, fs, ids)
    ensures var r := Readable(fs, ids);
      Walk(image, fs, ids[0], |r|) == r && Stops(fs, WalkAt(image, fs, ids[0], |r|))
  {
    hide Accepted, Readable, GetNextCluster, IsChain;
    var r := Readable(fs, ids);
    WalkPrefix(image, fs, ids, |r|);
    if |r| > 0 {
      ChainStep(image, fs, ids, |r| - 1);
    } else {
      FirstRejected(image, fs, ids);
    }
  }

  lemma FirstRejected(image: seq<u8>, fs: Fs, ids: seq<nat>)
    requires fs.fat + 2 * fs.clusterCount + 4 <= |image| && IsChain(image, fs, ids) && Readable(fs, ids) == []
    ensures Stops(fs, ids[0])
  {
  }

  lemma {:induction false} WalkPrefix(image: seq<u8>, fs: Fs, ids: seq<nat>, n: nat)
    requires Accepted(image, fs) && fs.fat + 2 * fs.clusterCount + 4 <= |image| && IsChain(image, fs, ids)
    requires n <= |Readable(fs, ids)|
    ensures Walk(image, fs, ids[0], n) == Readable(fs, ids)[..n]
  {
    hide Accepted, Readable, GetNextCluster, IsChain;
    if n > 0 {
      WalkPrefix(image, fs, ids, n - 1);
      var w := Walk(image, fs, ids[0], n);
      assert w[..n - 1] == Walk(image, fs, ids[0], n - 1);
      if n > 1 {
        ChainStep(image, fs, ids, n - 2);
        assert w[n - 2] == Readable(fs, ids)[n - 2];
      } else {
        FirstReadable(image, fs, ids);
      }
      assert w[n - 1] == Readable(fs, ids)[n - 1];
    }
  }

  lemma FirstReadable(image: seq<u8>, fs: Fs, ids: seq<nat>)
    requires fs.fat + 2 * fs.clusterCount + 4 <= |image| && IsChain(image, fs, ids) && Readable(fs, ids) != []
    ensures Readable(fs, ids)[0] == ids[0]
  {
  }

  /**
   * The loop of read_file_full, from any cluster on, whatever the FAT holds: the clusters of the walk, one behind the
   * other, up to the first number that is rejected. The blocks read must lie in the image. A cluster that does not fit
   * into the buffer would be copied past its end; that outcome is `over`, and a walk that never ends comes to it.
   */
  method ReadChain(image: seq<u8>, fs: Fs, first: nat, buffer: array<u8>) returns (count: nat, over: bool)
    requires Accepted(image, fs) && fs.fat + 2 * fs.clusterCount + 4 <= |image|
    requires forall n: nat :: InImage(image, fs, Met(image, fs, first, n))
    modifies buffer
    ensures forall i :: 0 <= i < count ==> !Stops(fs, WalkAt(image, fs, first, i))
    ensures !over <==> Stops(fs, WalkAt(image, fs, first, count))
    ensures Times(count, ClusterSize(fs)) <= buffer.Length
    ensures over ==> buffer.Length < Times(count + 1, ClusterSize(fs))
    ensures Met(image, fs, first, count) == Walk(image, fs, first, count) && InImage(image, fs, Walk(image, fs, first, count))
    ensures buffer[..] == Spliced(old(buffer[..]), 0, Clusters(image, fs, Walk(image, fs, first, count)))
  {
    hide Accepted, GetNextCluster, Clusters, First, ClusterSize, Times, InImage, Start, Spliced, Met, Walk;
    var size := ClusterSize(fs);
    ghost var whole := buffer[..];
    var i := 0;
    var id := first;
    AcceptedCounts(image, fs);
    WalkBegins(image, fs, first);
    SplicedNothing(buffer[..]);
    while GetFatClusterData(fs, id).Some?
      invariant Times(i, size) <= buffer.Length && id == WalkAt(image, fs, first, i)
      invariant forall k :: 0 <= k < i ==> !Stops(fs, WalkAt(image, fs, first, k))
      invariant Met(image, fs, first, i) == Walk(image, fs, first, i) && InImage(image, fs, Walk(image, fs, first, i))
      invariant buffer[..] == Spliced(whole, 0, Clusters(image, fs, Walk(image, fs, first, i)))
      decreases buffer.Length - Times(i, size)
    {
      MetNext(image, fs, first, i);
      assert InImage(image, fs, Met(image, fs, first, i + 1));
      if Times(i + 1, size) > buffer.Length {
        return i, true;
      }
      FirstWalk(image, fs, first, i);
      CopyNext(image, fs, Walk(image, fs, first, i + 1), i, GetFatClusterData(fs, id).value, buffer, whole);
      Longer(i, size);
      id := GetNextCluster(image, fs, id);
      i := i + 1;
    }
    count, over := i, false;
  }

  /** The clusters among the first n numbers: those before the walk stops. */
  function Met(image: seq<u8>, fs: Fs, first: nat, n: nat): (r: seq<nat>)
    requires fs.fat + 2 * fs.clusterCount + 2 <= |image|
    ensures r <= Walk(image, fs, first, n)
  {
    if n == 0 then []
    else
      var before := Met(image, fs, first, n - 1);
      WalkLonger(image, fs, first, n);
      if |before| == n - 1 && !Stops(fs, WalkAt(image, fs, first, n - 1))
      then before + [WalkAt(image, fs, first, n - 1)] else before
  }

  lemma WalkLonger(image: seq<u8>, fs: Fs, first: nat, n: nat)
    requires fs.fat + 2 * fs.clusterCount + 2 <= |image| && n > 0
    ensures Walk(image, fs, first, n) == Walk(image, fs, first, n - 1) + [WalkAt(image, fs, first, n - 1)]
  {
    hide WalkAt;
  }

  lemma WalkBegins(image: seq<u8>, fs: Fs, first: nat)
    requires fs.fat + 2 * fs.clusterCount + 2 <= |image|
    ensures Met(image, fs, first, 0) == Walk(image, fs, first, 0) == [] && InImage(image, fs, [])
    ensures Clusters(image, fs, []) == [] && Times(0, ClusterSize(fs)) == 0
  {
    hide ClusterSize;
  }

  lemma MetNext(image: seq<u8>, fs: Fs, first: nat, i: nat)
    requires fs.fat + 2 * fs.clusterCount + 2 <= |image| && Met(image, fs, first, i) == Walk(image, fs, first, i)
    requires !Stops(fs, WalkAt(image, fs, first, i))
    ensures Met(image, fs, first, i + 1) == Walk(image, fs, first, i + 1)
    ensures Walk(image, fs, first, i + 1)[..i] == Walk(image, fs, first, i)
    ensures var id := WalkAt(image, fs, first, i);
      2 <= id && GetFatClusterData(fs, id) == Some(Start(fs, id)) && Walk(image, fs, first, i + 1)[i] == id
  {
    hide WalkAt, Span;
    WalkLonger(image, fs, first, i + 1);
  }

  lemma FirstWalk(image: seq<u8>, fs: Fs, first: nat, i: nat)
    requires fs.fat + 2 * fs.clusterCount + 2 <= |image| && InImage(image, fs, Walk(image, fs, first, i + 1))
    ensures InImage(image, fs, Walk(image, fs, first, i))
    ensures First(image, fs, Walk(image, fs, first, i + 1), i) == Clusters(image, fs, Walk(image, fs, first, i))
    ensures First(image, fs, Walk(image, fs, first, i + 1), i + 1) == Clusters(image, fs, Walk(image, fs, first, i + 1))
  {
    hide Clusters, Walk, Start, ClusterSize;
    WalkLonger(image, fs, first, i + 1);
    assert Walk(image, fs, first, i + 1)[..i] == Walk(image, fs, first, i);
    assert Walk(image, fs, first, i + 1)[..i + 1] == Walk(image, fs, first, i + 1);
    assert forall k :: 0 <= k < i ==> Walk(image, fs, first, i)[k] == Walk(image, fs, first, i + 1)[k];
  }

  lemma Longer(i: nat, size: nat)
    requires size > 0
    ensures Times(i, size) < Times(i + 1, size)
  {
    hide Times;
    TimesNext(i, size);
  }

  /** One round of the loop: the i-th cluster goes behind those before it. */
  method CopyNext(image: seq<u8>, fs: Fs, ghost r: seq<nat>, i: nat, from: nat, buffer: array<u8>, ghost whole: seq<u8>)
    requires InImage(image, fs, r) && i < |r| && 2 <= r[i] && from == Start(fs, r[i])
    requires Times(i + 1, ClusterSize(fs)) <= buffer.Length == |whole| && Times(i, ClusterSize(fs)) <= |whole|
    requires buffer[..] == Spliced(whole, 0, First(image, fs, r, i))
    modifies buffer
    ensures buffer[..] == Spliced(whole, 0, First(image, fs, r, i + 1))
  {
    hide Clusters, First, ClusterSize, Times, InImage, Start, Spliced;
    FirstNext(image, fs, r, i);
    Written(whole, First(image, fs, r, i), image[from..from + ClusterSize(fs)]);
    CopyCluster(image, from, buffer, Times(i, ClusterSize(fs)), ClusterSize(fs));
  }

  /** The contents of the first i clusters. */
  function First(image: seq<u8>, fs: Fs, r: seq<nat>, i: nat): (s: seq<u8>)
    requires InImage(image, fs, r) && i <= |r|
    ensures |s| == Times(i, ClusterSize(fs))
  {
    Clusters(image, fs, r[..i])
  }

  lemma SplicedNothing(s: seq<u8>)
    ensures Spliced(s, 0, []) == s
  {
  }

  /** read_file_full's buffer of n bytes is too short for a file of n bytes exactly when its last cluster is not full. */
  lemma FileBuffer(n: nat, size: nat, clusters: nat)
    requires size > 0 && clusters == (n + size - 1) / size
    ensures n < Times(clusters, size) <==> n % size != 0
  {
    var q, m := n / size, n % size;
    assert n == size * q + m;
    if m == 0 {
      DivModUnique(n + size - 1, size, q, size - 1);
    } else {
      assert size * (q + 1) == size * q + size;
      DivModUnique(n + size - 1, size, q + 1, m - 1);
    }
  }

  lemma Written(first: seq<u8>, done: seq<u8>, x: seq<u8>)
    requires |done| + |x| <= |first|
    ensures Spliced(Spliced(first, 0, done), |done|, x) == Spliced(first, 0, done + x)
  {
  }

  lemma ChainStep(image: seq<u8>, fs: Fs, ids: seq<nat>, i: nat)
    requires Accepted(image, fs)
    requires fs.fat + 2 * fs.clusterCount + 4 <= |image| && IsChain(image, fs, ids) && i < |Readable(fs, ids)|
    ensures var r := Readable(fs, ids); var next := GetNextCluster(image, fs, r[i]);
      && 2 <= r[i] && GetFatClusterData(fs, r[i]) == Some(Start(fs, r[i]))
      && (if i + 1 < |r| then next == r[i + 1] else GetFatClusterData(fs, next).None?)
  {
    hide Accepted, Span, ClusterSize, Readable;
    var r := Readable(fs, ids);
    assert r[i] == ids[i];
    if i + 1 < |ids| {
      assert Entry(image, fs, ids[i]) == ids[i + 1];
      assert i + 1 < |r| ==> r[i + 1] == ids[i + 1];
    } else {
      EndMarksStop(image, fs, ids[i]);
    }
  }

  lemma FirstNext(image: seq<u8>, fs: Fs, r: seq<nat>, i: nat)
    requires InImage(image, fs, r) && i < |r|
    ensures 2 <= r[i] && Start(fs, r[i]) + ClusterSize(fs) <= |image|
    ensures Times(i + 1, ClusterSize(fs)) == Times(i, ClusterSize(fs)) + ClusterSize(fs)
    ensures First(image, fs, r, i + 1) == First(image, fs, r, i) + image[Start(fs, r[i])..Start(fs, r[i]) + ClusterSize(fs)]
  {
    hide Start, ClusterSize, Times;
    TimesNext(i, ClusterSize(fs));
    assert r[..i + 1][..i] == r[..i];
  }
}
