/** FAT16 volumes as their boot sectors describe them, and which of them kernel/src/fat16.c accepts as an initrd. */
module Volumes {
  import opened Words
  import opened Options
  import opened Fat16

  /** The fields of a boot sector; `short` volumes count their sectors in the 16-bit field. */
  datatype Volume = Volume(sectorSize: nat, sectorsPerCluster: nat, reserved: nat, fats: nat, fatSize: nat, rootEntries: nat,
                           total: nat, short: bool)

  /** What else is in a boot sector; `wide` is the 32-bit count of a short volume. */
  datatype Filling = Filling(head: seq<u8>, media: u8, geometry: seq<u8>, wide: seq<u8>, code: seq<u8>)

  /** What follows the boot sector: the rest of the reserved sectors, the FATs, the root directory and the clusters. */
  datatype Areas = Areas(spare: seq<u8>, fats: seq<u8>, root: seq<u8>, data: seq<u8>)

  predicate IsVolume(v: Volume) {
    && 0 < v.sectorSize < 0x1_0000 && 0 < v.sectorsPerCluster < 256 && v.reserved < 0x1_0000 && v.fats < 256
    && v.fatSize < 0x1_0000 && v.rootEntries < 0x1_0000 && v.total < U32 && (v.short ==> 0 < v.total < 0x1_0000)
  }

  predicate IsFilling(f: Filling) {
    |f.head| == 11 && |f.geometry| == 8 && |f.wide| == 4 && |f.code| == 474
  }

  function Le16(w: nat): (b: seq<u8>)
    requires w < 0x1_0000
    ensures |b| == 2
  {
    [w % 256, w / 256]
  }

  function Le32(w: nat): (b: seq<u8>)
    requires w < U32
    ensures |b| == 4
  {
    Le16(w % 0x1_0000) + Le16(w / 0x1_0000)
  }

  function BootSector(v: Volume, f: Filling): (b: seq<u8>)
    requires IsVolume(v) && IsFilling(f)
    ensures |b| == 512
  {
    f.head + (Le16(v.sectorSize) + [v.sectorsPerCluster] + Le16(v.reserved) + [v.fats] + Le16(v.rootEntries))
    + (Le16(if v.short then v.total else 0) + [f.media] + Le16(v.fatSize)) + f.geometry
    + (if v.short then f.wide else Le32(v.total)) + f.code + [0x55, 0xaa]
  }

  /** The areas are as long as the boot sector says; what lies behind the root directory may have any length. */
  predicate AsLong(v: Volume, a: Areas) {
    && 512 + |a.spare| == v.reserved * v.sectorSize && |a.fats| == v.fats * v.fatSize * v.sectorSize
    && |a.root| == 32 * v.rootEntries
  }

  function Image(v: Volume, f: Filling, a: Areas): (image: seq<u8>)
    requires IsVolume(v) && IsFilling(f)
    ensures |image| == 512 + |a.spare| + |a.fats| + |a.root| + |a.data|
  {
    BootSector(v, f) + a.spare + a.fats + a.root + a.data
  }

  /** The file system with n clusters whose areas are where these are. */
  function Places(v: Volume, a: Areas, n: nat): Fs {
    var fat := 512 + |a.spare|;
    Fs(v.sectorSize, v.sectorsPerCluster, n, fat, fat + |a.fats|, fat + |a.fats| + |a.root|)
  }

  /** The root directory takes s sectors, the last of them perhaps not all. */
  predicate RootSectors(v: Volume, s: nat) {
    v.sectorSize * (s - 1) < 32 * v.rootEntries <= v.sectorSize * s
  }

  function Front(v: Volume, s: nat): int {
    v.reserved + v.fats * v.fatSize + s
  }

  /** A FAT16 volume of n clusters; the code counts their bytes in 32 bits. */
  predicate Suitable(v: Volume, s: nat, n: nat, bytes: nat) {
    && v.fatSize != 0 && v.total != 0 && 4085 <= n <= 65524
    && n * v.sectorsPerCluster <= v.total - Front(v, s) < n * v.sectorsPerCluster + v.sectorsPerCluster
    && bytes == n * (v.sectorsPerCluster * v.sectorSize) % U32
  }

  // ----- the boot sector read back -----

  lemma HeadFields(v: Volume, f: Filling)
    requires IsVolume(v) && IsFilling(f)
    ensures var b := BootSector(v, f);
      && b[11..18] == Le16(v.sectorSize) + [v.sectorsPerCluster] + Le16(v.reserved) + [v.fats] + Le16(v.rootEntries)[..1]
      && b[18] == Le16(v.rootEntries)[1]
      && b[19..24] == Le16(if v.short then v.total else 0) + [f.media] + Le16(v.fatSize)
      && b[32..36] == (if v.short then f.wide else Le32(v.total)) && b[510..] == [0x55, 0xaa]
  {
    hide Le16, Le32;
  }

  lemma WordAt(image: seq<u8>, at: nat, w: nat)
    requires w < 0x1_0000 && at + 2 <= |image| && image[at] == Le16(w)[0] && image[at + 1] == Le16(w)[1]
    ensures U16At(image, at) == w
  {
  }

  lemma Fields(v: Volume, f: Filling, rest: seq<u8>)
    requires IsVolume(v) && IsFilling(f)
    ensures var image := BootSector(v, f) + rest;
      && U16At(image, 11) == v.sectorSize && image[13] == v.sectorsPerCluster && U16At(image, 14) == v.reserved
      && image[16] == v.fats && U16At(image, 17) == v.rootEntries && U16At(image, 19) == (if v.short then v.total else 0)
      && U16At(image, 22) == v.fatSize && (!v.short ==> U32At(image, 32) == v.total) && U16At(image, 510) == 0xaa55
  {
    hide Le16, BootSector, U16At;
    HeadFields(v, f);
    var b := BootSector(v, f);
    var image := b + rest;
    var head := b[11..18];
    var counts := b[19..24];
    assert forall i :: 0 <= i < 7 ==> image[11 + i] == head[i];
    assert forall i :: 0 <= i < 5 ==> image[19 + i] == counts[i];
    WordAt(image, 11, v.sectorSize);
    assert image[13] == head[2];
    WordAt(image, 14, v.reserved);
    assert image[16] == head[5] && image[17] == head[6] && image[18] == b[18];
    WordAt(image, 17, v.rootEntries);
    WordAt(image, 19, if v.short then v.total else 0);
    WordAt(image, 22, v.fatSize);
    assert image[510] == b[510..][0] && image[511] == b[510..][1];
    Signature(image);
    if !v.short {
      var wide := b[32..36];
      assert forall i :: 0 <= i < 4 ==> image[32 + i] == wide[i];
      WordAt(image, 32, v.total % 0x1_0000);
      WordAt(image, 34, v.total / 0x1_0000);
    }
  }

  lemma Signature(image: seq<u8>)
    requires |image| >= 512 && image[510] == 0x55 && image[511] == 0xaa
    ensures U16At(image, 510) == 0xaa55
  {
  }

  lemma RootSectorsIs(v: Volume, s: nat)
    requires IsVolume(v) && RootSectors(v, s)
    ensures RoundUp(v.rootEntries * 32, v.sectorSize) == s
  {
    var e, b := v.rootEntries * 32, v.sectorSize;
    assert b * (s - 1) == b * s - b;
    DivModUnique(e + (b - 1), b, s, e + (b - 1) - b * s);
  }

  /** The clusters that the code counts, for a volume that is FAT16 or not. */
  lemma CountIs(total: nat, front: nat, s: nat, n: nat)
    requires total < U32 && front <= 18874080 && 0 < s < 256 && n < FAT16_LIMIT
    ensures (total - front) % U32 / s == n <==> n * s <= total - front < n * s + s
  {
    if n * s <= total - front < n * s + s {
      DivModUnique(total - front, s, n, total - front - n * s);
    }
    if (total - front) % U32 / s == n {
      NoWrap(total, front, s, n);
      assert total - front == s * n + (total - front) % s;
    }
  }

  /** What verify_initrd makes of the fields, with the areas where they are. */
  lemma Recognised(v: Volume, f: Filling, a: Areas, s: nat, n: nat)
    requires IsVolume(v) && IsFilling(f) && AsLong(v, a) && RootSectors(v, s)
    ensures VerifyInitrd(Image(v, f, a)) == Some(Places(v, a, n)) <==> Suitable(v, s, n, |a.data|) && |a.fats| % 2 == 0
    ensures |a.fats| % 2 == 0 && VerifyInitrd(Image(v, f, a)).Some? ==>
      exists m: nat {:trigger Suitable(v, s, m, |a.data|)} :: Suitable(v, s, m, |a.data|)
  {
    hide BootSector, U16At, U32At, Product, Span, RoundUp;
    var image := Image(v, f, a);
    Fields(v, f, a.spare + a.fats + a.root + a.data);
    assert image == BootSector(v, f) + (a.spare + a.fats + a.root + a.data);
    RootSectorsIs(v, s);
    FrontBound(image);
    var fs := Layout(image);
    LayoutAt(v, a, image);
    assert TotalSectors(image) == v.total && FrontSectors(image) == Front(v, s);
    var c := ClusterCount(image);
    if c < FAT16_LIMIT {
      CountIs(v.total, Front(v, s), v.sectorsPerCluster, c);
      SpanIs(fs, c);
    }
    if n < FAT16_LIMIT {
      CountIs(v.total, Front(v, s), v.sectorsPerCluster, n);
    }
    if VerifyInitrd(image).Some? && |a.fats| % 2 == 0 {
      assert Suitable(v, s, c, |a.data|);
    }
  }

  /** Without an odd FAT area the areas are where the code looks for them. */
  lemma LayoutAt(v: Volume, a: Areas, image: seq<u8>)
    requires IsVolume(v) && AsLong(v, a) && |image| >= 512
    requires U16At(image, 11) == v.sectorSize && image[13] == v.sectorsPerCluster && U16At(image, 14) == v.reserved
    requires image[16] == v.fats && U16At(image, 17) == v.rootEntries && U16At(image, 22) == v.fatSize
    ensures var fs := Layout(image);
      && fs == Places(v, a, ClusterCount(image)).(rootDir := fs.rootDir, data := fs.data)
      && fs.data == fs.rootDir + |a.root|
      && (fs.rootDir == 512 + |a.spare| + |a.fats| <==> |a.fats| % 2 == 0)
  {
    hide U16At, ClusterCount;
    assert 1 * v.reserved * v.sectorSize == v.reserved * v.sectorSize;
  }

  lemma WordBack(image: seq<u8>, at: nat)
    requires at + 2 <= |image|
    ensures image[at..at + 2] == Le16(U16At(image, at))
  {
  }

  /** Every boot sector with the signature and nonzero sizes is that of a volume. */
  lemma EveryImage(image: seq<u8>) returns (v: Volume, f: Filling)
    requires |image| >= 512 && U16At(image, 11) > 0 && image[13] > 0 && image[510] == 0x55 && image[511] == 0xaa
    ensures IsVolume(v) && IsFilling(f) && image == BootSector(v, f) + image[512..]
  {
    hide U16At, Le16;
    var short := U16At(image, 19) != 0;
    v := Volume(U16At(image, 11), image[13], U16At(image, 14), image[16], U16At(image, 22), U16At(image, 17),
                if short then U16At(image, 19) else U32At(image, 32), short);
    f := Filling(image[..11], image[21], image[24..32], image[32..36], image[36..510]);
    WordBack(image, 11);
    WordBack(image, 14);
    WordBack(image, 17);
    WordBack(image, 19);
    WordBack(image, 22);
    if !short {
      WordBack(image, 32);
      WordBack(image, 34);
      DivModUnique(v.total, 0x1_0000, U16At(image, 34), U16At(image, 32));
      assert Le32(v.total) == image[32..36];
    }
    assert image[11..19] == Le16(v.sectorSize) + [v.sectorsPerCluster] + Le16(v.reserved) + [v.fats] + Le16(v.rootEntries);
    assert image[19..24] == Le16(if v.short then v.total else 0) + [f.media] + Le16(v.fatSize);
    var b := image[..512];
    assert b == image[..11] + image[11..19] + image[19..24] + image[24..32] + image[32..36] + image[36..510] + [0x55, 0xaa];
    assert image == b + image[512..];
  }

  /** No other boot sector is accepted. */
  lemma Unsigned(image: seq<u8>)
    requires |image| >= 512 && U16At(image, 11) > 0 && image[13] > 0 && !(image[510] == 0x55 && image[511] == 0xaa)
    ensures VerifyInitrd(image) == None
  {
    Signed(image);
  }

  /** Each area of such an image is found where its file system says. */
  lemma AreasThere(v: Volume, f: Filling, a: Areas, n: nat)
    requires IsVolume(v) && IsFilling(f)
    ensures var image, fs := Image(v, f, a), Places(v, a, n);
      && fs.fat <= fs.rootDir <= fs.data <= |image|
      && image[fs.fat..fs.rootDir] == a.fats && image[fs.rootDir..fs.data] == a.root && image[fs.data..] == a.data
  {
    hide BootSector;
  }

  /** With a 16-bit sector count, the 32-bit one does not matter. */
  lemma WideUnused(image: seq<u8>, other: seq<u8>)
    requires |image| == |other| && |image| >= 512 && U16At(image, 11) > 0 && image[13] > 0 && U16At(image, 19) != 0
    requires forall i :: 0 <= i < |image| && !(32 <= i < 36) ==> image[i] == other[i]
    ensures VerifyInitrd(image) == VerifyInitrd(other)
  {
    hide Span, Product, RoundUp, U16At;
    forall at | 0 <= at <= 510 && (at + 2 <= 32 || at >= 36) ensures U16At(image, at) == U16At(other, at) {
      FieldSame(image, other, at);
    }
    assert image[13] == other[13] && image[16] == other[16];
  }

  lemma FieldSame(image: seq<u8>, other: seq<u8>, at: nat)
    requires at + 2 <= |image| == |other| && image[at] == other[at] && image[at + 1] == other[at + 1]
    ensures U16At(image, at) == U16At(other, at)
  {
  }
}
