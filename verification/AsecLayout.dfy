/** The layout of an ASEC container (vold/VolumeManager.cpp, vold/Loop.cpp, vold/Asec.h): createAsec
    sizes an image file, maps its body and writes a superblock behind it; lookupInfo and mountAsec
    find the superblock again and map the same body. `unsigned` arithmetic wraps at 2^32. */
module AsecLayout {
  import opened Bytes

  type U = n: int | 0 <= n < U32      // unsigned int

  function Wrap(n: int): U { n % U32 }

  const MAGIC: U := 0xc0def00d
  const VER: Byte := 1

  // ------------------------------------------------------------------------------ sizing

  /** Room for two FATs, as createAsec computes it. */
  function FatSize(n: U): U { Wrap((Wrap(n * 4) / 512 + 1) * 2) }

  function Rounded(m: U): U { if m % 63 != 0 then Wrap(m + (63 - m % 63)) else m }

  /** numImgSectors. */
  function ImgSectors(n: U): U { Rounded(Wrap(n + FatSize(n) + 2)) }

  /** The headroom and the body without wrap-around: the least multiple of 63 with room for both. */
  function Headroom(n: nat): nat { (n * 4 / 512 + 1) * 2 + 2 }

  predicate IsBody(n: nat, img: nat) {
    img % 63 == 0 && n + Headroom(n) <= img < n + Headroom(n) + 63
  }

  lemma RoundedUp(m: U)
    requires m <= U32 - 4
    ensures Rounded(m) % 63 == 0 && m <= Rounded(m) < m + 63
  {
    assert U32 == 63 * 68174084 + 4;
  }

  /** The body is a multiple of 63 sectors with room for the request and the headroom, and no larger
      than that takes, exactly for requests below 2^30 sectors, where numSectors * 4 does not wrap. */
  lemma SizingExactly(n: U)
    ensures IsBody(n, ImgSectors(n)) <==> n < 0x4000_0000
  {
    var k, m := n * 4 / U32, Wrap(n + FatSize(n) + 2);
    SizeWrapped(n);
    if n < 0x4000_0000 {
      assert k == 0;
      RoundedUp(m);
    } else {
      assert k >= 1;
      RoundedBelow(m);
    }
  }

  /** What the sum before rounding is off by. */
  lemma SizeWrapped(n: U)
    ensures n + FatSize(n) + 2 == n + Headroom(n) - n * 4 / U32 * 0x100_0000
  {
    var k := n * 4 / U32;
    assert Wrap(n * 4) == n * 4 - k * U32;
    assert (n * 4 - k * U32) / 512 == n * 4 / 512 - k * 0x80_0000;
  }

  lemma RoundedBelow(m: U)
    ensures Rounded(m) < m + 63
  {
  }

  // ------------------------------------------------------------------------------ places

  /** The size createImageFile() gives the file, for a body of `img` sectors. */
  function FileSize(img: U): U { Wrap(Wrap(img + 1) * 512) }

  /** Where createAsec seeks to write the superblock. */
  function WriteOffset(img: U): U { Wrap(img * 512) }

  /** Where lookupInfo seeks to read it, on a device of `nr` sectors. */
  function ReadOffset(nr: U): U { Wrap(Wrap(nr - 1) * 512) }

  /** Both offsets are always the same, even if the sizes have wrapped. */
  lemma OffsetsAgree(img: U)
    ensures ReadOffset(FileSize(img) / 512) == WriteOffset(img)
  {
    var nr := FileSize(img) / 512;
    FileSectors(img);
    var q := (img + 1) / 0x80_0000;
    assert nr == img + 1 - q * 0x80_0000;
    assert Wrap(nr - 1) * 512 == img * 512 - q * U32 + (if nr == 0 then 512 * U32 else 0);
    WrapShift(img * 512, (if nr == 0 then 512 else 0) - q);
  }

  lemma FileSectors(img: U)
    ensures FileSize(img) == (img + 1) % 0x80_0000 * 512
  {
    var q := (img + 1) / 0x80_0000;
    assert (img + 1) * 512 == (img + 1) % 0x80_0000 * 512 + q * U32;
    WrapShift((img + 1) % 0x80_0000 * 512, q);
    if img + 1 == U32 { assert Wrap(img + 1) == 0; }
  }

  lemma WrapShift(n: int, k: int)
    ensures Wrap(n + k * U32) == Wrap(n)
  {
    var q := n / U32;
    assert n + k * U32 == (q + k) * U32 + n % U32;
    DivUnique(n + k * U32, q + k, n % U32);
  }

  lemma DivUnique(x: int, q: int, r: int)
    requires 0 <= r < U32 && x == q * U32 + r
    ensures x % U32 == r
  {
  }

  /** The superblock lies inside the file exactly when the file's size has not wrapped to nothing. */
  lemma SuperblockInFileExactly(img: U)
    ensures WriteOffset(img) + 9 <= FileSize(img) <==> (img + 1) % 0x80_0000 != 0
    ensures (img + 1) % 0x80_0000 != 0 ==> WriteOffset(img) + 512 == FileSize(img)
  {
    FileSectors(img);
    OffsetsAgree(img);
  }

  /** The mapping made at create and the one made at mount have the same length, and stop in front of
      the superblock, exactly when the file is below 2^32 bytes. */
  lemma MappingsAgreeExactly(img: U)
    requires (img + 1) % 0x80_0000 != 0
    ensures Wrap(FileSize(img) / 512 - 1) == img <==> img + 1 < 0x80_0000
    ensures img * 512 <= WriteOffset(img) <==> img + 1 < 0x80_0000
  {
    FileSectors(img);
    SuperblockInFileExactly(img);
  }

  /** A request just over 4 GB: the body is mapped with its full length at create, but the file and
      the mapping at mount have only what is left of it modulo 2^32 bytes. */
  lemma LargeRequestMapsShort()
    ensures var img := ImgSectors(0x80_0000);
      img == 8519742 && FileSize(img) / 512 - 1 == 131134 && WriteOffset(img) == 131134 * 512
  {
    assert FatSize(0x80_0000) == 131074;
    assert Rounded(8519684) == 8519742;
    FileSectors(8519742);
    SuperblockInFileExactly(8519742);
  }

  // -------------------------------------------------------------------------- superblock

  datatype Superblock = Superblock(magic: U, ver: Byte, cipher: Byte, chain: Byte, opts: Byte, mode: Byte)

  function EncodeSb(sb: Superblock): (r: seq<Byte>)
    ensures |r| == 9
  {
    Le(sb.magic, 4) + [sb.ver, sb.cipher, sb.chain, sb.opts, sb.mode]
  }

  function DecodeSb(b: seq<Byte>): Superblock
    requires |b| == 9
  {
    UnLeBound(b[..4]);
    Pow256Values();
    Superblock(UnLe(b[..4]), b[4], b[5], b[6], b[7], b[8])
  }

  lemma SuperblockRoundTrip(sb: Superblock)
    ensures DecodeSb(EncodeSb(sb)) == sb
  {
    Pow256Values();
    LeRoundTrip(sb.magic, 4);
    assert EncodeSb(sb)[..4] == Le(sb.magic, 4);
  }

  /** What createAsec writes. */
  function NewSb(ext4: bool, crypted: bool): Superblock {
    Superblock(MAGIC, VER, if crypted then 1 else 0, 0, if ext4 then 1 else 0, 0)
  }

  /** Its nine bytes on disk. */
  lemma NewSbBytes(ext4: bool, crypted: bool)
    ensures EncodeSb(NewSb(ext4, crypted)) ==
      [0x0d, 0xf0, 0xde, 0xc0, 1, if crypted then 1 else 0, 0, if ext4 then 1 else 0, 0]
  {
    assert Le(MAGIC, 4) == [0x0d] + Le(0xc0def0, 3) && Le(0xc0def0, 3) == [0xf0] + Le(0xc0de, 2);
    assert Le(0xc0de, 2) == [0xde] + Le(0xc0, 1) && Le(0xc0, 1) == [0xc0];
  }

  // ------------------------------------------------------------------------ whole image

  /** The image file after a successful createAsec, before a file system is made. */
  function Formatted(img: U, sb: Superblock): (d: seq<Byte>)
    requires WriteOffset(img) + 9 <= FileSize(img)
    ensures |d| == FileSize(img)
  {
    WriteAt(seq(FileSize(img), i => 0), WriteOffset(img), EncodeSb(sb))
  }

  /** lookupInfo: the superblock and the number of sectors of the device. */
  function Lookup(d: seq<Byte>): Option<(Superblock, U)> {
    var nr := Wrap(|d| / 512);
    var off := ReadOffset(nr);
    if off + 9 <= |d| then Some((DecodeSb(d[off..off + 9]), nr)) else None
  }

  datatype Write = Write(sector: nat, data: seq<Byte>)

  /** Writes that a mapping of `len` sectors lets through. */
  predicate Within(ws: seq<Write>, len: nat) {
    forall i :: 0 <= i < |ws| ==> ws[i].sector < len && |ws[i].data| == 512
  }

  function ApplyAll(d: seq<Byte>, ws: seq<Write>, len: nat): (r: seq<Byte>)
    requires len * 512 <= |d| && Within(ws, len)
    ensures |r| == |d|
    decreases |ws|
  {
    if ws == [] then d
    else WriteAt(ApplyAll(d, ws[..|ws| - 1], len), ws[|ws| - 1].sector * 512, ws[|ws| - 1].data)
  }

  lemma {:induction false} MappedWritesKeepTail(d: seq<Byte>, ws: seq<Write>, len: nat)
    requires len * 512 <= |d| && Within(ws, len)
    ensures ApplyAll(d, ws, len)[len * 512..] == d[len * 512..]
    decreases |ws|
  {
    if ws != [] { MappedWritesKeepTail(d, ws[..|ws| - 1], len); }
  }

  /** Whatever is written through the mapping, the superblock is found again and so is the length. */
  lemma SuperblockSurvives(img: U, sb: Superblock, ws: seq<Write>)
    requires img + 1 < 0x80_0000 && Within(ws, img)
    ensures WriteOffset(img) + 9 <= FileSize(img)
    ensures Lookup(ApplyAll(Formatted(img, sb), ws, img)) == Some((sb, img + 1))
  {
    hide Formatted, ApplyAll, DecodeSb, EncodeSb, WriteOffset, FileSize, Within;
    FormattedHolds(img, sb);
    var d := Formatted(img, sb);
    var r := ApplyAll(d, ws, img);
    MappedWritesKeepTail(d, ws, img);
    SliceOfTail(d, r, img * 512, 9);
    SuperblockRoundTrip(sb);
  }

  lemma FormattedHolds(img: U, sb: Superblock)
    requires img + 1 < 0x80_0000
    ensures WriteOffset(img) == img * 512 && FileSize(img) == (img + 1) * 512
    ensures Formatted(img, sb)[img * 512..img * 512 + 9] == EncodeSb(sb)
  {
    hide WriteAt, EncodeSb;
    ReadBack(seq(FileSize(img), i => 0), WriteOffset(img), EncodeSb(sb));
  }

  /** Without writes it is found even in a file whose size has wrapped, with the number of sectors the file has. */
  lemma FreshLookup(img: U, sb: Superblock)
    requires (img + 1) % 0x80_0000 != 0
    ensures WriteOffset(img) + 9 <= FileSize(img) && FileSize(img) % 512 == 0
    ensures Lookup(Formatted(img, sb)) == Some((sb, FileSize(img) / 512))
  {
    hide WriteAt, EncodeSb, DecodeSb;
    SuperblockInFileExactly(img);
    OffsetsAgree(img);
    FileSectors(img);
    ReadBack(seq(FileSize(img), i => 0), WriteOffset(img), EncodeSb(sb));
    SuperblockRoundTrip(sb);
  }

  /** The image once it has been written to, if it can be. */
  function Used(img: U, sb: Superblock, ws: seq<Write>): (d: seq<Byte>)
    requires (img + 1) % 0x80_0000 != 0 && Within(ws, img)
  {
    SuperblockInFileExactly(img);
    FileSectors(img);
    if img + 1 < 0x80_0000 then ApplyAll(Formatted(img, sb), ws, img) else Formatted(img, sb)
  }

  lemma UsedStep(img: U, sb: Superblock, ws: seq<Write>)
    requires (img + 1) % 0x80_0000 != 0 && Within(ws, img)
    ensures WriteOffset(img) + 9 <= FileSize(img)
    ensures img + 1 < 0x80_0000 ==>
      img * 512 <= |Formatted(img, sb)| && Used(img, sb, ws) == ApplyAll(Formatted(img, sb), ws, img)
    ensures img + 1 >= 0x80_0000 ==> Used(img, sb, ws) == Formatted(img, sb)
  {
    SuperblockInFileExactly(img);
    FileSectors(img);
    hide Formatted, ApplyAll, WriteOffset, FileSize;
  }

  /** What a mount finds in it. */
  lemma UsedLookup(img: U, sb: Superblock, ws: seq<Write>)
    requires (img + 1) % 0x80_0000 != 0 && Within(ws, img)
    ensures var d := Used(img, sb, ws);
      && |d| == FileSize(img) && |d| % 512 == 0 && ReadOffset(|d| / 512) == WriteOffset(img)
      && Lookup(d) == Some((sb, FileSize(img) / 512))
      && (Wrap(FileSize(img) / 512 - 1) == img <==> img + 1 < 0x80_0000)
  {
    FreshLookup(img, sb);
    OffsetsAgree(img);
    MappingsAgreeExactly(img);
    FileSectors(img);
    hide Formatted, ApplyAll, Lookup, WriteOffset, ReadOffset, Within;
    if img + 1 < 0x80_0000 { SuperblockSurvives(img, sb, ws); }
  }

  lemma SliceOfTail(d: seq<Byte>, r: seq<Byte>, off: nat, n: nat)
    requires |d| == |r| && off + n <= |d| && r[off..] == d[off..]
    ensures r[off..off + n] == d[off..off + n]
  {
    assert r[off..off + n] == r[off..][..n];
    assert d[off..off + n] == d[off..][..n];
  }

  // ------------------------------------------------------------------------------- vold

  datatype FsType = NoFs | Fat | Ext4 | Unknown

  /** Which of the calls into the kernel succeed. */
  datatype Calls = Calls(hash: bool, loop: bool, dm: bool, open: bool)

  datatype Outcome = Failed | Mapped(sectors: U)

  class Container {
    var image: Option<seq<Byte>>     // the .asec file
    const wide: bool                 // off_t is wider than 32 bits

    constructor (wide: bool)
      ensures image == None && this.wide == wide
    {
      this.wide, image := wide, None;
    }

    /** An unsigned offset is taken by ftruncate() and lseek() unless it becomes a negative off_t. */
    predicate SeekOk(off: U) { wide || off < 0x8000_0000 }

    /** So a narrow off_t takes the 2^31 offsets that it holds without a sign, and a wide one every offset. */
    lemma SeekSigned(off: U)
      ensures SeekOk(off) <==> wide || (if off / 0x8000_0000 % 2 == 1 then off - U32 else off) >= 0
    {
    }

    /** Loop::createImageFile. */
    method CreateImageFile(numSectors: U) returns (rc: int)
      modifies `image
      ensures rc == if SeekOk(Wrap(numSectors * 512)) then 0 else -1
      ensures image == Some(if rc == 0 then seq(Wrap(numSectors * 512), i => 0) else [])
    {
      image := Some([]);
      if !SeekOk(Wrap(numSectors * 512)) { return -1; }
      image := Some(seq(Wrap(numSectors * 512), i => 0));
      rc := 0;
    }

    /** Whether createAsec can go through. */
    predicate Creatable(n: U, fs: FsType, crypted: bool, calls: Calls) {
      var img := ImgSectors(n);
      && fs != Unknown && 2048 <= n && calls.hash && calls.loop && (crypted ==> calls.dm) && calls.open
      && SeekOk(FileSize(img)) && SeekOk(WriteOffset(img)) && (img + 1) % 0x80_0000 != 0
    }

    /** createAsec up to the superblock write. A container that exists is left alone; every failure after
        the file was truncated to its size unlinks it again. */
    method CreateAsec(n: U, fs: FsType, crypted: bool, calls: Calls) returns (r: Outcome)
      modifies `image
      ensures r == if old(image) == None && Creatable(n, fs, crypted, calls) then Mapped(ImgSectors(n)) else Failed
      ensures r.Mapped? ==>
        && WriteOffset(ImgSectors(n)) + 9 <= FileSize(ImgSectors(n))
        && image == Some(Formatted(ImgSectors(n), NewSb(fs == Ext4, crypted)))
      ensures r.Failed? ==> image == old(image) || (!SeekOk(FileSize(ImgSectors(n))) && image == Some([]))
    {
      hide ImgSectors, WriteOffset, EncodeSb;
      r := Failed;
      if fs == Unknown || n < 2048 || image != None { return; }
      var img: int := ImgSectors(n);
      SuperblockInFileExactly(img);
      var rc := CreateImageFile(Wrap(img + 1));
      if rc != 0 { return; }
      if !calls.hash || !calls.loop || (crypted && !calls.dm) || !calls.open {
        image := None;
        return;
      }
      var off := WriteOffset(img);
      if !SeekOk(off) || off + 9 > |image.value| {
        image := None;
        return;
      }
      image := Some(WriteAt(image.value, off, EncodeSb(NewSb(fs == Ext4, crypted))));
      r := Mapped(img);
    }

    /** Loop::lookupInfo on the loop device of the image. */
    method LookupInfo() returns (info: Option<(Superblock, U)>)
      requires image.Some? && |image.value| < U32 && |image.value| % 512 == 0
      ensures info == if SeekOk(ReadOffset(|image.value| / 512)) then Lookup(image.value) else None
    {
      hide ReadOffset, DecodeSb, SeekOk;
      var nr := |image.value| / 512;
      assert Wrap(nr) == nr;
      var off := ReadOffset(nr);
      if !SeekOk(off) || off + 9 > |image.value| { return None; }
      info := Some((DecodeSb(image.value[off..off + 9]), nr));
    }

    /** mountAsec up to the mapping: a wrong magic or version is refused, otherwise everything in front
        of the superblock is mapped. */
    method MountAsec(crypted: bool, calls: Calls) returns (r: Outcome)
      requires image.Some? && |image.value| < U32 && |image.value| % 512 == 0
      ensures var info := Lookup(image.value);
        r == if calls.hash && calls.loop && (crypted ==> calls.dm) && SeekOk(ReadOffset(|image.value| / 512))
                && info.Some? && info.value.0.magic == MAGIC && info.value.0.ver == VER
             then Mapped(Wrap(info.value.1 - 1)) else Failed
    {
      r := Failed;
      if !calls.hash || !calls.loop { return; }
      var info := LookupInfo();
      if info == None { return; }
      var (sb, nr) := info.value;
      if sb.magic != MAGIC || sb.ver != VER { return; }
      if crypted && !calls.dm { return; }
      r := Mapped(Wrap(nr - 1));
    }

    /** A container created, written to through its mapping in any way, and mounted again: the same body is mapped,
        exactly when the file is below 2^32 bytes. A longer one is mounted as it was created. */
    method CreateUseMount(n: U, fs: FsType, crypted: bool, calls: Calls, ws: seq<Write>, later: Calls)
      returns (made: Outcome, r: Outcome)
      requires image == None && Within(ws, ImgSectors(n)) && (ImgSectors(n) + 1 < 0x80_0000 || ws == [])
      modifies `image
      ensures made == if Creatable(n, fs, crypted, calls) then Mapped(ImgSectors(n)) else Failed
      ensures made.Mapped? && later.hash && later.loop && (crypted ==> later.dm) ==>
        r.Mapped? && (r.sectors == ImgSectors(n) <==> ImgSectors(n) + 1 < 0x80_0000)
    {
      hide *;
      r := Failed;
      made := CreateAsec(n, fs, crypted, calls);
      if made == Failed { return; }
      ghost var img, sb := ImgSectors(n), NewSb(fs == Ext4, crypted);
      CreatedWell(n, fs, crypted, calls);
      UsedStep(img, sb, ws);
      if ImgSectors(n) + 1 < 0x80_0000 {
        image := Some(ApplyAll(image.value, ws, ImgSectors(n)));
      }
      UsedLookup(img, sb, ws);
      r := MountAsec(crypted, later);
    }

    lemma CreatedWell(n: U, fs: FsType, crypted: bool, calls: Calls)
      requires Creatable(n, fs, crypted, calls)
      ensures (ImgSectors(n) + 1) % 0x80_0000 != 0 && SeekOk(WriteOffset(ImgSectors(n)))
      ensures var sb := NewSb(fs == Ext4, crypted); sb.magic == MAGIC && sb.ver == VER
    {
    }
  }
}
