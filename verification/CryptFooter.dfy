/** The crypto footer at the end of an encrypted partition (vold/cryptfs.c, cryptfs.h):
    a 104-byte structure, the wrapped master key, 32 bytes of padding, the salt.
    Disks are byte strings; `PutWrites` lists the disk after each write(2) of
    put_crypt_ftr_and_key, so that every crash point is visible. */
module CryptFooter {
  import opened Bytes

  const SECTOR: nat := 512
  const FOOTER_OFFSET: nat := 0x4000
  const FTR_SIZE: nat := 104
  const KEY_LEN: nat := 16
  const SALT_LEN: nat := 16
  const KEY_TO_SALT_PADDING: nat := 32

  /** From the key to the salt, and from the structure to the salt. */
  const KEY_TO_SALT: nat := KEY_LEN + KEY_TO_SALT_PADDING
  const SALT_AT: nat := FTR_SIZE + KEY_TO_SALT
  const MAGIC: nat := 0xD0B5B1C4

  /** struct crypt_mnt_ftr; `padding` is the alignment tail of the structure. */
  datatype Footer = Footer(
    magic: nat, major: nat, minor: nat, ftrSize: nat, flags: nat, keysize: nat,
    spare: nat, fsSize: nat, failedCount: nat, typeName: seq<Byte>, padding: seq<Byte>)
  {
    /** Every field fits its C type. */
    predicate Fits() {
      magic < U32 && major < 0x1_0000 && minor < 0x1_0000 && ftrSize < U32 && flags < U32
      && keysize < U32 && spare < U32 && fsSize < U64 && failedCount < U32
      && |typeName| == 64 && |padding| == 4
    }

    /** CRYPT_MNT_KEY_UNENCRYPTED, bit 0x1. */
    predicate KeyUnencrypted() { flags % 2 == 1 }

    /** CRYPT_ENCRYPTION_IN_PROGRESS, bit 0x2. */
    predicate InProgress() { (flags / 2) % 2 == 1 }

    /** The checks get_crypt_ftr_and_key makes before it reads the key. */
    predicate Recognised() {
      magic == MAGIC && major == 1 && keysize == KEY_LEN
    }
  }

  function Encode(f: Footer): (r: seq<Byte>)
    requires f.Fits()
    ensures |r| == FTR_SIZE
  {
    (Le(f.magic, 4) + Le(f.major, 2) + Le(f.minor, 2) + [])
    + (Le(f.ftrSize, 4) + Le(f.flags, 4) + Le(f.keysize, 4) + Le(f.spare, 4))
    + (Le(f.fsSize, 8) + Le(f.failedCount, 4) + f.typeName + f.padding)
    + []
  }

  function Decode(b: seq<Byte>): (f: Footer)
    requires |b| == FTR_SIZE
  {
    Footer(UnLe(b[0..4]), UnLe(b[4..6]), UnLe(b[6..8]), UnLe(b[8..12]), UnLe(b[12..16]),
           UnLe(b[16..20]), UnLe(b[20..24]), UnLe(b[24..32]), UnLe(b[32..36]),
           b[36..100], b[100..104])
  }

  lemma Slices(a: seq<Byte>, b: seq<Byte>, c: seq<Byte>, d: seq<Byte>)
    ensures var t := a + b + c + d;
            var i, j, k := |a|, |a| + |b|, |a| + |b| + |c|;
            t[0..i] == a && t[i..j] == b && t[j..k] == c && t[k..k + |d|] == d
  {
  }

  lemma SubSlice(t: seq<Byte>, lo: nat, hi: nat, i: nat, j: nat)
    requires lo <= hi <= |t| && i <= j <= hi - lo
    ensures t[lo..hi][i..j] == t[lo + i..lo + j]
  {
    assert forall k :: 0 <= k < j - i ==> t[lo..hi][i..j][k] == t[lo + i..lo + j][k];
  }

  /** Where each field of the structure lies. */
  lemma FieldOffsets(f: Footer)
    requires f.Fits()
    ensures var b := Encode(f);
      && |b| == 104 && b[0..4] == Le(f.magic, 4) && b[4..6] == Le(f.major, 2) && b[6..8] == Le(f.minor, 2)
      && b[8..12] == Le(f.ftrSize, 4) && b[12..16] == Le(f.flags, 4) && b[16..20] == Le(f.keysize, 4)
      && b[20..24] == Le(f.spare, 4) && b[24..32] == Le(f.fsSize, 8) && b[32..36] == Le(f.failedCount, 4)
      && b[36..100] == f.typeName && b[100..104] == f.padding
  {
    hide Le;
    var h := Le(f.magic, 4) + Le(f.major, 2) + Le(f.minor, 2) + [];
    var m := Le(f.ftrSize, 4) + Le(f.flags, 4) + Le(f.keysize, 4) + Le(f.spare, 4);
    var t := Le(f.fsSize, 8) + Le(f.failedCount, 4) + f.typeName + f.padding;
    var b := Encode(f);
    Slices(h, m, t, []);
    assert b[0..8] == h && b[8..24] == m && b[24..104] == t;
    Slices(Le(f.magic, 4), Le(f.major, 2), Le(f.minor, 2), []);
    SubSlice(b, 0, 8, 0, 4); SubSlice(b, 0, 8, 4, 6); SubSlice(b, 0, 8, 6, 8);
    Slices(Le(f.ftrSize, 4), Le(f.flags, 4), Le(f.keysize, 4), Le(f.spare, 4));
    SubSlice(b, 8, 24, 0, 4); SubSlice(b, 8, 24, 4, 8); SubSlice(b, 8, 24, 8, 12); SubSlice(b, 8, 24, 12, 16);
    Slices(Le(f.fsSize, 8), Le(f.failedCount, 4), f.typeName, f.padding);
    SubSlice(b, 24, 104, 0, 8); SubSlice(b, 24, 104, 8, 12); SubSlice(b, 24, 104, 12, 76); SubSlice(b, 24, 104, 76, 80);
  }

  lemma DecodeFits(b: seq<Byte>)
    requires |b| == FTR_SIZE
    ensures Decode(b).Fits()
  {
    Pow256Values();
    UnLeBound(b[0..4]); UnLeBound(b[4..6]); UnLeBound(b[6..8]); UnLeBound(b[8..12]);
    UnLeBound(b[12..16]); UnLeBound(b[16..20]); UnLeBound(b[20..24]); UnLeBound(b[24..32]);
    UnLeBound(b[32..36]);
  }

  /** The structure read back from its own bytes. */
  lemma FooterRoundTrip(f: Footer)
    requires f.Fits()
    ensures Decode(Encode(f)) == f
  {
    hide Le, UnLe, Encode;
    FieldOffsets(f);
    Pow256Values();
    LeRoundTrip(f.magic, 4); LeRoundTrip(f.major, 2); LeRoundTrip(f.minor, 2);
    LeRoundTrip(f.ftrSize, 4); LeRoundTrip(f.flags, 4); LeRoundTrip(f.keysize, 4); LeRoundTrip(f.spare, 4);
    LeRoundTrip(f.fsSize, 8); LeRoundTrip(f.failedCount, 4);
  }

  // ---------------------------------------------------------------- put and get

  /** Where the footer structure starts; meaningful on disks of at least 0x4000 bytes. */
  function FooterAt(d: seq<Byte>): int { |d| - FOOTER_OFFSET }

  function PutFooter(d: seq<Byte>, f: Footer): (r: seq<Byte>)
    requires |d| >= FOOTER_OFFSET && f.Fits()
    ensures |r| == |d|
  {
    WriteAt(d, FooterAt(d), Encode(f))
  }

  function PutKey(d: seq<Byte>, key: seq<Byte>): (r: seq<Byte>)
    requires |d| >= FOOTER_OFFSET && |key| == KEY_LEN
    ensures |r| == |d|
  {
    WriteAt(d, FooterAt(d) + FTR_SIZE, key)
  }

  function PutSalt(d: seq<Byte>, salt: seq<Byte>): (r: seq<Byte>)
    requires |d| >= FOOTER_OFFSET && |salt| == SALT_LEN
    ensures |r| == |d|
  {
    WriteAt(d, FooterAt(d) + FTR_SIZE + KEY_TO_SALT, salt)
  }

  /** The key and salt passed to put: both or neither, as every caller does. */
  datatype Secret = Secret(key: seq<Byte>, salt: seq<Byte>)
  {
    predicate Fits() { |key| == KEY_LEN && |salt| == SALT_LEN }
  }

  /** The disk after each write(2) of a put whose writes all succeed. */
  function PutWrites(d: seq<Byte>, f: Footer, secret: Option<Secret>): (r: seq<seq<Byte>>)
    requires |d| >= FOOTER_OFFSET && f.Fits() && (secret.Some? ==> secret.value.Fits())
  {
    var d1 := PutFooter(d, f);
    if secret.None? || f.keysize != KEY_LEN then [d1]
    else
      var d2 := PutKey(d1, secret.value.key);
      [d1, d2, PutSalt(d2, secret.value.salt)]
  }

  function Put(d: seq<Byte>, f: Footer, secret: Option<Secret>): (r: seq<Byte>)
    requires |d| >= FOOTER_OFFSET && f.Fits() && (secret.Some? ==> secret.value.Fits())
  {
    var w := PutWrites(d, f, secret);
    w[|w| - 1]
  }

  datatype GetResult = GetError | Got(ftr: Footer, secret: Secret)

  /** Where get looks for the key: past the size the footer states, if that is larger. */
  function KeyAt(d: seq<Byte>, f: Footer): int {
    FooterAt(d) + if f.ftrSize > FTR_SIZE then f.ftrSize else FTR_SIZE
  }

  /** get_crypt_ftr_and_key with the key in the footer. A read that would run past the
      end of the device is short, hence an error. */
  function Get(d: seq<Byte>): (r: GetResult)
    ensures r.Got? ==> |d| >= FOOTER_OFFSET && r.ftr.Recognised() && r.ftr.Fits() && r.secret.Fits()
  {
    if |d| < FOOTER_OFFSET then GetError
    else
      var f := Decode(d[FooterAt(d)..FooterAt(d) + FTR_SIZE]);
      DecodeFits(d[FooterAt(d)..FooterAt(d) + FTR_SIZE]);
      var k := KeyAt(d, f);
      if !f.Recognised() || k + KEY_TO_SALT + SALT_LEN > |d| then GetError
      else
        var s := k + KEY_TO_SALT;
        Got(f, Secret(d[k..k + KEY_LEN], d[s..s + SALT_LEN]))
  }

  /** Put then get returns the same footer, key and salt. */
  lemma PutGet(d: seq<Byte>, f: Footer, s: Secret)
    requires |d| >= FOOTER_OFFSET && f.Fits() && s.Fits()
    requires f.Recognised() && f.ftrSize <= FTR_SIZE
    ensures Get(Put(d, f, Some(s))) == Got(f, s)
  {
    hide Encode, Decode;
    var o := FooterAt(d);
    var d1 := PutFooter(d, f);
    var d2 := PutKey(d1, s.key);
    var d3 := PutSalt(d2, s.salt);
    assert Put(d, f, Some(s)) == d3;
    ReadBack(d, o, Encode(f));
    ReadElsewhere(d1, o + FTR_SIZE, s.key, o, o + FTR_SIZE);
    ReadElsewhere(d2, o + SALT_AT, s.salt, o, o + FTR_SIZE);
    FooterRoundTrip(f);
    assert Decode(d3[o..o + FTR_SIZE]) == f;
    ReadBack(d1, o + FTR_SIZE, s.key);
    ReadElsewhere(d2, o + SALT_AT, s.salt, o + FTR_SIZE, o + FTR_SIZE + KEY_LEN);
    ReadBack(d2, o + SALT_AT, s.salt);
  }

  /** A footer-only put changes the structure and nothing else: what get returns
      afterwards is the new structure with the old key and salt. */
  lemma PutFooterOnlyKeepsSecret(d: seq<Byte>, f: Footer)
    requires f.Fits() && f.Recognised() && Get(d).Got?
    requires f.ftrSize == Get(d).ftr.ftrSize
    ensures Get(Put(d, f, None)) == Got(f, Get(d).secret)
  {
    hide Encode, Decode;
    var o := FooterAt(d);
    var d1 := PutFooter(d, f);
    ReadBack(d, o, Encode(f));
    FooterRoundTrip(f);
    var k := KeyAt(d, f);
    ReadElsewhere(d, o, Encode(f), k, k + KEY_LEN);
    ReadElsewhere(d, o, Encode(f), k + KEY_TO_SALT, k + KEY_TO_SALT + SALT_LEN);
  }

  /** Any number of footer-only puts. */
  function PutAll(d: seq<Byte>, fs: seq<Footer>): (r: seq<Byte>)
    requires |d| >= FOOTER_OFFSET && forall f :: f in fs ==> f.Fits()
    ensures |r| == |d|
    decreases |fs|
  {
    if fs == [] then d else PutAll(PutFooter(d, fs[0]), fs[1..])
  }

  lemma {:induction false} FooterPutsKeepSecret(d: seq<Byte>, fs: seq<Footer>)
    requires Get(d).Got?
    requires forall f :: f in fs ==> f.Fits() && f.Recognised() && f.ftrSize == Get(d).ftr.ftrSize
    ensures Get(PutAll(d, fs)).Got?
    ensures Get(PutAll(d, fs)).secret == Get(d).secret
    ensures fs != [] ==> Get(PutAll(d, fs)).ftr == fs[|fs| - 1]
    decreases |fs|
  {
    hide Get, PutFooter;
    if fs != [] {
      PutFooterOnlyKeepsSecret(d, fs[0]);
      FooterPutsKeepSecret(PutFooter(d, fs[0]), fs[1..]);
    }
  }

  /** A put writes inside the last 0x4000 bytes only: the filesystem in front of the
      footer is left alone. */
  lemma PutOutsideFilesystem(d: seq<Byte>, f: Footer, secret: Option<Secret>)
    requires |d| >= FOOTER_OFFSET && f.Fits() && (secret.Some? ==> secret.value.Fits())
    ensures forall w :: w in PutWrites(d, f, secret) ==>
      |w| == |d| && w[..FooterAt(d)] == d[..FooterAt(d)]
  {
    hide Encode, Decode;
    var d1 := PutFooter(d, f);
    assert d1[..FooterAt(d)] == d[..FooterAt(d)];
    if secret.Some? && f.keysize == KEY_LEN {
      var d2 := PutKey(d1, secret.value.key);
      assert d2[..FooterAt(d)] == d[..FooterAt(d)];
      var d3 := PutSalt(d2, secret.value.salt);
      assert d3[..FooterAt(d)] == d[..FooterAt(d)];
    }
  }

  /** Get answers with whatever recognised structure sits at the footer offset. */
  lemma GetShows(d: seq<Byte>, f: Footer)
    requires |d| >= FOOTER_OFFSET && f.Fits() && f.Recognised() && f.ftrSize <= FTR_SIZE
    requires d[FooterAt(d)..FooterAt(d) + FTR_SIZE] == Encode(f)
    ensures Get(d).Got? && Get(d).ftr == f
  {
    hide Encode, Decode;
    FooterRoundTrip(f);
  }

  /** From the first write on, the footer structure on disk is the new one, so get
      answers with it even when key and salt are still to be written. */
  lemma PutWritesShowFooter(d: seq<Byte>, f: Footer, secret: Option<Secret>)
    requires |d| >= FOOTER_OFFSET && f.Fits() && (secret.Some? ==> secret.value.Fits())
    requires f.Recognised() && f.ftrSize <= FTR_SIZE
    ensures forall w :: w in PutWrites(d, f, secret) ==> Get(w).Got? && Get(w).ftr == f
  {
    hide Encode, Decode;
    var o := FooterAt(d);
    var d1 := PutFooter(d, f);
    ReadBack(d, o, Encode(f));
    GetShows(d1, f);
    if secret.Some? {
      var d2 := PutKey(d1, secret.value.key);
      ReadElsewhere(d1, o + FTR_SIZE, secret.value.key, o, o + FTR_SIZE);
      GetShows(d2, f);
      var d3 := PutSalt(d2, secret.value.salt);
      ReadElsewhere(d2, o + SALT_AT, secret.value.salt, o, o + FTR_SIZE);
      GetShows(d3, f);
      assert PutWrites(d, f, secret) == [d1, d2, d3];
    } else {
      assert PutWrites(d, f, secret) == [d1];
    }
  }

  // ------------------------------------------------- the size field, both directions

  /** What a put leaves at a position behind the start of the key. */
  lemma PutByte(d: seq<Byte>, f: Footer, s: Secret, p: nat)
    requires |d| >= FOOTER_OFFSET && f.Fits() && s.Fits() && f.keysize == KEY_LEN
    requires FooterAt(d) + FTR_SIZE <= p < |d|
    ensures |Put(d, f, Some(s))| == |d|
    ensures var at := p - FooterAt(d) - FTR_SIZE;
            Put(d, f, Some(s))[p] ==
              if at < KEY_LEN then s.key[at]
              else if KEY_TO_SALT <= at < KEY_TO_SALT + SALT_LEN then s.salt[at - KEY_TO_SALT]
              else d[p]
  {
    hide Encode, Decode;
  }

  lemma NotTheKeyAt(d: seq<Byte>, f: Footer, s: Secret)
    requires |d| >= FOOTER_OFFSET && s.Fits()
    requires KeyAt(d, f) < |d| ==> d[KeyAt(d, f)] != s.key[0]
    ensures Get(d) != Got(f, s)
  {
    hide Encode, Decode;
  }

  lemma SkippedByte(d: seq<Byte>, f: Footer, s: Secret)
    requires |d| >= FOOTER_OFFSET && f.Fits() && f.Recognised() && f.ftrSize > FTR_SIZE
    requires s.Fits() && s.key[0] !in s.key[1..] && s.key[0] !in s.salt
    requires KeyAt(d, f) < |d| && s.key[0] != d[KeyAt(d, f)]
    ensures |Put(d, f, Some(s))| == |d| && Put(d, f, Some(s))[KeyAt(d, f)] != s.key[0]
  {
    hide Encode, Decode;
    var p := KeyAt(d, f);
    PutByte(d, f, s, p);
    var at := p - FooterAt(d) - FTR_SIZE;
    assert 1 <= at < KEY_LEN ==> s.key[at] == s.key[1..][at - 1];
  }

  /** A put whose footer states a size above the structure's own is not undone by get:
      put writes the key right after the structure, get skips to the stated end. A key is
      lost when its first byte differs both from the rest and from what was on the disk. */
  lemma OversizeFooterLosesKey(d: seq<Byte>, f: Footer, s: Secret)
    requires |d| >= FOOTER_OFFSET && f.Fits() && f.Recognised() && f.ftrSize > FTR_SIZE
    requires s.Fits() && s.key[0] !in s.key[1..] && s.key[0] !in s.salt
    requires KeyAt(d, f) < |d| ==> s.key[0] != d[KeyAt(d, f)]
    ensures Get(Put(d, f, Some(s))) != Got(f, s)
  {
    hide Encode, Decode;
    PutByte(d, f, s, FooterAt(d) + FTR_SIZE);
    if KeyAt(d, f) < |d| {
      SkippedByte(d, f, s);
    }
    NotTheKeyAt(Put(d, f, Some(s)), f, s);
  }

  /** There is always such a key. */
  lemma LosableKey(d: seq<Byte>, f: Footer) returns (s: Secret)
    requires |d| >= FOOTER_OFFSET && f.ftrSize > FTR_SIZE
    ensures s.Fits() && s.key[0] !in s.key[1..] && s.key[0] !in s.salt
    ensures KeyAt(d, f) < |d| ==> s.key[0] != d[KeyAt(d, f)]
  {
    var first: Byte := if KeyAt(d, f) < |d| && d[KeyAt(d, f)] == 0 then 2 else 0;
    var ones: seq<Byte> := [1, 1, 1, 1, 1, 1, 1, 1, 1, 1, 1, 1, 1, 1, 1];
    s := Secret([first] + ones, [1] + ones);
    assert s.key[1..] == ones;
  }

  /** Put then get is the identity for every key and salt exactly when the stated footer
      size does not exceed the structure. */
  lemma PutGetExactly(d: seq<Byte>, f: Footer)
    requires |d| >= FOOTER_OFFSET && f.Fits() && f.Recognised()
    ensures (forall s: Secret :: s.Fits() ==> Get(Put(d, f, Some(s))) == Got(f, s))
            <==> f.ftrSize <= FTR_SIZE
  {
    hide Get, Put;
    if f.ftrSize <= FTR_SIZE {
      forall s: Secret | s.Fits() ensures Get(Put(d, f, Some(s))) == Got(f, s) {
        PutGet(d, f, s);
      }
    } else {
      var s := LosableKey(d, f);
      OversizeFooterLosesKey(d, f, s);
    }
  }
}
