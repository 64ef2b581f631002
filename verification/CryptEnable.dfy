/** cryptfs_enable for "inplace" with the key in the footer (vold/cryptfs.c): what the
    disk looks like at every point at which the run could be cut off. */
module CryptEnable {
  import opened Bytes
  import opened CryptFooter
  import opened CryptInplace

  const IN_PROGRESS: nat := 2

  /** do_crypto_complete: 1 not encrypted, -1 no footer, -2 encryption was cut short, 0 complete. */
  function CryptoComplete(d: seq<Byte>, encryptedState: bool): int {
    if !encryptedState then 1
    else match Get(d)
      case GetError => -1
      case Got(f, _) => if f.InProgress() then -2 else 0
  }

  /** What each of its answers tells of the system and of the footer on disk. */
  lemma CompleteTells(d: seq<Byte>, encryptedState: bool)
    ensures var rc := CryptoComplete(d, encryptedState);
      && (rc == 1 <==> !encryptedState)
      && (rc == -1 <==> encryptedState && Get(d).GetError?)
      && (rc == -2 <==> encryptedState && Get(d).Got? && Get(d).ftr.flags / 2 % 2 == 1)
      && (rc == 0 <==> encryptedState && Get(d).Got? && Get(d).ftr.flags / 2 % 2 == 0)
  {
    hide Get;
  }

  /** cryptfs_init_crypt_mnt_ftr plus the fields cryptfs_enable sets. */
  function NewFooter(fsSize: nat, flags: nat, typeName: seq<Byte>): (f: Footer)
    requires fsSize < U64 && flags < 4 && |typeName| == 64
    ensures f.Fits() && f.Recognised() && f.ftrSize == FTR_SIZE
  {
    Footer(MAGIC, 1, 0, FTR_SIZE, flags, KEY_LEN, 0, fsSize, 0, typeName, [0, 0, 0, 0])
  }

  // ------------------------------------------------------------ predicates on a disk

  /** Of the `fs` filesystem sectors of `orig`, exactly the first `n` are enciphered in `d`. */
  ghost predicate FsPrefix(c: Crypto, key: Key, orig: seq<Byte>, d: seq<Byte>, n: nat, fs: nat) {
    && n <= fs && |d| == |orig| && 512 * fs <= |d|
    && (forall i :: 0 <= i < n ==> Sector(d, i) == c.enc(key, i, Sector(orig, i)))
    && d[512 * n..512 * fs] == orig[512 * n..512 * fs]
  }

  /** The footer on the disk states this many sectors, these flags and no failed attempt. */
  ghost predicate Says(d: seq<Byte>, fs: nat, flags: nat) {
    && Get(d).Got? && Get(d).ftr.fsSize == fs && Get(d).ftr.flags == flags && Get(d).ftr.failedCount == 0
  }

  /** The password opens the disk: the footer states all `fs` sectors of the filesystem, and its key
      unwraps to one under which every sector it states reads, through the mapping, as the original
      plaintext. */
  ghost predicate Opens(c: Crypto, passwd: string, orig: seq<Byte>, d: seq<Byte>, fs: nat) {
    && Says(d, fs, 0) && |d| == |orig| && 512 * Get(d).ftr.fsSize <= |d|
    && var s := Get(d).secret;
       var key := c.unwrap(passwd, s.salt, s.key);
       forall i :: 0 <= i < Get(d).ftr.fsSize ==> c.dec(key, i, Sector(d, i)) == Sector(orig, i)
  }

  /** What every crash point after the first footer write guarantees: some prefix of the
      filesystem is enciphered, the footer states its size and the in-progress flag, and the next
      boot reports -2, unless all of it is enciphered, the flag is clear and the password opens it. */
  ghost predicate CrashSafe(c: Crypto, key: Key, passwd: string, orig: seq<Byte>, d: seq<Byte>, fs: nat) {
    exists n: nat :: FsPrefix(c, key, orig, d, n, fs)
      && ((CryptoComplete(d, true) == -2 && Says(d, fs, 2))
          || (CryptoComplete(d, true) == 0 && n == fs && Opens(c, passwd, orig, d, fs)))
  }

  ghost predicate AllCrashSafe(
    c: Crypto, key: Key, passwd: string, orig: seq<Byte>, trace: seq<seq<Byte>>, fs: nat)
  {
    forall w :: w in trace ==> CrashSafe(c, key, passwd, orig, w, fs)
  }

  // ------------------------------------------------------------------------- lemmas

  /** Get looks at nothing in front of the footer. */
  lemma GetDependsOnTail(d: seq<Byte>, w: seq<Byte>)
    requires |d| == |w| >= FOOTER_OFFSET && d[FooterAt(d)..] == w[FooterAt(d)..]
    ensures Get(d) == Get(w)
  {
    var o := FooterAt(d);
    hide Decode;
    SameTail(d, w, o, o, o + FTR_SIZE);
    var f := Decode(d[o..o + FTR_SIZE]);
    DecodeFits(d[o..o + FTR_SIZE]);
    var k := KeyAt(d, f);
    if k + KEY_TO_SALT + SALT_LEN <= |d| {
      SameTail(d, w, o, k, k + KEY_LEN);
      SameTail(d, w, o, k + KEY_TO_SALT, k + KEY_TO_SALT + SALT_LEN);
    }
  }

  lemma SameTail(d: seq<Byte>, w: seq<Byte>, o: nat, lo: nat, hi: nat)
    requires |d| == |w| && o <= lo <= hi <= |d| && d[o..] == w[o..]
    ensures d[lo..hi] == w[lo..hi]
  {
    SubSlice(d, o, |d|, lo - o, hi - o);
    SubSlice(w, o, |d|, lo - o, hi - o);
  }

  /** A disk that agrees with `orig` in front of the footer, then enciphered up to `n`. */
  lemma StageIsFsPrefix(c: Crypto, key: Key, orig: seq<Byte>, d1: seq<Byte>, w: seq<Byte>, n: nat, fs: nat)
    requires |orig| == |d1| && 512 * fs <= |d1| && n <= fs
    requires orig[..512 * fs] == d1[..512 * fs]
    requires EncPrefix(c, key, d1, w, n)
    ensures FsPrefix(c, key, orig, w, n, fs)
  {
    forall i | 0 <= i < n ensures Sector(w, i) == c.enc(key, i, Sector(orig, i)) {
      SubSlice(orig, 0, 512 * fs, 512 * i, 512 * (i + 1));
      SubSlice(d1, 0, 512 * fs, 512 * i, 512 * (i + 1));
    }
    var a, b := 512 * n, 512 * fs;
    SubSlice(w, a, |w|, 0, b - a);
    SubSlice(d1, a, |w|, 0, b - a);
    SubSlice(orig, 0, b, a, b);
    SubSlice(d1, 0, b, a, b);
  }

  /** Enciphering in front of the footer keeps the footer. */
  lemma StageKeepsFooter(c: Crypto, key: Key, d1: seq<Byte>, w: seq<Byte>, n: nat)
    requires |d1| >= FOOTER_OFFSET && EncPrefix(c, key, d1, w, n) && 512 * n <= FooterAt(d1)
    ensures Get(w) == Get(d1)
  {
    var a, o := 512 * n, FooterAt(d1);
    SubSlice(d1, a, |d1|, o - a, |d1| - a);
    SubSlice(w, a, |d1|, o - a, |d1| - a);
    assert d1[o..] == d1[o..|d1|] && w[o..] == w[o..|d1|];
    assert d1[a..] == d1[a..|d1|] && w[a..] == w[a..|d1|];
    GetDependsOnTail(d1, w);
  }

  /** The first put: nothing enciphered yet, the flag is on disk from its first write. */
  lemma FirstPutCrashSafe(c: Crypto, key: Key, passwd: string, orig: seq<Byte>, f: Footer, s: Secret, fs: nat)
    requires |orig| >= FOOTER_OFFSET && f.Fits() && s.Fits() && f.Recognised() && f.ftrSize <= FTR_SIZE
    requires f.flags == IN_PROGRESS && f.fsSize == fs && f.failedCount == 0 && 512 * fs == FooterAt(orig)
    ensures AllCrashSafe(c, key, passwd, orig, PutWrites(orig, f, Some(s)), fs)
  {
    hide Get, Encode, PutFooter, PutKey, PutSalt, Opens;
    PutOutsideFilesystem(orig, f, Some(s));
    PutWritesShowFooter(orig, f, Some(s));
    forall w | w in PutWrites(orig, f, Some(s)) ensures CrashSafe(c, key, passwd, orig, w, fs) {
      assert FsPrefix(c, key, orig, w, 0, fs);
    }
  }

  /** The copy loops: the flag stays on disk. */
  lemma StagesCrashSafe(
    c: Crypto, key: Key, passwd: string, orig: seq<Byte>, d1: seq<Byte>, trace: seq<seq<Byte>>, fs: nat)
    requires |orig| == |d1| >= FOOTER_OFFSET && 512 * fs == FooterAt(d1)
    requires orig[..512 * fs] == d1[..512 * fs] && CryptoComplete(d1, true) == -2 && Says(d1, fs, 2)
    requires Stages(c, key, d1, trace, fs)
    ensures AllCrashSafe(c, key, passwd, orig, trace, fs)
  {
    forall w | w in trace ensures CrashSafe(c, key, passwd, orig, w, fs) {
      assert Stage(c, key, d1, w, fs);
      var n: nat :| n <= fs && EncPrefix(c, key, d1, w, n);
      StageIsFsPrefix(c, key, orig, d1, w, n, fs);
      StageKeepsFooter(c, key, d1, w, n);
    }
  }

  /** The last put clears the flag over a fully enciphered filesystem. */
  lemma LastPutCrashSafe(
    c: Crypto, key: Key, passwd: string, orig: seq<Byte>, d: seq<Byte>, f: Footer, s: Secret, fs: nat)
    requires c.Sound() && |d| >= FOOTER_OFFSET && 512 * fs == FooterAt(d)
    requires f.Fits() && f.Recognised() && f.ftrSize == FTR_SIZE
    requires f.flags == 0 && f.fsSize == fs && f.failedCount == 0
    requires FsPrefix(c, key, orig, d, fs, fs)
    requires Get(d).Got? && Get(d).ftr.ftrSize == FTR_SIZE && Get(d).secret == s
    requires c.unwrap(passwd, s.salt, s.key) == key
    ensures AllCrashSafe(c, key, passwd, orig, PutWrites(d, f, None), fs)
  {
    hide Get, Encode;
    var w := PutFooter(d, f);
    PutOutsideFilesystem(d, f, None);
    PutFooterOnlyKeepsSecret(d, f);
    forall i | 0 <= i < fs
      ensures Sector(w, i) == c.enc(key, i, Sector(orig, i))
    {
      SubSlice(w, 0, 512 * fs, 512 * i, 512 * (i + 1));
      SubSlice(d, 0, 512 * fs, 512 * i, 512 * (i + 1));
    }
    assert FsPrefix(c, key, orig, w, fs, fs);
    assert Opens(c, passwd, orig, w, fs);
    assert CryptoComplete(w, true) == 0;
  }

  lemma FirstPut(c: Crypto, key: Key, passwd: string, orig: seq<Byte>, f: Footer, s: Secret,
                 d1: seq<Byte>, t1: seq<seq<Byte>>, fs: nat, ok: bool)
    requires |orig| >= FOOTER_OFFSET && f.Fits() && s.Fits() && f.Recognised() && f.ftrSize <= FTR_SIZE
    requires f.flags == IN_PROGRESS && f.fsSize == fs && f.failedCount == 0 && 512 * fs == FooterAt(orig)
    requires t1 <= PutWrites(orig, f, Some(s)) && (ok ==> t1 == PutWrites(orig, f, Some(s)))
    requires d1 == LastOr(t1, orig)
    ensures |d1| == |orig| && d1[..512 * fs] == orig[..512 * fs]
    ensures ok ==> AllCrashSafe(c, key, passwd, orig, t1, fs) && Get(d1) == Got(f, s)
  {
    hide Get, CryptoComplete, PutFooter, PutKey, PutSalt;
    PutOutsideFilesystem(orig, f, Some(s));
    FirstPutCrashSafe(c, key, passwd, orig, f, s, fs);
    PutGet(orig, f, s);
    if t1 != [] {
      assert d1 in t1;
    }
  }

  lemma CopyPhase(c: Crypto, key: Key, passwd: string, orig: seq<Byte>, d1: seq<Byte>,
                  t2: seq<seq<Byte>>, d2: seq<Byte>, fs: nat)
    requires |orig| == |d1| >= FOOTER_OFFSET && 512 * fs == FooterAt(d1)
    requires orig[..512 * fs] == d1[..512 * fs] && Stages(c, key, d1, t2, fs)
    ensures CryptoComplete(d1, true) == -2 && Says(d1, fs, 2) ==> AllCrashSafe(c, key, passwd, orig, t2, fs)
    ensures forall w :: w in t2 ==> CryptoComplete(w, true) == CryptoComplete(d1, true)
    ensures EncPrefix(c, key, d1, d2, fs) ==> FsPrefix(c, key, orig, d2, fs, fs) && Get(d2) == Get(d1)
  {
    hide Get;
    if CryptoComplete(d1, true) == -2 && Says(d1, fs, 2) {
      StagesCrashSafe(c, key, passwd, orig, d1, t2, fs);
    }
    forall w | w in t2 ensures CryptoComplete(w, true) == CryptoComplete(d1, true) {
      assert Stage(c, key, d1, w, fs);
      var n: nat :| n <= fs && EncPrefix(c, key, d1, w, n);
      StageKeepsFooter(c, key, d1, w, n);
    }
    if EncPrefix(c, key, d1, d2, fs) {
      StageIsFsPrefix(c, key, orig, d1, d2, fs, fs);
      StageKeepsFooter(c, key, d1, d2, fs);
    }
  }

  lemma LastPut(c: Crypto, key: Key, passwd: string, orig: seq<Byte>, d2: seq<Byte>, f: Footer,
                t3: seq<seq<Byte>>, d3: seq<Byte>, fs: nat)
    requires c.Sound() && |d2| >= FOOTER_OFFSET && 512 * fs == FooterAt(d2)
    requires f.Fits() && f.Recognised() && f.ftrSize == FTR_SIZE
    requires f.flags == 0 && f.fsSize == fs && f.failedCount == 0
    requires FsPrefix(c, key, orig, d2, fs, fs)
    requires t3 <= PutWrites(d2, f, None) && d3 == LastOr(t3, d2)
    ensures Get(d2).Got? && Get(d2).ftr.ftrSize == FTR_SIZE
            && c.unwrap(passwd, Get(d2).secret.salt, Get(d2).secret.key) == key ==>
              AllCrashSafe(c, key, passwd, orig, t3, fs)
    ensures FsPrefix(c, key, orig, d3, fs, fs)
  {
    hide Get, Encode, CryptoComplete;
    if Get(d2).Got? && Get(d2).ftr.ftrSize == FTR_SIZE
       && c.unwrap(passwd, Get(d2).secret.salt, Get(d2).secret.key) == key {
      LastPutCrashSafe(c, key, passwd, orig, d2, f, Get(d2).secret, fs);
    }
    var w := PutFooter(d2, f);
    assert d3 == d2 || d3 == w;
    PutOutsideFilesystem(d2, f, None);
    assert w in PutWrites(d2, f, None);
    forall i | 0 <= i < fs ensures Sector(w, i) == Sector(d2, i) {
      SubSlice(w, 0, 512 * fs, 512 * i, 512 * (i + 1));
      SubSlice(d2, 0, 512 * fs, 512 * i, 512 * (i + 1));
    }
  }

  // --------------------------------------------------------------------- the programs

  /** Once the last put is through, a crash-safe disk is one the password opens. */
  lemma FlagCleared(c: Crypto, key: Key, passwd: string, orig: seq<Byte>, d2: seq<Byte>, f: Footer,
                    t3: seq<seq<Byte>>, d3: seq<Byte>, fs: nat)
    requires |d2| >= FOOTER_OFFSET && f.Fits() && f.Recognised() && f.ftrSize == FTR_SIZE && !f.InProgress()
    requires t3 == PutWrites(d2, f, None) && d3 == LastOr(t3, d2)
    ensures AllCrashSafe(c, key, passwd, orig, t3, fs) ==>
      CryptoComplete(d3, true) == 0 && Opens(c, passwd, orig, d3, fs)
  {
    hide Get, Encode, FsPrefix, Opens;
    PutWritesShowFooter(d2, f, None);
    assert d3 in t3;
  }

  // ------------------------------------------------------------------ where the key lies

  /** What lies on the disk where get looks for key and salt behind a structure of its own size. */
  function SecretAt(d: seq<Byte>): Secret
    requires |d| >= FOOTER_OFFSET
  {
    var at := FooterAt(d);
    Secret(d[at + FTR_SIZE..at + FTR_SIZE + KEY_LEN], d[at + SALT_AT..at + SALT_AT + SALT_LEN])
  }

  /** How many of the three writes of a put go through. */
  function PutsThrough(io: nat -> Io, from: nat): (n: nat)
    ensures n <= 3
  {
    if !io(from).Fine? then 0 else if !io(from + 1).Fine? then 1 else if !io(from + 2).Fine? then 2 else 3
  }

  /** A put cut short leaves, of key and salt, what it did not get to as it was. */
  lemma CutPutSecret(orig: seq<Byte>, f: Footer, s: Secret, t: seq<seq<Byte>>)
    requires |orig| >= FOOTER_OFFSET && f.Fits() && s.Fits() && f.keysize == KEY_LEN
    requires t <= PutWrites(orig, f, Some(s))
    ensures |LastOr(t, orig)| == |orig|
    ensures SecretAt(LastOr(t, orig)) ==
      Secret(if |t| >= 2 then s.key else SecretAt(orig).key, if |t| >= 3 then s.salt else SecretAt(orig).salt)
  {
    hide Encode;
    var at := FooterAt(orig);
    var d1 := PutFooter(orig, f);
    var d2 := PutKey(d1, s.key);
    var d3 := PutSalt(d2, s.salt);
    assert PutWrites(orig, f, Some(s)) == [d1, d2, d3];
    ReadElsewhere(orig, at, Encode(f), at + FTR_SIZE, at + FTR_SIZE + KEY_LEN);
    ReadElsewhere(orig, at, Encode(f), at + SALT_AT, at + SALT_AT + SALT_LEN);
    ReadBack(d1, at + FTR_SIZE, s.key);
    ReadElsewhere(d1, at + FTR_SIZE, s.key, at + SALT_AT, at + SALT_AT + SALT_LEN);
    ReadElsewhere(d2, at + SALT_AT, s.salt, at + FTR_SIZE, at + FTR_SIZE + KEY_LEN);
    ReadBack(d2, at + SALT_AT, s.salt);
  }

  lemma StageKeepsSecret(c: Crypto, key: Key, d1: seq<Byte>, w: seq<Byte>, n: nat)
    requires |d1| >= FOOTER_OFFSET && EncPrefix(c, key, d1, w, n) && 512 * n <= FooterAt(d1)
    ensures |w| == |d1| && SecretAt(w) == SecretAt(d1)
  {
    var at, k := FooterAt(d1), 512 * n;
    SubSlice(d1, k, |d1|, at + FTR_SIZE - k, at + FTR_SIZE + KEY_LEN - k);
    SubSlice(w, k, |w|, at + FTR_SIZE - k, at + FTR_SIZE + KEY_LEN - k);
    SubSlice(d1, k, |d1|, at + SALT_AT - k, at + SALT_AT + SALT_LEN - k);
    SubSlice(w, k, |w|, at + SALT_AT - k, at + SALT_AT + SALT_LEN - k);
  }

  /** After a put of the structure alone, get answers with it and with whatever lies behind it. */
  lemma StructureOverSecret(d: seq<Byte>, f: Footer)
    requires |d| >= FOOTER_OFFSET && f.Fits() && f.Recognised() && f.ftrSize == FTR_SIZE
    ensures Get(PutFooter(d, f)) == Got(f, SecretAt(d))
  {
    hide Encode, Decode;
    var at, w := FooterAt(d), PutFooter(d, f);
    ReadBack(d, at, Encode(f));
    FooterRoundTrip(f);
    ReadElsewhere(d, at, Encode(f), at + FTR_SIZE, at + FTR_SIZE + KEY_LEN);
    ReadElsewhere(d, at, Encode(f), at + SALT_AT, at + SALT_AT + SALT_LEN);
  }

  /** put_crypt_ftr_and_key: one write for the structure, then one for the key and one
      for the salt. Stops at the first failing write. */
  method PutCryptFtrAndKey(dev: Device, f: Footer, secret: Option<Secret>)
    returns (rc: int, ghost trace: seq<seq<Byte>>)
    requires dev.Valid() && f.Fits() && (secret.Some? ==> secret.value.Fits())
    modifies dev
    ensures dev.Valid() && |dev.bytes| == |old(dev.bytes)|
    ensures dev.history == old(dev.history) + trace
    ensures dev.bytes == LastOr(trace, old(dev.bytes))
    ensures |dev.bytes| < FOOTER_OFFSET ==> trace == []
    ensures |dev.bytes| >= FOOTER_OFFSET ==> trace <= PutWrites(old(dev.bytes), f, secret)
    ensures rc == 0 ==> |dev.bytes| >= FOOTER_OFFSET && trace == PutWrites(old(dev.bytes), f, secret)
    ensures rc == 0 <==> |dev.bytes| >= FOOTER_OFFSET && (secret.Some? ==> f.keysize == KEY_LEN)
                         && AllFine(dev, old(dev.ops), old(dev.ops) + if secret.Some? then 3 else 1)
    ensures rc == 0 || rc == -1
    ensures secret.None? && |dev.bytes| >= FOOTER_OFFSET ==> dev.ops == old(dev.ops) + 1
    ensures secret.Some? && f.keysize == KEY_LEN && |dev.bytes| >= FOOTER_OFFSET ==>
      var n := PutsThrough(dev.io, old(dev.ops));
      |trace| == n && dev.ops == old(dev.ops) + if n < 3 then n + 1 else 3
    ensures |dev.bytes| < FOOTER_OFFSET ==> dev.ops == old(dev.ops)
    ensures !dev.io(old(dev.ops)).Fine? ==> trace == []
  {
    hide PutFooter, PutKey, PutSalt;
    rc, trace := -1, [];
    if |dev.bytes| < FOOTER_OFFSET { return; }
    var ok := PutStructure(dev, f);
    if !ok { return; }
    trace := trace + [dev.bytes];
    if secret.Some? {
      if f.keysize != KEY_LEN { return; }
      ghost var t;
      ok, t := PutSecret(dev, secret.value);
      trace := trace + t;
      if !ok { return; }
    }
    rc := 0;
  }

  method PutStructure(dev: Device, f: Footer) returns (ok: bool)
    requires dev.Valid() && |dev.bytes| >= FOOTER_OFFSET && f.Fits()
    modifies dev
    ensures dev.Valid() && dev.ops == old(dev.ops) + 1 && ok == dev.io(old(dev.ops)).Fine?
    ensures ok ==> dev.bytes == PutFooter(old(dev.bytes), f) && dev.history == old(dev.history) + [dev.bytes]
    ensures !ok ==> dev.bytes == old(dev.bytes) && dev.history == old(dev.history)
  {
    ok := dev.Write(|dev.bytes| - FOOTER_OFFSET, Encode(f));
  }

  /** The key, and the salt behind its padding. */
  method PutSecret(dev: Device, s: Secret) returns (ok: bool, ghost trace: seq<seq<Byte>>)
    requires dev.Valid() && |dev.bytes| >= FOOTER_OFFSET && s.Fits()
    modifies dev
    ensures dev.Valid() && |dev.bytes| == |old(dev.bytes)|
    ensures dev.history == old(dev.history) + trace
    ensures dev.io(old(dev.ops)).Fine? ==>
      var d1 := PutKey(old(dev.bytes), s.key);
      if dev.io(old(dev.ops) + 1).Fine? then trace == [d1, PutSalt(d1, s.salt)] && ok && dev.ops == old(dev.ops) + 2
      else trace == [d1] && !ok && dev.ops == old(dev.ops) + 2
    ensures !dev.io(old(dev.ops)).Fine? ==> trace == [] && !ok && dev.ops == old(dev.ops) + 1
    ensures dev.bytes == LastOr(trace, old(dev.bytes))
  {
    trace := [];
    var off := |dev.bytes| - FOOTER_OFFSET;
    ok := dev.Write(off + FTR_SIZE, s.key);
    if !ok { return; }
    trace := [dev.bytes];
    ok := dev.Write(off + SALT_AT, s.salt);
    if ok { trace := trace + [dev.bytes]; }
  }

  /** The sizes of the volumes in sectors. */
  ghost function Sizes(vols: seq<Device>): (r: seq<nat>)
    reads vols
    ensures |r| == |vols| && forall i :: 0 <= i < |vols| ==> r[i] == |vols[i].bytes| / 512
  {
    if vols == [] then [] else [|vols[0].bytes| / 512] + Sizes(vols[1..])
  }

  /** The request each volume is at. */
  ghost function Starts(vols: seq<Device>): (r: seq<nat>)
    reads vols
    ensures |r| == |vols| && forall i :: 0 <= i < |vols| ==> r[i] == vols[i].ops
  {
    if vols == [] then [] else [vols[0].ops] + Starts(vols[1..])
  }

  function Larger(a: nat, b: nat): nat { if a > b then a else b }

  /** The blocks a device got to, counted over the whole run; none if it got to none. */
  function Upto(done: nat, tried: nat): nat { if tried > 0 then done / 8 + tried else 0 }

  /** What the loop over the extra volumes has done to the first `n` of them. */
  ghost predicate VolumesAfter(vols: seq<Device>, c: Crypto, key: Key, was: seq<seq<Byte>>, starts: seq<nat>, n: nat)
    requires n <= |vols| == |was| == |starts|
    reads vols
  {
    forall i :: 0 <= i < n ==> VolumeAfter(vols[i], c, key, was[i], starts[i])
  }

  /** One volume: exactly the sectors its requests got to are enciphered, all others as they were. */
  ghost predicate VolumeAfter(v: Device, c: Crypto, key: Key, was: seq<Byte>, start: nat)
    reads v
  {
    EncPrefix(c, key, was, v.bytes, Frontier(v.io, start, 0, |was| / 512))
  }

  /** What answers the requests for each volume. */
  function Ios(vols: seq<Device>): (r: seq<nat -> Io>)
    ensures |r| == |vols| && forall i :: 0 <= i < |vols| ==> r[i] == vols[i].io
  {
    seq(|vols|, i requires 0 <= i < |vols| => vols[i].io)
  }

  /** Every request for the first `n` volumes completes. */
  ghost predicate VolumesFine(vols: seq<Device>, starts: seq<nat>, sizes: seq<nat>, n: nat)
    requires n <= |vols| == |starts| == |sizes|
  {
    forall i :: 0 <= i < n ==> CopyFine(vols[i].io, starts[i], sizes[i])
  }

  ghost function Contents(vols: seq<Device>): (r: seq<seq<Byte>>)
    reads vols
    ensures |r| == |vols| && forall i :: 0 <= i < |vols| ==> r[i] == vols[i].bytes
  {
    if vols == [] then [] else [vols[0].bytes] + Contents(vols[1..])
  }

  /** Some volume has a whole block, so that the progress is computed. */
  ghost predicate SomeBlock(sizes: seq<nat>) { exists i :: 0 <= i < |sizes| && sizes[i] / 8 > 0 }

  ghost predicate AllDevicesValid(vols: seq<Device>)
    reads vols
  {
    forall i :: 0 <= i < |vols| ==> vols[i].Valid()
  }

  predicate DistinctDevices(vols: seq<Device>) {
    forall i, j :: 0 <= i < j < |vols| ==> vols[i] != vols[j]
  }

  /** One volume: `rc` is that of this volume, whatever came before. */
  method EncryptVolume(vols: seq<Device>, i: nat, c: Crypto, key: Key, done: nat, totSize: nat,
                       ghost was: seq<seq<Byte>>, ghost starts: seq<nat>)
    returns (outcome: Outcome, done': nat, progress: seq<nat>, ghost tried: nat)
    requires c.Sound() && AllDevicesValid(vols) && DistinctDevices(vols) && i < |vols| == |was| == |starts|
    requires VolumesAfter(vols, c, key, was, starts, i)
    requires forall j :: i <= j < |vols| ==> vols[j].bytes == was[j] && vols[j].ops == starts[j]
    modifies vols[i]
    ensures AllDevicesValid(vols)
    ensures !outcome.DivideByZero? ==> VolumesAfter(vols, c, key, was, starts, i + 1)
    ensures forall j :: i < j < |vols| ==> vols[j].bytes == was[j] && vols[j].ops == starts[j]
    ensures outcome.DivideByZero? <==> |was[i]| / 512 / 8 > 0 && totSize / 8 / 100 == 0
    ensures !outcome.DivideByZero? ==> (outcome.Done? <==> CopyFine(vols[i].io, starts[i], |was[i]| / 512))
    ensures done' == if outcome.Done? then done + |was[i]| / 512 else done
    ensures tried <= |was[i]| / 512 / 8 && (outcome.Done? ==> tried == |was[i]| / 512 / 8)
    ensures tried > 0 ==> totSize / 8 / 100 > 0
    ensures Announced(progress, tried, done / 8, totSize / 8 / 100)
  {
    hide EncPrefix, Stage, Stages, Announced, CopyFine, Frontier;
    ghost var t;
    outcome, done', progress, t, tried := EnableInplace(vols[i], c, key, |vols[i].bytes| / 512, done, totSize);
  }

  /** The loop over the extra volumes: `rc` is overwritten by each one. `top` is one past the last block
      any of them got to. */
  method EncryptVolumes(vols: seq<Device>, c: Crypto, key: Key, sizeDone: nat, totSize: nat)
    returns (outcome: Outcome, progress: seq<nat>, ghost top: nat)
    requires c.Sound() && AllDevicesValid(vols) && DistinctDevices(vols)
    modifies vols
    ensures AllDevicesValid(vols)
    ensures outcome.DivideByZero? <==> totSize / 8 / 100 == 0 && SomeBlock(old(Sizes(vols)))
    ensures !outcome.DivideByZero? ==>
      && VolumesAfter(vols, c, key, old(Contents(vols)), old(Starts(vols)), |vols|)
      && (outcome.Done? <==> VolumesOk(Ios(vols), old(Starts(vols)), old(Sizes(vols))))
      && (totSize / 8 / 100 > 0 ==> (Below100(progress) <==> top <= 100 * (totSize / 8 / 100)))
      && (VolumesFine(vols, old(Starts(vols)), old(Sizes(vols)), |vols|) ==>
            top == TopBlock(old(Sizes(vols)), sizeDone))
  {
    hide *;
    ghost var was, starts, sizes := Contents(vols), Starts(vols), Sizes(vols);
    ghost var onePct := totSize / 8 / 100;
    outcome, progress, top := Done, [], 0;
    NoVolumesYet(vols, c, key, was, starts, sizes);
    TallyStart(VolumesFine(vols, starts, sizes, 0), sizes, sizeDone, onePct);
    var done, i := sizeDone, 0;
    while i < |vols|
      invariant 0 <= i <= |vols| && !outcome.DivideByZero? && AllDevicesValid(vols)
      invariant VolumesAfter(vols, c, key, was, starts, i)
      invariant forall j :: i <= j < |vols| ==> vols[j].bytes == was[j] && vols[j].ops == starts[j]
      invariant outcome.Done? <==> VolumesOk(Ios(vols)[..i], starts[..i], sizes[..i])
      invariant onePct == 0 ==> !SomeBlock(sizes[..i])
      invariant Tally(VolumesFine(vols, starts, sizes, i), progress, top, done, sizes, i, sizeDone, onePct)
    {
      ghost var before := done;
      var p;
      ghost var tried;
      outcome, done, p, tried := EncryptVolume(vols, i, c, key, done, totSize, was, starts);
      BlockAt(sizes, i);
      if outcome.DivideByZero? { return; }
      FineStep(vols, starts, sizes, i);
      TallyStep(VolumesFine(vols, starts, sizes, i), outcome.Done?, progress, p, top, before, sizes, i, sizeDone,
                onePct, tried);
      progress := progress + p;
      top := Larger(top, Upto(before, tried));
      i := i + 1;
    }
    assert Ios(vols)[..i] == Ios(vols) && starts[..i] == starts && sizes[..i] == sizes;
    TallyEnd(VolumesFine(vols, starts, sizes, i), progress, top, done, sizes, sizeDone, onePct);
  }

  lemma BlockAt(sizes: seq<nat>, i: nat)
    requires i < |sizes|
    ensures SomeBlock(sizes[..i + 1]) <==> SomeBlock(sizes[..i]) || sizes[i] / 8 > 0
    ensures sizes[i] / 8 > 0 ==> SomeBlock(sizes)
  {
    if SomeBlock(sizes[..i]) {
      var j :| 0 <= j < i && sizes[..i][j] / 8 > 0;
      assert sizes[..i + 1][j] / 8 > 0;
    }
    if sizes[i] / 8 > 0 { assert sizes[..i + 1][i] / 8 > 0; }
  }

  /** Success as the loop computes it. */
  ghost predicate VolumesOk(ios: seq<nat -> Io>, starts: seq<nat>, sizes: seq<nat>)
    requires |ios| == |starts| == |sizes|
  {
    var n := |ios|;
    n == 0 || CopyFine(ios[n - 1], starts[n - 1], sizes[n - 1])
  }

  lemma NoVolumesYet(vols: seq<Device>, c: Crypto, key: Key, was: seq<seq<Byte>>, starts: seq<nat>, sizes: seq<nat>)
    requires |vols| == |was| == |starts| == |sizes|
    ensures VolumesAfter(vols, c, key, was, starts, 0)
    ensures VolumesOk(Ios(vols)[..0], starts[..0], sizes[..0]) && !SomeBlock(sizes[..0])
  {
  }

  lemma BelowConcat(a: seq<nat>, b: seq<nat>)
    ensures Below100(a + b) <==> Below100(a) && Below100(b)
  {
    assert forall v :: v in a ==> v in a + b;
    assert forall v :: v in b ==> v in a + b;
  }

  lemma FineStep(vols: seq<Device>, starts: seq<nat>, sizes: seq<nat>, i: nat)
    requires i < |vols| == |starts| == |sizes|
    ensures VolumesFine(vols, starts, sizes, i + 1)
      <==> VolumesFine(vols, starts, sizes, i) && CopyFine(vols[i].io, starts[i], sizes[i])
    ensures VolumesOk(Ios(vols)[..i + 1], starts[..i + 1], sizes[..i + 1])
      <==> CopyFine(vols[i].io, starts[i], sizes[i])
  {
  }

  /** The books of the loop: the announcements so far stay below 100 exactly when `top` does, and if all
      went well `top` and what is to come make up the whole. */
  ghost predicate Tally(fine: bool, progress: seq<nat>, top: nat, done: nat, sizes: seq<nat>, i: nat,
                        sizeDone: nat, onePct: nat)
    requires i <= |sizes|
  {
    && (onePct > 0 ==> (Below100(progress) <==> top <= 100 * onePct))
    && (fine ==> Larger(top, TopBlock(sizes[i..], done)) == TopBlock(sizes, sizeDone))
  }

  lemma TallyStart(fine: bool, sizes: seq<nat>, sizeDone: nat, onePct: nat)
    ensures Tally(fine, [], 0, sizeDone, sizes, 0, sizeDone, onePct)
  {
    assert sizes[0..] == sizes;
  }

  lemma TallyStep(fine: bool, ok: bool, progress: seq<nat>, p: seq<nat>, top: nat, done: nat, sizes: seq<nat>, i: nat,
                  sizeDone: nat, onePct: nat, tried: nat)
    requires i < |sizes| && Tally(fine, progress, top, done, sizes, i, sizeDone, onePct)
    requires (tried > 0 ==> onePct > 0) && Announced(p, tried, done / 8, onePct) && (ok ==> tried == sizes[i] / 8)
    ensures Tally(fine && ok, progress + p, Larger(top, Upto(done, tried)), if ok then done + sizes[i] else done,
                  sizes, i + 1, sizeDone, onePct)
  {
    hide Announced;
    BelowConcat(progress, p);
    BelowExactly(p, tried, done / 8, onePct);
    assert sizes[i..][1..] == sizes[i + 1..];
  }

  lemma TallyEnd(fine: bool, progress: seq<nat>, top: nat, done: nat, sizes: seq<nat>, sizeDone: nat, onePct: nat)
    requires Tally(fine, progress, top, done, sizes, |sizes|, sizeDone, onePct)
    ensures onePct > 0 ==> (Below100(progress) <==> top <= 100 * onePct)
    ensures fine ==> top == TopBlock(sizes, sizeDone)
  {
    assert sizes[|sizes|..] == [];
  }

  /** "The loop succeeded, hence every volume is enciphered to its end" holds for every pattern of I/O failures exactly
      when no volume in front of the last has a sector. */
  lemma AllVolumesExactly(starts: seq<nat>, sizes: seq<nat>)
    requires |starts| == |sizes|
    ensures (forall ios: seq<nat -> Io> :: |ios| == |sizes| && VolumesOk(ios, starts, sizes) ==>
               forall i :: 0 <= i < |sizes| ==> Frontier(ios[i], starts[i], 0, sizes[i]) == sizes[i])
            <==> forall i :: 0 <= i < |sizes| - 1 ==> sizes[i] == 0
  {
    if i :| 0 <= i < |sizes| - 1 && sizes[i] > 0 {
      var ios: seq<nat -> Io> := seq(|sizes|, j => if j == i then (k: nat) => Fails(0) else (k: nat) => Fine);
      assert VolumesOk(ios, starts, sizes) && |ios| == |sizes|;
      assert ios[i](starts[i]) == Fails(0);
      assert Frontier(ios[i], starts[i], 0, sizes[i]) == 0;
    } else {
      forall ios: seq<nat -> Io>, i | |ios| == |sizes| && VolumesOk(ios, starts, sizes) && 0 <= i < |sizes|
        ensures Frontier(ios[i], starts[i], 0, sizes[i]) == sizes[i]
      {
        if i == |sizes| - 1 { FrontierFine(ios[i], starts[i], 0, sizes[i]); }
      }
    }
  }

  datatype EnableResult = Refused | Died | Failed | Succeeded

  /** The sectors of a disk in front of the footer region. */
  function FsSectors(d: seq<Byte>): nat { if |d| >= FOOTER_OFFSET then |d| / 512 - 32 else 0 }

  /** How many requests a put with key and salt makes. */
  function PutRequests(io: nat -> Io, from: nat): nat {
    var n := PutsThrough(io, from);
    if n < 3 then n + 1 else 3
  }

  /** Key and salt on the disk behind a put that may have been cut short. */
  function SecretLeft(orig: seq<Byte>, n: nat, s: Secret): Secret
    requires |orig| >= FOOTER_OFFSET
  {
    Secret(if n >= 2 then s.key else SecretAt(orig).key, if n >= 3 then s.salt else SecretAt(orig).salt)
  }

  lemma CopyKeepsSecret(c: Crypto, key: Key, d1: seq<Byte>, d2: seq<Byte>, fs: nat)
    requires |d1| >= FOOTER_OFFSET && 512 * fs == FooterAt(d1) && Stage(c, key, d1, d2, fs)
    ensures |d2| == |d1| && SecretAt(d2) == SecretAt(d1)
  {
    var n: nat :| n <= fs && EncPrefix(c, key, d1, d2, n);
    StageKeepsSecret(c, key, d1, d2, n);
  }

  /** The part of cryptfs_enable that writes the footer and enciphers userdata. */
  method EncryptUserdata(dev: Device, c: Crypto, passwd: string, key: Key, salt: seq<Byte>,
                         typeName: seq<Byte>, fs: nat, tot: nat)
    returns (outcome: Outcome, done: nat, progress: seq<nat>, ghost trace: seq<seq<Byte>>, ghost tried: nat)
    requires dev.Valid() && c.Sound() && |key| == KEY_LEN && |salt| == SALT_LEN && |typeName| == 64
    requires FOOTER_OFFSET <= |dev.bytes| && fs == FsSectors(dev.bytes) && fs < U32
    modifies dev
    ensures dev.Valid() && |dev.bytes| == |old(dev.bytes)|
    ensures dev.history == old(dev.history) + trace && dev.bytes == LastOr(trace, old(dev.bytes))
    ensures AllFine(dev, old(dev.ops), old(dev.ops) + 3) ==>
      AllCrashSafe(c, key, passwd, old(dev.bytes), trace, fs)
    ensures AllFine(dev, old(dev.ops), old(dev.ops) + 3) && outcome.Done? ==>
      Get(dev.bytes) == Got(NewFooter(fs, IN_PROGRESS, typeName), Secret(c.wrap(passwd, salt, key), salt))
    ensures !dev.io(old(dev.ops)).Fine? && Get(old(dev.bytes)).GetError? ==>
      forall w :: w in trace ==> CryptoComplete(w, true) == -1
    ensures outcome.Done? ==> FsPrefix(c, key, old(dev.bytes), dev.bytes, fs, fs)
    ensures SecretAt(dev.bytes) ==
      SecretLeft(old(dev.bytes), PutsThrough(dev.io, old(dev.ops)), Secret(c.wrap(passwd, salt, key), salt))
    ensures outcome.DivideByZero? <==> fs / 8 > 0 && tot / 8 / 100 == 0
    ensures !outcome.DivideByZero? ==>
      (outcome.Done? <==> CopyFine(dev.io, old(dev.ops) + PutRequests(dev.io, old(dev.ops)), fs))
    ensures done == if outcome.Done? then fs else 0
    ensures dev.ops >= old(dev.ops) + PutRequests(dev.io, old(dev.ops))
    ensures tried <= fs / 8 && (outcome.Done? ==> tried == fs / 8) && (tried > 0 ==> tot / 8 / 100 > 0)
    ensures Announced(progress, tried, 0, tot / 8 / 100)
  {
    hide Get, Encode, PutWrites, FsPrefix, EncPrefix, Opens, AllFine, SecretAt, Stage, Stages, CopyFine, Announced;
    hide Frontier;
    var f := NewFooter(fs, IN_PROGRESS, typeName);
    var wrapped := c.wrap(passwd, salt, key);
    var rc;
    ghost var t2;
    ghost var orig := dev.bytes;
    rc, trace := PutCryptFtrAndKey(dev, f, Some(Secret(wrapped, salt)));
    ghost var d1 := dev.bytes;
    FirstPut(c, key, passwd, orig, f, Secret(wrapped, salt), d1, trace, fs, rc == 0);
    CutPutSecret(orig, f, Secret(wrapped, salt), trace);
    assert rc == 0 ==> CryptoComplete(d1, true) == -2 && Says(d1, fs, 2);
    var decrypted := c.unwrap(passwd, salt, wrapped);
    outcome, done, progress, t2, tried := EnableInplace(dev, c, decrypted, fs, 0, tot);
    CopyPhase(c, key, passwd, orig, d1, t2, dev.bytes, fs);
    CopyKeepsSecret(c, key, d1, dev.bytes, fs);
    trace := trace + t2;
  }

  /** Userdata, then the extra volumes if userdata went well. */
  method EncryptAll(dev: Device, vols: seq<Device>, c: Crypto, passwd: string, key: Key, salt: seq<Byte>,
                    typeName: seq<Byte>, fs: nat, tot: nat)
    returns (outcome: Outcome, progress: seq<nat>, ghost trace: seq<seq<Byte>>, ghost userdata: bool, ghost top: nat)
    requires dev.Valid() && c.Sound() && |key| == KEY_LEN && |salt| == SALT_LEN && |typeName| == 64
    requires FOOTER_OFFSET <= |dev.bytes| && fs == FsSectors(dev.bytes) && fs < U32
    requires AllDevicesValid(vols) && DistinctDevices(vols) && dev !in vols
    modifies dev, vols
    ensures dev.Valid() && |dev.bytes| == |old(dev.bytes)|
    ensures dev.history == old(dev.history) + trace && dev.bytes == LastOr(trace, old(dev.bytes))
    ensures AllFine(dev, old(dev.ops), old(dev.ops) + 3) ==>
      AllCrashSafe(c, key, passwd, old(dev.bytes), trace, fs)
    ensures AllFine(dev, old(dev.ops), old(dev.ops) + 3) && outcome.Done? ==>
      Get(dev.bytes) == Got(NewFooter(fs, IN_PROGRESS, typeName), Secret(c.wrap(passwd, salt, key), salt))
    ensures !dev.io(old(dev.ops)).Fine? && Get(old(dev.bytes)).GetError? ==>
      forall w :: w in trace ==> CryptoComplete(w, true) == -1
    ensures outcome.Done? ==> FsPrefix(c, key, old(dev.bytes), dev.bytes, fs, fs)
    ensures SecretAt(dev.bytes) ==
      SecretLeft(old(dev.bytes), PutsThrough(dev.io, old(dev.ops)), Secret(c.wrap(passwd, salt, key), salt))
    ensures userdata <==> CopyFine(dev.io, old(dev.ops) + PutRequests(dev.io, old(dev.ops)), fs)
    ensures dev.ops >= old(dev.ops) + PutRequests(dev.io, old(dev.ops))
    ensures outcome.DivideByZero? <==>
      tot / 8 / 100 == 0 && (fs / 8 > 0 || (userdata && SomeBlock(old(Sizes(vols)))))
    ensures !outcome.DivideByZero? ==>
      (outcome.Done? <==> userdata && VolumesOk(Ios(vols), old(Starts(vols)), old(Sizes(vols))))
    ensures !outcome.DivideByZero? && userdata ==>
      VolumesAfter(vols, c, key, old(Contents(vols)), old(Starts(vols)), |vols|)
    ensures !userdata ==> Contents(vols) == old(Contents(vols))
    ensures !outcome.DivideByZero? && tot / 8 / 100 > 0 ==> (Below100(progress) <==> top <= 100 * (tot / 8 / 100))
    ensures !outcome.DivideByZero? && userdata && VolumesFine(vols, old(Starts(vols)), old(Sizes(vols)), |vols|) ==>
      top == TopBlock([fs] + old(Sizes(vols)), 0)
  {
    hide Get, Encode, FsPrefix, EncPrefix, Opens, AllFine, SecretAt, SecretLeft, CopyFine, Announced;
    hide AllCrashSafe, VolumesAfter, VolumesFine, VolumesOk, SomeBlock, Sizes;
    hide Starts, Contents, Below100, CryptoComplete;
    var done;
    ghost var tried;
    outcome, done, progress, trace, tried := EncryptUserdata(dev, c, passwd, key, salt, typeName, fs, tot);
    top := Upto(0, tried);
    BelowExactly(progress, tried, 0, tot / 8 / 100);
    userdata := CopyFine(dev.io, old(dev.ops) + PutRequests(dev.io, old(dev.ops)), fs);
    if !outcome.Done? { return; }
    var decrypted := c.unwrap(passwd, salt, c.wrap(passwd, salt, key));
    var p;
    ghost var t;
    outcome, p, t := EncryptVolumes(vols, c, decrypted, done, tot);
    BelowConcat(progress, p);
    TopFront(fs, old(Sizes(vols)));
    progress := progress + p;
    top := Larger(top, t);
  }

  lemma TopFront(fs: nat, sizes: seq<nat>)
    ensures TopBlock([fs] + sizes, 0) == Larger(Upto(0, fs / 8), TopBlock(sizes, fs))
  {
    assert ([fs] + sizes)[1..] == sizes;
  }

  method TotalSectors(vols: seq<Device>) returns (n: nat)
    ensures n == Total(Sizes(vols))
  {
    n := 0;
    var i := |vols|;
    assert Sizes(vols)[i..] == [];
    while i > 0
      invariant 0 <= i <= |vols| && n == Total(Sizes(vols)[i..])
    {
      i := i - 1;
      assert Sizes(vols)[i..][1..] == Sizes(vols)[i + 1..];
      n := n + |vols[i].bytes| / 512;
    }
    assert Sizes(vols)[0..] == Sizes(vols);
  }

  /** The last put of a run that went well: its result is ignored. */
  method ClearFlag(dev: Device, c: Crypto, passwd: string, ghost key: Key, typeName: seq<Byte>, fs: nat,
                   ghost orig: seq<Byte>)
    returns (ghost trace: seq<seq<Byte>>)
    requires dev.Valid() && c.Sound() && |typeName| == 64 && fs < U32
    requires FOOTER_OFFSET <= |dev.bytes| == |orig| && fs == FsSectors(dev.bytes)
    requires FsPrefix(c, key, orig, dev.bytes, fs, fs)
    modifies dev
    ensures dev.history == old(dev.history) + trace && dev.bytes == LastOr(trace, old(dev.bytes))
    ensures dev.ops == old(dev.ops) + 1 && FsPrefix(c, key, orig, dev.bytes, fs, fs)
    ensures dev.io(old(dev.ops)).Fine? ==>
      && CryptoComplete(dev.bytes, true) == 0
      && Get(dev.bytes) == Got(NewFooter(fs, 0, typeName), SecretAt(old(dev.bytes)))
    ensures KeyOnDisk(c, passwd, key, old(dev.bytes)) ==>
      && AllCrashSafe(c, key, passwd, orig, trace, fs)
      && (dev.io(old(dev.ops)).Fine? ==> Opens(c, passwd, orig, dev.bytes, fs))
  {
    hide Get, Encode, PutWrites, FsPrefix, Opens, SecretAt, CryptoComplete;
    var f := NewFooter(fs, 0, typeName);
    ghost var d2 := dev.bytes;
    var rc;
    rc, trace := PutCryptFtrAndKey(dev, f, None);
    LastPut(c, key, passwd, orig, d2, f, trace, dev.bytes, fs);
    if rc == 0 {
      FlagCleared(c, key, passwd, orig, d2, f, trace, dev.bytes, fs);
      LastPutShows(d2, f, trace, dev.bytes);
    }
  }

  /** The footer on the disk has the key, wrapped under the password. */
  ghost predicate KeyOnDisk(c: Crypto, passwd: string, key: Key, d: seq<Byte>) {
    && Get(d).Got? && Get(d).ftr.ftrSize == FTR_SIZE
    && c.unwrap(passwd, Get(d).secret.salt, Get(d).secret.key) == key
  }

  /** When the run of the copy loops dies, and when it succeeds; what becomes of the volumes; what is announced. */
  twostate predicate VolumesEnd(dev: Device, vols: seq<Device>, c: Crypto, key: Key, died: bool, succeeded: bool,
                                progress: seq<nat>, top: nat)
    reads dev, vols
  {
    var fs, sizes := FsSectors(old(dev.bytes)), old(Sizes(vols));
    var userdata := CopyFine(dev.io, old(dev.ops) + PutRequests(dev.io, old(dev.ops)), fs);
    var onePct := Total([fs] + sizes) / 8 / 100;
    && (died <==> onePct == 0 && (fs / 8 > 0 || (userdata && SomeBlock(sizes))))
    && (!died ==> (succeeded <==> userdata && VolumesOk(Ios(vols), old(Starts(vols)), sizes)))
    && (!userdata ==> Contents(vols) == old(Contents(vols)))
    && (!died && userdata ==> VolumesAfter(vols, c, key, old(Contents(vols)), old(Starts(vols)), |vols|))
    && (!died && onePct > 0 ==> (Below100(progress) <==> top <= 100 * onePct))
    && (!died && userdata && VolumesFine(vols, old(Starts(vols)), sizes, |vols|) ==> top == TopBlock([fs] + sizes, 0))
  }

  /** The structure a finished run leaves, as vold/cryptfs.h lays it out. */
  ghost predicate Finished(f: Footer, sectors: nat, typeName: seq<Byte>) {
    && f.magic == 0xD0B5B1C4 && f.major == 1 && f.minor == 0 && f.ftrSize == 104 && f.flags == 0 && f.keysize == 16
    && f.fsSize == sectors && f.failedCount == 0 && f.typeName == typeName
  }

  /** What ever lay on the disk, and what lies there when the run has ended well. */
  twostate predicate DiskEnd(dev: Device, c: Crypto, passwd: string, key: Key, salt: seq<Byte>, typeName: seq<Byte>,
                             succeeded: bool, trace: seq<seq<Byte>>)
    reads dev
  {
    var fs := FsSectors(old(dev.bytes));
    && dev.history == old(dev.history) + trace && dev.bytes == LastOr(trace, old(dev.bytes))
    // From the first footer write on, every content the device ever holds is safe to boot from.
    && (AllFine(dev, old(dev.ops), old(dev.ops) + 3) ==> AllCrashSafe(c, key, passwd, old(dev.bytes), trace, fs))
    // The result of that first put is ignored. If its first write fails on a disk that has no
    // footer, a run that does not reach the end leaves a disk that boots as never encrypted.
    && (!dev.io(old(dev.ops)).Fine? && Get(old(dev.bytes)).GetError? && !succeeded ==>
          forall w :: w in trace ==> CryptoComplete(w, true) == -1)
    && (succeeded ==>
          && |old(dev.bytes)| >= FOOTER_OFFSET && FsPrefix(c, key, old(dev.bytes), dev.bytes, fs, fs)
          && dev.ops > old(dev.ops) + PutRequests(dev.io, old(dev.ops)))
    // Unless the very last write fails, which is ignored too, the disk then boots as complete, with as much of
    // key and salt as the first put got to: all of it if that put went through, and the password opens the disk.
    && (succeeded && dev.io(dev.ops - 1).Fine? ==>
          && CryptoComplete(dev.bytes, true) == 0 && Get(dev.bytes).Got?
          && Finished(Get(dev.bytes).ftr, |old(dev.bytes)| / 512 - 32, typeName)
          && Get(dev.bytes).secret
             == SecretLeft(old(dev.bytes), PutsThrough(dev.io, old(dev.ops)), Secret(c.wrap(passwd, salt, key), salt))
          && (AllFine(dev, old(dev.ops), old(dev.ops) + 3) ==> Opens(c, passwd, old(dev.bytes), dev.bytes, fs)))
  }

  /** The part of cryptfs_enable that writes to disks, on a disk with room for the footer. */
  method EncryptDisk(dev: Device, vols: seq<Device>, c: Crypto, passwd: string, key: Key, salt: seq<Byte>,
                     typeName: seq<Byte>, fs: nat, tot: nat)
    returns (result: EnableResult, progress: seq<nat>, ghost trace: seq<seq<Byte>>, ghost top: nat)
    requires dev.Valid() && c.Sound() && |key| == KEY_LEN && |salt| == SALT_LEN && |typeName| == 64
    requires FOOTER_OFFSET <= |dev.bytes| && fs == FsSectors(dev.bytes) && fs < U32
    requires AllDevicesValid(vols) && DistinctDevices(vols) && dev !in vols
    requires tot == Total([fs] + Sizes(vols))
    modifies dev, vols
    ensures !result.Refused?
    ensures DiskEnd(dev, c, passwd, key, salt, typeName, result.Succeeded?, trace)
    ensures VolumesEnd(dev, vols, c, key, result.Died?, result.Succeeded?, progress, top)
  {
    hide Get, Encode, PutWrites, FsPrefix, EncPrefix, Opens, AllFine, SecretAt, SecretLeft, CopyFine;
    hide VolumesAfter, VolumesFine, VolumesOk, SomeBlock, Starts, Contents, Below100, TopBlock, Sizes, AllCrashSafe;
    hide CryptoComplete, Finished;
    ghost var orig := dev.bytes;
    assert fs == |orig| / 512 - 32;
    var outcome;
    ghost var userdata;
    outcome, progress, trace, userdata, top := EncryptAll(dev, vols, c, passwd, key, salt, typeName, fs, tot);
    if !outcome.Done? { return if outcome.DivideByZero? then Died else Failed, progress, trace, top; }
    ghost var t3 := FinishDisk(dev, c, passwd, key, salt, typeName, fs, orig, trace, old(dev.ops));
    trace := trace + t3;
    result := Succeeded;
  }

  /** The last put, after the copy loops have made `trace` of `orig`. */
  method FinishDisk(dev: Device, c: Crypto, passwd: string, ghost key: Key, ghost salt: seq<Byte>,
                    typeName: seq<Byte>, fs: nat,
                    ghost orig: seq<Byte>, ghost trace: seq<seq<Byte>>, ghost start: nat)
    returns (ghost t3: seq<seq<Byte>>)
    requires dev.Valid() && c.Sound() && |key| == KEY_LEN && |salt| == SALT_LEN && |typeName| == 64 && fs < U32
    requires FOOTER_OFFSET <= |dev.bytes| == |orig| && fs == FsSectors(orig)
    requires FsPrefix(c, key, orig, dev.bytes, fs, fs) && dev.bytes == LastOr(trace, orig)
    requires AllFine(dev, start, start + 3) ==>
      && AllCrashSafe(c, key, passwd, orig, trace, fs)
      && Get(dev.bytes) == Got(NewFooter(fs, IN_PROGRESS, typeName), Secret(c.wrap(passwd, salt, key), salt))
    modifies dev
    ensures dev.history == old(dev.history) + t3 && dev.bytes == LastOr(trace + t3, orig)
    ensures AllFine(dev, start, start + 3) ==> AllCrashSafe(c, key, passwd, orig, trace + t3, fs)
    ensures FsPrefix(c, key, orig, dev.bytes, fs, fs) && dev.ops == old(dev.ops) + 1
    ensures dev.io(dev.ops - 1).Fine? ==>
      && CryptoComplete(dev.bytes, true) == 0 && Get(dev.bytes).Got?
      && Finished(Get(dev.bytes).ftr, fs, typeName) && Get(dev.bytes).secret == SecretAt(old(dev.bytes))
      && (AllFine(dev, start, start + 3) ==> Opens(c, passwd, orig, dev.bytes, fs))
  {
    hide Get, Encode, FsPrefix, Opens, AllFine, SecretAt, AllCrashSafe, CryptoComplete;
    t3 := ClearFlag(dev, c, passwd, key, typeName, fs, orig);
    if AllFine(dev, start, start + 3) { CrashSafeConcat(c, key, passwd, orig, trace, t3, fs); }
    assert LastOr(trace + t3, orig) == LastOr(t3, LastOr(trace, orig));
  }

  /** cryptfs_enable("inplace", passwd). `fsSize` is the size of the original filesystem in
      sectors, `prepared` whether the framework could be stopped, the volumes unmounted and
      the random key wrapped. `key` and `salt` are the random bytes. */
  method CryptfsEnable(dev: Device, vols: seq<Device>, unencrypted: bool, fsSize: nat, prepared: bool,
                       c: Crypto, passwd: string, key: Key, salt: seq<Byte>, typeName: seq<Byte>)
    returns (result: EnableResult, progress: seq<nat>, ghost trace: seq<seq<Byte>>, ghost top: nat)
    requires dev.Valid() && c.Sound() && |key| == KEY_LEN && |salt| == SALT_LEN && |typeName| == 64
    requires |dev.bytes| / 512 < U32
    requires AllDevicesValid(vols) && DistinctDevices(vols) && dev !in vols
    modifies dev, vols
    ensures result.Refused? <==>
      !unencrypted || !prepared || |old(dev.bytes)| == 0 || fsSize > (|old(dev.bytes)| / 512 - 32) % U32
    ensures result.Refused? ==> trace == []
    // A disk without room for the footer: the size wraps, the put and the mapping fail, nothing is written.
    ensures |old(dev.bytes)| < FOOTER_OFFSET ==> (result.Refused? || result.Failed?) && trace == []
    ensures DiskEnd(dev, c, passwd, key, salt, typeName, result.Succeeded?, trace)
    ensures !result.Refused? && |old(dev.bytes)| >= FOOTER_OFFSET ==>
      VolumesEnd(dev, vols, c, key, result.Died?, result.Succeeded?, progress, top)
  {
    hide Get, FsPrefix, Opens, AllFine, SecretLeft, AllCrashSafe, CryptoComplete, CopyFine, VolumesAfter, VolumesFine;
    hide VolumesOk, SomeBlock, Starts, Contents, Below100, TopBlock, Sizes, Total;
    trace, progress, top := [], [], 0;
    NothingHeld(c, key, passwd, dev.bytes, FsSectors(dev.bytes));
    if !unencrypted || |dev.bytes| == 0 || fsSize > (|dev.bytes| / 512 - 32) % U32 || !prepared {
      return Refused, progress, trace, top;
    }
    if |dev.bytes| < FOOTER_OFFSET { return Failed, progress, trace, top; }
    var fs := |dev.bytes| / 512 - 32;
    var tot := TotalSectors(vols);
    TotalFront(fs, Sizes(vols));
    result, progress, trace, top := EncryptDisk(dev, vols, c, passwd, key, salt, typeName, fs, fs + tot);
  }

  lemma NothingHeld(c: Crypto, key: Key, passwd: string, orig: seq<Byte>, fs: nat)
    ensures AllCrashSafe(c, key, passwd, orig, [], fs)
  {
  }

  lemma CrashSafeConcat(c: Crypto, key: Key, passwd: string, orig: seq<Byte>, a: seq<seq<Byte>>, b: seq<seq<Byte>>,
                        fs: nat)
    requires AllCrashSafe(c, key, passwd, orig, a, fs) && AllCrashSafe(c, key, passwd, orig, b, fs)
    ensures AllCrashSafe(c, key, passwd, orig, a + b, fs)
  {
    hide CrashSafe;
  }

  lemma TotalFront(fs: nat, sizes: seq<nat>)
    ensures Total([fs] + sizes) == fs + Total(sizes)
  {
    assert ([fs] + sizes)[1..] == sizes;
  }

  lemma LastPutShows(d2: seq<Byte>, f: Footer, t3: seq<seq<Byte>>, d3: seq<Byte>)
    requires |d2| >= FOOTER_OFFSET && f.Fits() && f.Recognised() && f.ftrSize == FTR_SIZE && !f.InProgress()
    requires t3 == PutWrites(d2, f, None) && d3 == LastOr(t3, d2)
    ensures Get(d3) == Got(f, SecretAt(d2)) && CryptoComplete(d3, true) == 0
  {
    hide Get, PutFooter;
    StructureOverSecret(d2, f);
  }

  /** All requests for a device complete, or none stores anything. */
  ghost predicate Answers(v: Device, fine: bool) { forall j :: v.io(j) == if fine then Fine else Fails(0) }

  /** New volumes with these contents, of which number `lost` answers no request. */
  method LosingVolumes(plains: seq<seq<Byte>>, lost: nat) returns (vols: seq<Device>)
    requires forall i :: 0 <= i < |plains| ==> |plains[i]| % 512 == 0
    ensures |vols| == |plains| && AllDevicesValid(vols) && DistinctDevices(vols)
    ensures forall i :: 0 <= i < |vols| ==> fresh(vols[i]) && vols[i].bytes == plains[i] && Answers(vols[i], i != lost)
  {
    vols := [];
    while |vols| < |plains|
      invariant |vols| <= |plains| && AllDevicesValid(vols) && DistinctDevices(vols)
      invariant forall i :: 0 <= i < |vols| ==>
        fresh(vols[i]) && vols[i].bytes == plains[i] && Answers(vols[i], i != lost)
    {
      var r := if |vols| == lost then Fails(0) else Fine;
      var v := new Device(plains[|vols|], _ => r);
      vols := vols + [v];
    }
  }

  /** The run with them: it succeeds, since the last one went well. */
  method LosingRun(dev: Device, vols: seq<Device>, c: Crypto, passwd: string, key: Key, salt: seq<Byte>,
                   typeName: seq<Byte>, lost: nat)
    returns (result: EnableResult)
    requires c.Sound() && |key| == KEY_LEN && |salt| == SALT_LEN && |typeName| == 64
    requires dev.Valid() && |dev.bytes| == 426_496 && Answers(dev, true) && lost < |vols| - 1
    requires AllDevicesValid(vols) && DistinctDevices(vols) && dev !in vols
    requires forall i :: 0 <= i < |vols| ==> Answers(vols[i], i != lost)
    modifies dev, vols
    ensures result.Succeeded? && VolumesAfter(vols, c, key, old(Contents(vols)), old(Starts(vols)), |vols|)
  {
    hide DiskEnd, VolumesAfter, VolumesFine, Contents, Starts, Sizes, Below100, TopBlock, CopyFine, PutRequests, Total;
    hide SomeBlock, Ios;
    TotalFront(801, Sizes(vols));
    FineDevice(dev, dev.ops + PutRequests(dev.io, dev.ops), 801);
    var n := |vols|;
    FineDevice(vols[n - 1], Starts(vols)[n - 1], Sizes(vols)[n - 1]);
    ghost var trace, top;
    var progress;
    result, progress, trace, top := CryptfsEnable(dev, vols, true, 800, true, c, passwd, key, salt, typeName);
  }

  /** A run that succeeds although every request for one of its volumes, in front of the last, fails: that volume holds
      its plaintext as before, whatever the volumes are, while all others are enciphered to their end. */
  method LostVolume(c: Crypto, passwd: string, key: Key, salt: seq<Byte>, typeName: seq<Byte>,
                    plains: seq<seq<Byte>>, lost: nat)
    returns (result: EnableResult, vols: seq<Device>)
    requires c.Sound() && |key| == KEY_LEN && |salt| == SALT_LEN && |typeName| == 64
    requires lost < |plains| - 1 && forall i :: 0 <= i < |plains| ==> |plains[i]| % 512 == 0
    ensures result.Succeeded? && |vols| == |plains| && vols[lost].bytes == plains[lost]
    ensures forall i :: 0 <= i < |plains| && i != lost ==>
      EncPrefix(c, key, plains[i], vols[i].bytes, |plains[i]| / 512)
  {
    hide EncPrefix, Answers, Starts, Contents, Frontier, Crypto.Sound;
    var dev := new Device(seq(426_496, _ => 0), _ => Fine);
    assert Answers(dev, true) by { AlwaysFine(dev); }
    vols := LosingVolumes(plains, lost);
    ghost var starts := Starts(vols);
    assert Contents(vols) == plains;
    result := LosingRun(dev, vols, c, passwd, key, salt, typeName, lost);
    forall i | 0 <= i < |plains|
      ensures if i == lost then vols[i].bytes == plains[i]
              else EncPrefix(c, key, plains[i], vols[i].bytes, |plains[i]| / 512)
    {
      assert VolumeAfter(vols[i], c, key, plains[i], starts[i]);
      LosingLeft(vols[i], c, key, plains[i], starts[i], i != lost);
    }
  }

  lemma AlwaysFine(dev: Device)
    requires forall j :: dev.io(j).Fine?
    ensures Answers(dev, true)
  {
  }

  lemma LosingLeft(v: Device, c: Crypto, key: Key, was: seq<Byte>, start: nat, fine: bool)
    requires Answers(v, fine) && VolumeAfter(v, c, key, was, start)
    ensures if fine then EncPrefix(c, key, was, v.bytes, |was| / 512) else v.bytes == was
  {
    if fine {
      FrontierFine(v.io, start, 0, |was| / 512);
    } else {
      assert Frontier(v.io, start, 0, |was| / 512) == 0;
      assert v.bytes[0..] == was[0..];
    }
  }

  /** A run that succeeds although the write of the key fails: the disk is enciphered to its end and boots as complete,
      with the bytes for key and salt that lay there before. */
  method LostKey(c: Crypto, passwd: string, key: Key, salt: seq<Byte>, typeName: seq<Byte>, disk: seq<Byte>)
    returns (result: EnableResult, dev: Device)
    requires c.Sound() && |key| == KEY_LEN && |salt| == SALT_LEN && |typeName| == 64
    requires |disk| % 512 == 0 && 832 <= |disk| / 512 < U32
    ensures result.Succeeded? && FsPrefix(c, key, disk, dev.bytes, |disk| / 512 - 32, |disk| / 512 - 32)
    ensures CryptoComplete(dev.bytes, true) == 0 && Get(dev.bytes).Got? && Get(dev.bytes).secret == SecretAt(disk)
    ensures Finished(Get(dev.bytes).ftr, |disk| / 512 - 32, typeName)
  {
    dev := new Device(disk, k => if k == 1 then Fails(0) else Fine);
    result := KeylessRun(dev, c, passwd, key, salt, typeName);
  }

  method KeylessRun(dev: Device, c: Crypto, passwd: string, key: Key, salt: seq<Byte>, typeName: seq<Byte>)
    returns (result: EnableResult)
    requires c.Sound() && |key| == KEY_LEN && |salt| == SALT_LEN && |typeName| == 64
    requires dev.Valid() && 832 <= |dev.bytes| / 512 < U32
    requires dev.ops == 0 && forall j :: dev.io(j) == if j == 1 then Fails(0) else Fine
    modifies dev
    ensures var fs := |old(dev.bytes)| / 512 - 32;
      result.Succeeded? && FsPrefix(c, key, old(dev.bytes), dev.bytes, fs, fs)
    ensures CryptoComplete(dev.bytes, true) == 0 && Get(dev.bytes).Got?
    ensures Get(dev.bytes).secret == SecretAt(old(dev.bytes))
    ensures Finished(Get(dev.bytes).ftr, |old(dev.bytes)| / 512 - 32, typeName)
  {
    hide FsPrefix, Get, CryptoComplete, SecretAt, AllCrashSafe, Opens, VolumesAfter;
    hide VolumesFine, Contents, Starts, Sizes;
    hide Below100, TopBlock, CopyFine, Total, SomeBlock, Ios, AllFine;
    ghost var fs := |dev.bytes| / 512 - 32;
    TotalFront(fs, []);
    assert CopyFine(dev.io, 2, fs) by { FineFrom(dev, 2, fs); }
    ghost var trace, top;
    var progress;
    result, progress, trace, top := CryptfsEnable(dev, [], true, 0, true, c, passwd, key, salt, typeName);
  }

  lemma FineFrom(dev: Device, from: nat, sectors: nat)
    requires forall j :: j >= from ==> dev.io(j).Fine?
    ensures CopyFine(dev.io, from, sectors)
  {
  }

  lemma FineDevice(dev: Device, from: nat, sectors: nat)
    requires forall j :: dev.io(j).Fine?
    ensures CopyFine(dev.io, from, sectors)
  {
  }
}
