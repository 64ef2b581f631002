/** In-place encryption (vold/cryptfs.c, cryptfs_enable_inplace): one storage seen raw
    through the block device and deciphered through the dm-crypt mapping. The device
    keeps, as ghost history, its contents after every sector that reaches it. */
module CryptInplace {
  import opened Bytes
  import opened CryptFooter

  type Key = seq<Byte>

  const BUFSIZE: nat := 4096

  /** The unseen cryptography: the sector cipher of dm-crypt and the password wrapping of
      the master key. */
  datatype Crypto = Crypto(
    enc: (Key, nat, seq<Byte>) -> seq<Byte>,
    dec: (Key, nat, seq<Byte>) -> seq<Byte>,
    wrap: (string, seq<Byte>, Key) -> Key,
    unwrap: (string, seq<Byte>, Key) -> Key)
  {
    ghost predicate Sound() {
      && (forall k, i, s :: |s| == 512 ==>
            |enc(k, i, s)| == 512 && dec(k, i, enc(k, i, s)) == s)
      && (forall p, s, k :: |k| == KEY_LEN ==>
            |wrap(p, s, k)| == KEY_LEN && unwrap(p, s, wrap(p, s, k)) == k)
      && (forall p, s, k :: |k| == KEY_LEN ==> |unwrap(p, s, k)| == KEY_LEN)
    }
  }

  function Sector(d: seq<Byte>, i: nat): (r: seq<Byte>)
    requires 512 * (i + 1) <= |d|
    ensures |r| == 512
  {
    d[512 * i..512 * (i + 1)]
  }

  /** `d` is `orig` with exactly its first `n` sectors enciphered in place. */
  ghost predicate EncPrefix(c: Crypto, key: Key, orig: seq<Byte>, d: seq<Byte>, n: nat) {
    && |d| == |orig| && 512 * n <= |d|
    && (forall i :: 0 <= i < n ==> Sector(d, i) == c.enc(key, i, Sector(orig, i)))
    && d[512 * n..] == orig[512 * n..]
  }

  /** `d` is some stage of enciphering the first `size` sectors of `orig`. */
  ghost predicate Stage(c: Crypto, key: Key, orig: seq<Byte>, d: seq<Byte>, size: nat) {
    exists n: nat :: n <= size && EncPrefix(c, key, orig, d, n)
  }

  /** The storage after `m` sectors of `data` were written through the mapping, from sector `p`. */
  ghost function MappedWrites(c: Crypto, key: Key, d: seq<Byte>, p: nat, data: seq<Byte>, m: nat): (r: seq<Byte>)
    requires c.Sound() && 512 * m <= |data| && 512 * (p + m) <= |d|
    ensures |r| == |d|
    decreases m
  {
    if m == 0 then d
    else WriteAt(MappedWrites(c, key, d, p, data, m - 1), 512 * (p + m - 1),
                 c.enc(key, p + m - 1, Sector(data, m - 1)))
  }

  /** The storage after each of those `m` sectors. */
  ghost function MappedTrace(c: Crypto, key: Key, d: seq<Byte>, p: nat, data: seq<Byte>, m: nat): (r: seq<seq<Byte>>)
    requires c.Sound() && 512 * m <= |data| && 512 * (p + m) <= |d|
    ensures |r| == m
    decreases m
  {
    if m == 0 then []
    else MappedTrace(c, key, d, p, data, m - 1) + [MappedWrites(c, key, d, p, data, m)]
  }

  lemma MappedNone(c: Crypto, key: Key, d: seq<Byte>, p: nat, data: seq<Byte>)
    requires c.Sound() && 512 * p <= |d|
    ensures MappedWrites(c, key, d, p, data, 0) == d && MappedTrace(c, key, d, p, data, 0) == []
  {
  }

  lemma MappedStep(c: Crypto, key: Key, d: seq<Byte>, p: nat, data: seq<Byte>, j: nat)
    requires c.Sound() && 512 * (j + 1) <= |data| && 512 * (p + j + 1) <= |d|
    ensures |c.enc(key, p + j, Sector(data, j))| == 512
    ensures var w := WriteAt(MappedWrites(c, key, d, p, data, j), 512 * (p + j), c.enc(key, p + j, Sector(data, j)));
      && MappedWrites(c, key, d, p, data, j + 1) == w
      && MappedTrace(c, key, d, p, data, j + 1) == MappedTrace(c, key, d, p, data, j) + [w]
  {
  }

  lemma EncPrefixStart(c: Crypto, key: Key, d: seq<Byte>)
    ensures EncPrefix(c, key, d, d, 0)
  {
  }

  /** Enciphering the next sector extends the prefix by one. */
  lemma EncPrefixStep(c: Crypto, key: Key, orig: seq<Byte>, d: seq<Byte>, n: nat)
    requires c.Sound() && EncPrefix(c, key, orig, d, n) && 512 * (n + 1) <= |d|
    ensures EncPrefix(c, key, orig,
                      WriteAt(d, 512 * n, c.enc(key, n, Sector(orig, n))), n + 1)
  {
    var e := c.enc(key, n, Sector(orig, n));
    var d' := WriteAt(d, 512 * n, e);
    forall i | 0 <= i < n + 1
      ensures Sector(d', i) == c.enc(key, i, Sector(orig, i))
    {
      if i < n {
        ReadElsewhere(d, 512 * n, e, 512 * i, 512 * (i + 1));
      } else {
        ReadBack(d, 512 * n, e);
      }
    }
    ReadElsewhere(d, 512 * n, e, 512 * (n + 1), |d|);
    var k := SECTOR;
    assert d[512 * (n + 1)..] == d[512 * n..][k..];
    assert orig[512 * (n + 1)..] == orig[512 * n..][k..];
  }

  /** Writing back, through the mapping, what was read raw from the same place: each
      sector written moves the frontier by one. */
  lemma {:induction false} MappedWritesAdvance(
    c: Crypto, key: Key, orig: seq<Byte>, d: seq<Byte>, p: nat, data: seq<Byte>, m: nat)
    requires c.Sound() && EncPrefix(c, key, orig, d, p)
    requires 512 * m <= |data| && 512 * p + |data| <= |d|
    requires data == orig[512 * p..512 * p + |data|]
    ensures EncPrefix(c, key, orig, MappedWrites(c, key, d, p, data, m), p + m)
    decreases m
  {
    MappedNone(c, key, d, p, data);
    assert |orig| == |d|;
    hide EncPrefix, MappedWrites, MappedTrace, WriteAt;
    if m > 0 {
      MappedWritesAdvance(c, key, orig, d, p, data, m - 1);
      SubSlice(orig, 512 * p, 512 * p + |data|, 512 * (m - 1), 512 * m);
      assert Sector(data, m - 1) == Sector(orig, p + m - 1);
      MappedStep(c, key, d, p, data, m - 1);
      EncPrefixStep(c, key, orig, MappedWrites(c, key, d, p, data, m - 1), p + m - 1);
    }
  }

  /** So every storage content on the way is a stage of the enciphering. */
  lemma {:induction false} MappedTraceStages(
    c: Crypto, key: Key, orig: seq<Byte>, d: seq<Byte>, p: nat, data: seq<Byte>, m: nat, size: nat)
    requires c.Sound() && EncPrefix(c, key, orig, d, p)
    requires 512 * m <= |data| && 512 * p + |data| <= |d| && p + m <= size
    requires data == orig[512 * p..512 * p + |data|]
    ensures forall w :: w in MappedTrace(c, key, d, p, data, m) ==> Stage(c, key, orig, w, size)
    decreases m
  {
    if m > 0 {
      MappedTraceStages(c, key, orig, d, p, data, m - 1, size);
      MappedWritesAdvance(c, key, orig, d, p, data, m);
    }
  }

  /** Read through the mapping, an enciphered prefix shows the original plaintext. */
  lemma MappedReadBack(c: Crypto, key: Key, orig: seq<Byte>, d: seq<Byte>, n: nat, i: nat)
    requires c.Sound() && EncPrefix(c, key, orig, d, n) && i < n
    ensures c.dec(key, i, Sector(d, i)) == Sector(orig, i)
  {
  }

  /** What one request does: it completes, or fails after some whole sectors. */
  datatype Io = Fine | Fails(after: nat)

  /** How many of `n` sectors a write stores. */
  function StoredBy(r: Io, n: nat): (m: nat)
    ensures m <= n && (r.Fine? ==> m == n)
  {
    if r.Fails? && r.after < n then r.after else n
  }

  /** How many of `n` sectors are enciphered by one read, request number `at`, and one write back. */
  function CopiedBy(io: nat -> Io, at: nat, n: nat): (m: nat)
    ensures m <= n
  {
    if io(at).Fine? then StoredBy(io(at + 1), n) else 0
  }

  /** How far copying `size` sectors gets from sector `p` on, blocks of eight first and then single sectors, when its
      next request is number `at`: it ends at the first request that fails. */
  function Frontier(io: nat -> Io, at: nat, p: nat, size: nat): (m: nat)
    requires p <= size
    ensures p <= m <= size
    decreases size - p
  {
    if p == size then p
    else
      var n := if size - p >= 8 then 8 else 1;
      if io(at).Fine? && io(at + 1).Fine? then Frontier(io, at + 2, p + n, size) else p + CopiedBy(io, at, n)
  }

  /** A block device. `io` is the outcome of each request in turn. */
  class Device {
    var bytes: seq<Byte>
    var ops: nat
    const io: nat -> Io
    ghost var history: seq<seq<Byte>>

    ghost predicate Valid()
      reads this
    {
      |bytes| % 512 == 0
    }

    constructor (content: seq<Byte>, io: nat -> Io)
      requires |content| % 512 == 0
      ensures Valid() && bytes == content && history == [] && ops == 0 && this.io == io
    {
      bytes, ops, history := content, 0, [];
      this.io := io;
    }

    /** A raw read: short only at the end of the device. */
    method Read(pos: nat, len: nat) returns (n: int, data: seq<Byte>)
      requires Valid() && pos <= |bytes|
      modifies this`ops
      ensures ops == old(ops) + 1
      ensures io(old(ops)).Fine? ==>
        && n == |data| == (if pos + len <= |bytes| then len else |bytes| - pos)
        && data == bytes[pos..pos + |data|]
      ensures !io(old(ops)).Fine? ==> n == -1
    {
      ops := ops + 1;
      if io(ops - 1).Fine? {
        var hi := if pos + len <= |bytes| then pos + len else |bytes|;
        data := bytes[pos..hi];
        n := |data|;
      } else {
        n, data := -1, [];
      }
    }

    /** A raw write inside one sector: it happens or it does not. */
    method Write(pos: nat, data: seq<Byte>) returns (ok: bool)
      requires Valid() && pos + |data| <= |bytes|
      modifies this`bytes, this`ops, this`history
      ensures Valid() && ops == old(ops) + 1 && ok == io(old(ops)).Fine?
      ensures ok ==> bytes == WriteAt(old(bytes), pos, data) && history == old(history) + [bytes]
      ensures !ok ==> bytes == old(bytes) && history == old(history)
    {
      ok := io(ops).Fine?;
      ops := ops + 1;
      if ok {
        bytes := WriteAt(bytes, pos, data);
        history := history + [bytes];
      }
    }

    /** One sector reaches the storage, enciphered. */
    method StoreSector(c: Crypto, key: Key, at: nat, data: seq<Byte>)
      requires Valid() && c.Sound() && |data| == 512 && 512 * at + 512 <= |bytes|
      modifies this`bytes, this`history
      ensures Valid() && bytes == WriteAt(old(bytes), 512 * at, c.enc(key, at, data))
      ensures history == old(history) + [bytes]
    {
      bytes := WriteAt(bytes, 512 * at, c.enc(key, at, data));
      history := history + [bytes];
    }

    /** A write of whole sectors through a dm-crypt mapping of `length` sectors. A failing
        write may have stored some of its sectors. */
    method WriteMapped(c: Crypto, key: Key, length: nat, p: nat, data: seq<Byte>)
      returns (n: int, ghost done: nat)
      requires Valid() && c.Sound()
      requires |data| % 512 == 0 && 512 * length <= |bytes|
      requires 512 * p + |data| <= 512 * length
      modifies this`bytes, this`ops, this`history
      ensures Valid() && ops == old(ops) + 1
      ensures 512 * done <= |data| && bytes == MappedWrites(c, key, old(bytes), p, data, done)
      ensures n == if io(old(ops)).Fine? then |data| else -1
      ensures done == StoredBy(io(old(ops)), |data| / 512)
      ensures history == old(history) + MappedTrace(c, key, old(bytes), p, data, done)
    {
      var todo := StoredBy(io(ops), |data| / 512);
      n := if io(ops).Fine? then |data| else -1;
      ops := ops + 1;
      StoreSectors(c, key, p, data, todo);
      done := todo;
    }

    /** The first `m` sectors of `data` reach the storage one after the other. */
    method StoreSectors(c: Crypto, key: Key, p: nat, data: seq<Byte>, m: nat)
      requires Valid() && c.Sound() && 512 * m <= |data| && 512 * (p + m) <= |bytes|
      modifies this`bytes, this`history
      ensures Valid() && bytes == MappedWrites(c, key, old(bytes), p, data, m)
      ensures history == old(history) + MappedTrace(c, key, old(bytes), p, data, m)
    {
      MappedNone(c, key, bytes, p, data);
      assert history == history + [];
      hide MappedWrites, MappedTrace, WriteAt, Crypto.Sound;
      var j := 0;
      while j < m
        invariant 0 <= j <= m && Valid() && |bytes| == |old(bytes)|
        invariant bytes == MappedWrites(c, key, old(bytes), p, data, j)
        invariant history == old(history) + MappedTrace(c, key, old(bytes), p, data, j)
      {
        MappedStep(c, key, old(bytes), p, data, j);
        StoreSector(c, key, p + j, Sector(data, j));
        j := j + 1;
      }
    }
  }

  /** Every content in `trace` is a stage of enciphering `orig`. */
  ghost predicate Stages(c: Crypto, key: Key, orig: seq<Byte>, trace: seq<seq<Byte>>, size: nat) {
    forall w :: w in trace ==> Stage(c, key, orig, w, size)
  }

  /** The content a device that held `d` ends with, given the contents it went through. */
  ghost function LastOr(trace: seq<seq<Byte>>, d: seq<Byte>): seq<Byte> {
    if trace == [] then d else trace[|trace| - 1]
  }

  /** -1 for an I/O error; DivideByZero where the progress computation divides by one_pct == 0. */
  datatype Outcome = Done | IoError | DivideByZero

  /** Progress in percent after block `i`, as the loop reports it. */
  function Percent(i: nat, onePct: nat): nat
    requires onePct > 0
  {
    i / onePct
  }

  /** Reads `len` bytes raw at sector `p` and writes them back through the mapping. */
  method CopyBlock(dev: Device, c: Crypto, key: Key, length: nat, p: nat, len: nat, buf: seq<Byte>,
                   ghost orig: seq<Byte>)
    returns (ok: bool, buf': seq<Byte>, ghost trace: seq<seq<Byte>>)
    requires dev.Valid() && c.Sound() && 512 * length <= |dev.bytes|
    requires len == 4096 || len == 512
    requires |buf| == BUFSIZE && 512 * p + len <= 512 * length
    requires EncPrefix(c, key, orig, dev.bytes, p)
    modifies dev
    ensures |dev.bytes| == |old(dev.bytes)|
    ensures dev.Valid() && |buf'| == BUFSIZE
    ensures dev.history == old(dev.history) + trace && dev.bytes == LastOr(trace, old(dev.bytes))
    ensures Stages(c, key, orig, trace, length)
    ensures EncPrefix(c, key, orig, dev.bytes, p + CopiedBy(dev.io, old(dev.ops), len / 512))
    ensures ok <==> dev.io(old(dev.ops)).Fine? && dev.io(old(dev.ops) + 1).Fine?
    ensures dev.ops >= old(dev.ops) && (ok ==> dev.ops == old(dev.ops) + 2)
    ensures !dev.io(old(dev.ops)).Fine? ==> trace == []
  {
    buf', trace := buf, [];
    var n, data := dev.Read(512 * p, len);
    if n <= 0 { return false, buf', trace; }
    buf' := data + buf[|data|..];
    assert buf'[..len] == data;
    SameSlice(orig, dev.bytes, 512 * p, len);
    ghost var before := dev.bytes;
    ghost var m;
    n, m := dev.WriteMapped(c, key, length, p, buf'[..len]);
    MappedWritesAdvance(c, key, orig, before, p, data, m);
    MappedTraceStages(c, key, orig, before, p, data, m, length);
    trace := MappedTrace(c, key, before, p, data, m);
    ok := n > 0;
  }

  lemma SameSlice(a: seq<Byte>, b: seq<Byte>, k: nat, len: nat)
    requires k + len <= |a| == |b| && a[k..] == b[k..]
    ensures a[k..k + len] == b[k..k + len]
  {
    assert a[k..][..len] == a[k..k + len];
    assert b[k..][..len] == b[k..k + len];
  }

  lemma DivBelow(i: nat, q: nat, k: nat)
    requires q > 0
    ensures i < k * q ==> i / q < k
    ensures i >= k * q ==> i / q >= k
  {
    var d, m := i / q, i % q;
    assert i == d * q + m;
    if d >= k { MulMono(k, d, q); } else { MulMono(d + 1, k, q); }
  }

  lemma MulMono(a: nat, b: nat, q: nat)
    requires a <= b
    ensures a * q <= b * q
  {
    assert b * q == a * q + (b - a) * q;
  }

  /** All requests from `lo` up to `hi` complete. */
  ghost predicate AllFine(dev: Device, lo: nat, hi: nat) {
    forall j :: lo <= j < hi ==> dev.io(j).Fine?
  }

  lemma PercentGrows(i: nat, onePct: nat)
    requires onePct > 0
    ensures Percent(i, onePct) <= Percent(i + 1, onePct)
  {
    var k := Percent(i, onePct);
    assert k * onePct <= i;
    DivBelow(i + 1, onePct, k);
  }

  /** The announcements made while `n` blocks are copied, `done` blocks having been copied before:
      every percentage but 0 that is reached, once, in rising order. */
  ghost predicate Announced(progress: seq<nat>, n: nat, done: nat, onePct: nat)
    requires n > 0 ==> onePct > 0
  {
    && (forall i, j :: 0 <= i < j < |progress| ==> progress[i] < progress[j])
    && (forall v :: v in progress <==> v > 0 && Reached(v, n, done, onePct))
  }

  ghost predicate Reached(v: nat, n: nat, done: nat, onePct: nat)
    requires n > 0 ==> onePct > 0
  {
    exists i: nat :: done <= i < done + n && v == Percent(i, onePct)
  }

  /** One more block: announced if the percentage has moved since the last announcement. */
  lemma AnnouncedStep(progress: seq<nat>, n: nat, done: nat, onePct: nat, cur: nat)
    requires onePct > 0 && Announced(progress, n, done, onePct)
    requires cur == if n == 0 then 0 else Percent(n - 1 + done, onePct)
    requires progress == [] || progress[|progress| - 1] == cur
    requires cur in progress || cur == 0
    ensures var v := Percent(n + done, onePct);
      Announced(if v > cur then progress + [v] else progress, n + 1, done, onePct)
    ensures cur <= Percent(n + done, onePct)
  {
    var v := Percent(n + done, onePct);
    if n > 0 { PercentGrows(n - 1 + done, onePct); }
    assert Reached(v, n + 1, done, onePct);
    forall w: nat ensures Reached(w, n + 1, done, onePct) <==> w == v || Reached(w, n, done, onePct) {
      ReachedStep(w, n, done, onePct);
    }
  }

  /** The loop's `curPct` behind `n` blocks: the last percentage announced, and the one the last block is at. */
  ghost predicate Current(progress: seq<nat>, n: nat, done: nat, onePct: nat, cur: nat)
    requires n > 0 ==> onePct > 0
  {
    && Announced(progress, n, done, onePct)
    && cur == (if n == 0 then 0 else Percent(n - 1 + done, onePct))
    && if progress == [] then cur == 0 else progress[|progress| - 1] == cur
  }

  lemma CurrentNone(done: nat, onePct: nat)
    ensures Current([], 0, done, onePct, 0)
  {
    AnnouncedNone(done, onePct);
  }

  lemma CurrentAnnounced(progress: seq<nat>, n: nat, done: nat, onePct: nat, cur: nat)
    requires (n > 0 ==> onePct > 0) && Current(progress, n, done, onePct, cur)
    ensures Announced(progress, n, done, onePct)
  {
  }

  lemma CurrentStep(progress: seq<nat>, n: nat, done: nat, onePct: nat, cur: nat)
    requires onePct > 0 && Current(progress, n, done, onePct, cur)
    ensures var v := Percent(n + done, onePct);
      if v > cur then Current(progress + [v], n + 1, done, onePct, v) else Current(progress, n + 1, done, onePct, cur)
  {
    hide Percent, Reached, Announced;
    AnnouncedStep(progress, n, done, onePct, cur);
  }

  lemma AnnouncedNone(done: nat, onePct: nat)
    ensures Announced([], 0, done, onePct)
  {
  }

  lemma ReachedStep(w: nat, n: nat, done: nat, onePct: nat)
    requires onePct > 0
    ensures Reached(w, n + 1, done, onePct) <==> w == Percent(n + done, onePct) || Reached(w, n, done, onePct)
  {
    assert done <= n + done < done + (n + 1);
  }

  /** The first loop of cryptfs_enable_inplace: whole 4096-byte blocks, with progress. */
  method CopyBlocks(dev: Device, c: Crypto, key: Key, size: nat, numblocks: nat, blocksDone: nat, onePct: nat)
    returns (ok: bool, buf: seq<Byte>, progress: seq<nat>, ghost trace: seq<seq<Byte>>, ghost tried: nat)
    requires dev.Valid() && c.Sound() && 512 * size <= |dev.bytes| && numblocks == size / 8
    requires numblocks > 0 ==> onePct > 0
    modifies dev
    ensures |dev.bytes| == |old(dev.bytes)|
    ensures dev.Valid() && |buf| == BUFSIZE
    ensures dev.history == old(dev.history) + trace && dev.bytes == LastOr(trace, old(dev.bytes))
    ensures Stages(c, key, old(dev.bytes), trace, size)
    ensures ok ==> EncPrefix(c, key, old(dev.bytes), dev.bytes, 8 * numblocks)
    ensures ok ==> Frontier(dev.io, old(dev.ops), 0, size) == Frontier(dev.io, dev.ops, 8 * numblocks, size)
    ensures !ok ==> EncPrefix(c, key, old(dev.bytes), dev.bytes, Frontier(dev.io, old(dev.ops), 0, size))
    ensures dev.ops >= old(dev.ops) && (ok ==> dev.ops == old(dev.ops) + 2 * numblocks)
    ensures ok <==> AllFine(dev, old(dev.ops), old(dev.ops) + 2 * numblocks)
    ensures tried <= numblocks && (ok ==> tried == numblocks) && Announced(progress, tried, blocksDone, onePct)
    ensures numblocks == 0 || !dev.io(old(dev.ops)).Fine? ==> trace == []
  {
    hide EncPrefix, Percent, CopiedBy, Frontier, Current, Announced, Stage;
    trace, progress, buf := [], [], seq(BUFSIZE, _ => 0);
    var curPct, i := 0, 0;
    tried := 0;
    CurrentNone(blocksDone, onePct);
    EncPrefixStart(c, key, dev.bytes);
    ghost var t;
    while i < numblocks
      invariant 0 <= i <= numblocks && |buf| == BUFSIZE && dev.Valid() && |dev.bytes| == |old(dev.bytes)|
      invariant EncPrefix(c, key, old(dev.bytes), dev.bytes, 8 * i)
      invariant Frontier(dev.io, old(dev.ops), 0, size) == Frontier(dev.io, dev.ops, 8 * i, size)
      invariant dev.history == old(dev.history) + trace && dev.bytes == LastOr(trace, old(dev.bytes))
      invariant Stages(c, key, old(dev.bytes), trace, size)
      invariant dev.ops == old(dev.ops) + 2 * i && AllFine(dev, old(dev.ops), dev.ops)
      invariant tried == i && Current(progress, i, blocksDone, onePct, curPct)
      invariant i == 0 ==> trace == []
      invariant i > 0 ==> dev.io(old(dev.ops)).Fine?
    {
      CurrentStep(progress, i, blocksDone, onePct, curPct);
      var newPct := Percent(i + blocksDone, onePct);
      if newPct > curPct {
        curPct := newPct;
        progress := progress + [curPct];
      }
      tried := i + 1;
      CurrentAnnounced(progress, tried, blocksDone, onePct, curPct);
      FrontierStep(dev.io, dev.ops, 8 * i, size, 8);
      ok, buf, t := CopyBlock(dev, c, key, size, 8 * i, BUFSIZE, buf, old(dev.bytes));
      trace := trace + t;
      if !ok { return; }
      i := i + 1;
    }
    CurrentAnnounced(progress, i, blocksDone, onePct, curPct);
    ok := true;
  }

  /** The second loop: the sectors left over, one at a time, from sector `p`. */
  method CopySectors(dev: Device, c: Crypto, key: Key, size: nat, p: nat, buf0: seq<Byte>, ghost orig: seq<Byte>)
    returns (ok: bool, ghost trace: seq<seq<Byte>>)
    requires dev.Valid() && c.Sound() && 512 * size <= |dev.bytes| && p <= size < p + 8
    requires |buf0| == BUFSIZE && EncPrefix(c, key, orig, dev.bytes, p)
    modifies dev
    ensures |dev.bytes| == |old(dev.bytes)|
    ensures dev.Valid()
    ensures dev.history == old(dev.history) + trace && dev.bytes == LastOr(trace, old(dev.bytes))
    ensures Stages(c, key, orig, trace, size)
    ensures EncPrefix(c, key, orig, dev.bytes, Frontier(dev.io, old(dev.ops), p, size))
    ensures ok ==> Frontier(dev.io, old(dev.ops), p, size) == size
    ensures ok <==> AllFine(dev, old(dev.ops), old(dev.ops) + 2 * (size - p))
    ensures dev.ops >= old(dev.ops)
    ensures p == size || !dev.io(old(dev.ops)).Fine? ==> trace == []
  {
    hide EncPrefix, CopiedBy, Frontier;
    trace := [];
    var buf, i := buf0, 0;
    ghost var t;
    while i < size - p
      invariant 0 <= i <= size - p && |buf| == BUFSIZE && dev.Valid() && |dev.bytes| == |old(dev.bytes)|
      invariant EncPrefix(c, key, orig, dev.bytes, p + i)
      invariant Frontier(dev.io, old(dev.ops), p, size) == Frontier(dev.io, dev.ops, p + i, size)
      invariant dev.history == old(dev.history) + trace && dev.bytes == LastOr(trace, old(dev.bytes))
      invariant Stages(c, key, orig, trace, size)
      invariant dev.ops == old(dev.ops) + 2 * i && AllFine(dev, old(dev.ops), dev.ops)
      invariant i == 0 ==> trace == []
      invariant i > 0 ==> dev.io(old(dev.ops)).Fine?
    {
      FrontierStep(dev.io, dev.ops, p + i, size, 1);
      ok, buf, t := CopyBlock(dev, c, key, size, p + i, 512, buf, orig);
      trace := trace + t;
      if !ok { return; }
      i := i + 1;
    }
    FrontierEnd(dev.io, dev.ops, size);
    ok := true;
  }

  lemma FrontierStep(io: nat -> Io, at: nat, p: nat, size: nat, n: nat)
    requires p < size && n == if size - p >= 8 then 8 else 1
    ensures Frontier(io, at, p, size) ==
      if io(at).Fine? && io(at + 1).Fine? then Frontier(io, at + 2, p + n, size) else p + CopiedBy(io, at, n)
    ensures io(at).Fine? && io(at + 1).Fine? ==> CopiedBy(io, at, n) == n
  {
  }

  lemma FrontierEnd(io: nat -> Io, at: nat, size: nat)
    ensures Frontier(io, at, size, size) == size
  {
  }

  /** Without a request that fails it gets to the end. */
  lemma {:induction false} FrontierFine(io: nat -> Io, at: nat, p: nat, size: nat)
    requires p <= size && forall j :: at <= j < at + 2 * ((size - p) / 8 + (size - p) % 8) ==> io(j).Fine?
    ensures Frontier(io, at, p, size) == size
    decreases size - p
  {
    if p < size {
      var n := if size - p >= 8 then 8 else 1;
      assert io(at).Fine? && io(at + 1).Fine?;
      FrontierFine(io, at + 2, p + n, size);
    }
  }

  /** Every request of copying `sectors` sectors completes, the first one being number `from`. */
  ghost predicate CopyFine(io: nat -> Io, from: nat, sectors: nat) {
    forall j :: from <= j < from + 2 * (sectors / 8 + sectors % 8) ==> io(j).Fine?
  }

  /** cryptfs_enable_inplace for one device whose first `size` sectors are mapped. `tried` is the number
      of blocks it got to. */
  method EnableInplace(dev: Device, c: Crypto, key: Key, size: nat, sizeDone: nat, totSize: nat)
    returns (outcome: Outcome, sizeDone': nat, progress: seq<nat>, ghost trace: seq<seq<Byte>>, ghost tried: nat)
    requires dev.Valid() && c.Sound() && 512 * size <= |dev.bytes|
    modifies dev
    ensures dev.Valid() && |dev.bytes| == |old(dev.bytes)|
    ensures dev.history == old(dev.history) + trace && dev.bytes == LastOr(trace, old(dev.bytes))
    ensures Stages(c, key, old(dev.bytes), trace, size)
    ensures !outcome.DivideByZero? ==>
      EncPrefix(c, key, old(dev.bytes), dev.bytes, Frontier(dev.io, old(dev.ops), 0, size))
    ensures Stage(c, key, old(dev.bytes), dev.bytes, size)
    ensures outcome.Done? ==> EncPrefix(c, key, old(dev.bytes), dev.bytes, size)
    ensures dev.ops >= old(dev.ops)
    ensures sizeDone' == if outcome.Done? then sizeDone + size else sizeDone
    ensures outcome.DivideByZero? <==> size / 8 > 0 && totSize / 8 / 100 == 0
    ensures outcome.DivideByZero? ==> dev.bytes == old(dev.bytes) && trace == []
    ensures !outcome.DivideByZero? ==> (outcome.Done? <==> CopyFine(dev.io, old(dev.ops), size))
    ensures size == 0 || !dev.io(old(dev.ops)).Fine? ==> trace == []
    ensures tried <= size / 8 && (outcome.Done? ==> tried == size / 8)
    ensures tried > 0 ==> totSize / 8 / 100 > 0
    ensures Announced(progress, tried, sizeDone / 8, totSize / 8 / 100)
  {
    hide EncPrefix, Announced, Frontier;
    trace, progress, sizeDone', tried := [], [], sizeDone, 0;
    var numblocks := size / 8;
    var onePct := totSize / 8 / 100;
    AnnouncedNone(sizeDone / 8, onePct);
    if numblocks > 0 && onePct == 0 {
      EncPrefixStart(c, key, dev.bytes);
      return DivideByZero, sizeDone, progress, trace, tried;
    }
    var ok, buf;
    ok, buf, progress, trace, tried := CopyBlocks(dev, c, key, size, numblocks, sizeDone / 8, onePct);
    if !ok { return IoError, sizeDone, progress, trace, tried; }
    ghost var t;
    ok, t := CopySectors(dev, c, key, size, 8 * numblocks, buf, old(dev.bytes));
    trace := trace + t;
    if !ok { return IoError, sizeDone, progress, trace, tried; }
    outcome, sizeDone' := Done, sizeDone + size;
  }

  // --------------------------------------------------------------- progress of a whole run

  ghost predicate Below100(progress: seq<nat>) { forall v :: v in progress ==> v < 100 }

  /** The announcements for `n` blocks stay below 100 exactly when the last block does. */
  lemma BelowExactly(progress: seq<nat>, n: nat, done: nat, onePct: nat)
    requires (n > 0 ==> onePct > 0) && Announced(progress, n, done, onePct)
    ensures Below100(progress) <==> n == 0 || done + n <= 100 * onePct
  {
    if n > 0 {
      var last := done + n - 1;
      if last < 100 * onePct {
        forall v | v in progress ensures v < 100 {
          assert Reached(v, n, done, onePct);
          var i: nat :| done <= i < done + n && v == Percent(i, onePct);
          DivBelow(i, onePct, 100);
        }
      } else {
        DivBelow(last, onePct, 100);
        assert Reached(Percent(last, onePct), n, done, onePct);
        assert Percent(last, onePct) in progress;
      }
    }
  }

  /** One past the last block copied when devices of these sizes (in sectors) are copied one after the
      other without a failure, `done` sectors having been copied before. */
  function TopBlock(sizes: seq<nat>, done: nat): nat
    decreases |sizes|
  {
    if sizes == [] then 0
    else
      var here := if sizes[0] / 8 > 0 then done / 8 + sizes[0] / 8 else 0;
      var later := TopBlock(sizes[1..], done + sizes[0]);
      if here > later then here else later
  }

  function Total(sizes: seq<nat>): nat {
    if sizes == [] then 0 else sizes[0] + Total(sizes[1..])
  }

  /** Without extra volumes: below 100 percent exactly when the block count is a multiple of 100. The
      rounding does not, as the caller assumes, always keep it below. */
  lemma ProgressBelow100(sectors: nat)
    requires sectors / 8 / 100 > 0
    ensures TopBlock([sectors], 0) <= 100 * (Total([sectors]) / 8 / 100) <==> sectors / 8 % 100 == 0
  {
    assert [sectors][1..] == [];
  }

  /** With extra volumes the remainders that are not whole blocks can keep it below although the total
      block count, 101 here, is no multiple of 100. */
  lemma RemaindersKeepBelow()
    ensures var sizes := [484, 324];
      Total(sizes) / 8 == 101 && TopBlock(sizes, 0) == 100 && TopBlock(sizes, 0) <= 100 * (Total(sizes) / 8 / 100)
  {
    assert [484, 324][1..] == [324] && [324][1..] == [];
  }
}
