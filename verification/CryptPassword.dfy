/** Checking, verifying and changing the disk password (vold/cryptfs.c):
    test_mount_encrypted_fs, cryptfs_verify_passwd and cryptfs_changepw over the footer on
    disk and the master key kept in memory. */
module CryptPassword {
  import opened Bytes
  import opened CryptFooter
  import opened CryptInplace
  import Enable = CryptEnable

  /** What surrounds the daemon: the cryptography, ro.crypto.state, the keys under which the
      kernel can mount the filesystem, and the stack bytes used as a key when the footer says
      the key is not encrypted. */
  datatype Env = Env(c: Crypto, encrypted: bool, mounts: Key -> bool, junk: Key)
  {
    ghost predicate Valid() { c.Sound() && |junk| == KEY_LEN }
  }

  /** The disk and saved_master_key (None while master_key_saved is 0). */
  datatype State = State(disk: seq<Byte>, saved: Option<Key>)
  {
    predicate Valid() { saved.Some? ==> |saved.value| == KEY_LEN }
  }

  /** `maps` is whether dm-crypt can make the mapping. */
  datatype Cmd = Check(pw: string, maps: bool) | Verify(pw: string) | ChangePw(pw: string) | Reboot

  /** Conversion of an unsigned 32-bit count to the int the caller sees. */
  function ToInt(n: nat): (r: int)
    ensures n < U32 ==> -0x8000_0000 <= r < 0x8000_0000 && (r == n || r == n - U32)
  {
    if n < 0x8000_0000 then n else n - U32
  }

  function KeyFor(env: Env, f: Footer, s: Secret, pw: string): Key {
    if f.KeyUnencrypted() then env.junk else env.c.unwrap(pw, s.salt, s.key)
  }

  /** failed_decrypt_count after a try: an unsigned 32-bit counter. */
  function NextCount(mounted: bool, count: nat): nat {
    if mounted then 0 else (count + 1) % U32
  }

  function CheckPasswd(env: Env, st: State, pw: string, maps: bool): (State, int) {
    if st.saved.Some? || !env.encrypted then (st, -1)
    else match Get(st.disk)
      case GetError => (st, -1)
      case Got(f, s) =>
        if !maps then (st, -1) else
        var key := KeyFor(env, f, s, pw);
        var count := NextCount(env.mounts(key), f.failedCount);
        var disk := if count != f.failedCount then Put(st.disk, f.(failedCount := count), None) else st.disk;
        if count != 0 then (State(disk, None), ToInt(count))
        else (State(disk, Some(key)), 0)
  }

  function VerifyPasswd(env: Env, st: State, pw: string): int {
    if !env.encrypted then -2
    else if st.saved.None? then -1
    else match Get(st.disk)
      case GetError => -1
      case Got(f, s) =>
        if f.KeyUnencrypted() then 0
        else if env.c.unwrap(pw, s.salt, s.key) == st.saved.value then 0
        else 1
  }

  function ChangePasswd(env: Env, st: State, pw: string): (State, int)
    requires env.c.Sound() && st.Valid()
  {
    if st.saved.None? then (st, -1)
    else match Get(st.disk)
      case GetError => (st, -1)
      case Got(f, s) =>
        var key := env.c.wrap(pw, s.salt, st.saved.value);
        (State(Put(st.disk, f, Some(Secret(key, s.salt))), st.saved), 0)
  }

  function Step(env: Env, st: State, cmd: Cmd): (r: (State, int))
    requires env.Valid() && st.Valid()
    ensures r.0.Valid()
  {
    match cmd
    case Check(pw, maps) => CheckPasswd(env, st, pw, maps)
    case Verify(pw) => (st, VerifyPasswd(env, st, pw))
    case ChangePw(pw) => ChangePasswd(env, st, pw)
    case Reboot => (State(st.disk, None), 0)
  }

  /** A whole session: the final state and what each command answered. */
  function Run(env: Env, st: State, cmds: seq<Cmd>): (State, seq<int>)
    requires env.Valid() && st.Valid()
    decreases |cmds|
  {
    if cmds == [] then (st, [])
    else
      var (st1, rc) := Step(env, st, cmds[0]);
      var (st2, rcs) := Run(env, st1, cmds[1..]);
      (st2, [rc] + rcs)
  }

  // ------------------------------------------------------------------- the reference

  /** What a user thinks of: the current password, consecutive failures, unlocked or not. */
  datatype Lock = Lock(pw: string, failures: nat, unlocked: bool)

  /** `p` opens a lock set to `pw`, under the salt in use. */
  predicate Opens(env: Env, salt: seq<Byte>, master: Key, pw: string, p: string) {
    env.c.unwrap(p, salt, env.c.wrap(pw, salt, master)) == master
  }

  function LockStep(env: Env, salt: seq<Byte>, master: Key, l: Lock, cmd: Cmd): (Lock, int) {
    match cmd
    case Check(p, maps) =>
      if l.unlocked || !maps then (l, -1)
      else if Opens(env, salt, master, l.pw, p) then (Lock(l.pw, 0, true), 0)
      else (Lock(l.pw, l.failures + 1, false), ToInt(l.failures + 1))
    case Verify(p) =>
      (l, if !l.unlocked then -1 else if Opens(env, salt, master, l.pw, p) then 0 else 1)
    case ChangePw(p) => if l.unlocked then (l.(pw := p), 0) else (l, -1)
    case Reboot => (l.(unlocked := false), 0)
  }

  function LockRun(env: Env, salt: seq<Byte>, master: Key, l: Lock, cmds: seq<Cmd>): (Lock, seq<int>)
    decreases |cmds|
  {
    if cmds == [] then (l, [])
    else
      var (l1, rc) := LockStep(env, salt, master, l, cmds[0]);
      var (l2, rcs) := LockRun(env, salt, master, l1, cmds[1..]);
      (l2, [rc] + rcs)
  }

  /** The disk and memory represent the lock: the footer is `base` but for the failures it counts, the
      stored key is the master key wrapped under its password, the master key is in memory iff unlocked. */
  ghost predicate Represents(env: Env, salt: seq<Byte>, master: Key, base: Footer, st: State, l: Lock) {
    && Get(st.disk).Got? && Get(st.disk).ftr == base.(failedCount := l.failures)
    && base.ftrSize == FTR_SIZE && base.flags % 2 == 0
    && Get(st.disk).secret == Secret(env.c.wrap(l.pw, salt, master), salt)
    && st.saved == if l.unlocked then Some(master) else None
  }

  /** Only the master key mounts the filesystem. */
  ghost predicate OnlyMasterMounts(env: Env, master: Key) {
    |master| == KEY_LEN && forall k :: env.mounts(k) <==> k == master
  }

  lemma StepRefines(env: Env, salt: seq<Byte>, master: Key, base: Footer, st: State, l: Lock, cmd: Cmd)
    requires env.Valid() && st.Valid() && env.encrypted && OnlyMasterMounts(env, master)
    requires Represents(env, salt, master, base, st, l) && l.failures + 1 < U32
    ensures Represents(env, salt, master, base, Step(env, st, cmd).0, LockStep(env, salt, master, l, cmd).0)
    ensures Step(env, st, cmd).1 == LockStep(env, salt, master, l, cmd).1
  {
    hide Get, Put;
    var f, s := Get(st.disk).ftr, Get(st.disk).secret;
    match cmd
    case Check(p, maps) =>
      if !l.unlocked && maps {
        var count := NextCount(env.mounts(KeyFor(env, f, s, p)), f.failedCount);
        PutFooterOnlyKeepsSecret(st.disk, f.(failedCount := count));
      }
    case Verify(p) =>
    case ChangePw(p) =>
      if l.unlocked {
        PutGet(st.disk, f, Secret(env.c.wrap(p, salt, master), salt));
      }
    case Reboot =>
  }

  /** For every session of checks, verifications, password changes and reboots, in any order,
      the daemon answers exactly as the lock does, and its disk keeps representing the lock. */
  lemma {:induction false} SessionRefinesLock(
    env: Env, salt: seq<Byte>, master: Key, base: Footer, st: State, l: Lock, cmds: seq<Cmd>)
    requires env.Valid() && st.Valid() && env.encrypted && OnlyMasterMounts(env, master)
    requires Represents(env, salt, master, base, st, l) && l.failures + |cmds| < U32
    ensures Represents(env, salt, master, base, Run(env, st, cmds).0, LockRun(env, salt, master, l, cmds).0)
    ensures Run(env, st, cmds).1 == LockRun(env, salt, master, l, cmds).1
    decreases |cmds|
  {
    hide Step, LockStep, Represents;
    if cmds != [] {
      StepRefines(env, salt, master, base, st, l, cmds[0]);
      FailuresGrowByOne(env, salt, master, l, cmds[0]);
      SessionRefinesLock(env, salt, master, base, Step(env, st, cmds[0]).0,
                         LockStep(env, salt, master, l, cmds[0]).0, cmds[1..]);
    }
  }

  lemma FailuresGrowByOne(env: Env, salt: seq<Byte>, master: Key, l: Lock, cmd: Cmd)
    ensures LockStep(env, salt, master, l, cmd).0.failures <= l.failures + 1
  {
  }

  /** Whatever happened before, the password that was set last verifies, and the master key
      it unwraps to is still the one the disk was encrypted with. */
  lemma LastPasswordVerifies(env: Env, salt: seq<Byte>, master: Key, base: Footer, st: State, l: Lock, cmds: seq<Cmd>,
                             pw: string)
    requires env.Valid() && st.Valid() && env.encrypted && OnlyMasterMounts(env, master)
    requires Represents(env, salt, master, base, st, l) && l.failures + |cmds| < U32
    requires LockRun(env, salt, master, l, cmds).0 == Lock(pw, 0, true)
    ensures var st' := Run(env, st, cmds).0;
            && VerifyPasswd(env, st', pw) == 0
            && env.c.unwrap(pw, Get(st'.disk).secret.salt, Get(st'.disk).secret.key) == master
            && Get(st'.disk).ftr == base.(failedCount := 0) && Get(st'.disk).secret.salt == salt
  {
    hide Get;
    SessionRefinesLock(env, salt, master, base, st, l, cmds);
  }

  /** On a disk without a footer every command but a reboot is refused, and nothing changes. */
  lemma NoFooterRefused(env: Env, st: State, pw: string, maps: bool)
    requires env.Valid() && st.Valid() && env.encrypted && Get(st.disk).GetError?
    ensures Step(env, st, Check(pw, maps)) == (st, -1) && Step(env, st, Verify(pw)) == (st, -1)
    ensures Step(env, st, ChangePw(pw)) == (st, -1)
  {
    hide Get;
  }

  /** The other refusals: a check once the key is in memory, or when the mapping cannot be made; a verification or a
      change before; a check or verification on a system that is not encrypted. */
  lemma RefusedElsewhere(env: Env, st: State, pw: string, maps: bool)
    requires env.Valid() && st.Valid()
    ensures st.saved.Some? || !maps || !env.encrypted ==> Step(env, st, Check(pw, maps)) == (st, -1)
    ensures !env.encrypted ==> Step(env, st, Verify(pw)) == (st, -2)
    ensures st.saved.None? ==>
      Step(env, st, ChangePw(pw)) == (st, -1) && (env.encrypted ==> Step(env, st, Verify(pw)) == (st, -1))
  {
    hide Get;
  }

  /** The disk that cryptfs_enable leaves is a lock set to the password it was given. */
  lemma EnabledLocks(env: Env, salt: seq<Byte>, master: Key, passwd: string, disk: seq<Byte>, sectors: nat,
                     typeName: seq<Byte>)
    requires Get(disk).Got? && Enable.Finished(Get(disk).ftr, sectors, typeName)
    requires Get(disk).secret == Secret(env.c.wrap(passwd, salt, master), salt)
    ensures Represents(env, salt, master, Get(disk).ftr, State(disk, None), Lock(passwd, 0, false))
  {
    hide Get;
  }

  /** Enabling encryption and then any session of checks, verifications, password changes and reboots: if the footer
      went to the disk, the daemon answers as a lock that was set to that password. */
  method EnableThenUse(dev: Device, env: Env, fsSize: nat, passwd: string, key: Key, salt: seq<Byte>,
                       typeName: seq<Byte>, cmds: seq<Cmd>)
    returns (result: Enable.EnableResult, answers: seq<int>)
    requires dev.Valid() && |dev.bytes| / 512 < U32 && |salt| == SALT_LEN && |typeName| == 64
    requires env.Valid() && env.encrypted && OnlyMasterMounts(env, key) && |cmds| < U32
    modifies dev
    ensures result.Succeeded? ==> dev.ops > old(dev.ops)
    ensures result.Succeeded? && AllFine(dev, old(dev.ops), old(dev.ops) + 3) && dev.io(dev.ops - 1).Fine? ==>
      answers == LockRun(env, salt, key, Lock(passwd, 0, false), cmds).1
  {
    ghost var trace, top;
    var progress;
    result, progress, trace, top :=
      Enable.CryptfsEnable(dev, [], true, fsSize, true, env.c, passwd, key, salt, typeName);
    hide Get, Run, LockRun, Represents, Enable.FsPrefix, Enable.Opens, Enable.AllCrashSafe, Enable.CryptoComplete;
    hide Enable.Finished, Enable.VolumesEnd;
    answers := Run(env, State(dev.bytes, None), cmds).1;
    if result.Succeeded? && AllFine(dev, old(dev.ops), old(dev.ops) + 3) && dev.io(dev.ops - 1).Fine? {
      EnabledLocks(env, salt, key, passwd, dev.bytes, |old(dev.bytes)| / 512 - 32, typeName);
      SessionRefinesLock(env, salt, key, Get(dev.bytes).ftr, State(dev.bytes, None), Lock(passwd, 0, false), cmds);
    }
  }

  /** A check on a locked, recognised disk succeeds exactly when the mapping can be made and the
      key mounts the filesystem or the failure counter is about to wrap to zero. */
  lemma CheckSucceedsExactly(env: Env, st: State, pw: string, maps: bool)
    requires env.Valid() && st.Valid() && env.encrypted && st.saved.None? && Get(st.disk).Got?
    ensures var f, s := Get(st.disk).ftr, Get(st.disk).secret;
            CheckPasswd(env, st, pw, maps).1 == 0
            <==> maps && (env.mounts(KeyFor(env, f, s, pw)) || f.failedCount == U32 - 1)
  {
    hide Get, Put;
  }

  /** So after 2^32 - 1 failures one more wrong password is taken for success. */
  lemma WrongPasswordAfterWrap(env: Env, d: seq<Byte>, f: Footer, s: Secret, pw: string)
    requires env.Valid() && env.encrypted && |d| >= FOOTER_OFFSET && f.Fits() && s.Fits()
    requires f.Recognised() && f.ftrSize == FTR_SIZE && f.failedCount == U32 - 1
    requires !env.mounts(KeyFor(env, f, s, pw))
    ensures var st := State(Put(d, f, Some(s)), None);
            CheckPasswd(env, st, pw, true).1 == 0
            && CheckPasswd(env, st, pw, true).0.saved == Some(KeyFor(env, f, s, pw))
  {
    PutGet(d, f, s);
    hide Get, Put;
  }

  // --------------------------------------------------------------------- the programs

  /** The daemon: `disk` behind the block device, the saved master key in its memory. */
  class Vold {
    var disk: seq<Byte>
    var masterKeySaved: bool
    var savedMasterKey: Key

    ghost function Model(): State
      reads this
    {
      State(disk, if masterKeySaved then Some(savedMasterKey) else None)
    }

    constructor (disk: seq<Byte>)
      ensures Model() == State(disk, None)
    {
      this.disk, masterKeySaved, savedMasterKey := disk, false, [];
    }

    /** test_mount_encrypted_fs, called by cryptfs_check_passwd. */
    method TestMountEncryptedFs(env: Env, pw: string, maps: bool) returns (rc: int)
      requires env.Valid() && Model().Valid()
      modifies this
      ensures (Model(), rc) == CheckPasswd(env, old(Model()), pw, maps)
    {
      hide Get, Put;
      if masterKeySaved || !env.encrypted { return -1; }
      var got := Get(disk);
      if got.GetError? { return -1; }
      var ftr := got.ftr;
      var decrypted := env.junk;
      if !ftr.KeyUnencrypted() {
        decrypted := env.c.unwrap(pw, got.secret.salt, got.secret.key);
      }
      if !maps { return -1; }
      if !env.mounts(decrypted) {
        ftr := ftr.(failedCount := (ftr.failedCount + 1) % U32);
      } else {
        ftr := ftr.(failedCount := 0);
      }
      if ftr.failedCount != got.ftr.failedCount {
        disk := Put(disk, ftr, None);
      }
      if ftr.failedCount != 0 {
        rc := ToInt(ftr.failedCount);
      } else {
        savedMasterKey, masterKeySaved := decrypted, true;
        rc := 0;
      }
    }

    /** cryptfs_changepw. */
    method ChangePw(env: Env, newpw: string) returns (rc: int)
      requires env.Valid() && Model().Valid()
      modifies this
      ensures (Model(), rc) == ChangePasswd(env, old(Model()), newpw)
    {
      hide Get, Put;
      if !masterKeySaved { return -1; }
      var got := Get(disk);
      if got.GetError? { return -1; }
      var wrapped := env.c.wrap(newpw, got.secret.salt, savedMasterKey);
      disk := Put(disk, got.ftr, Some(Secret(wrapped, got.secret.salt)));
      rc := 0;
    }
  }
}
