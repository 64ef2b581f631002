/** Synchronising a list of files (core/adb/file_sync_client.c, copy_local_dir_remote): all
    STAT requests are sent before any reply is read, then the files that differ are pushed. */
module SyncDir {
  import opened Bytes
  import opened SyncWire
  import opened SyncDisk
  import opened SyncPush
  import opened SyncServe

  // ------------------------------------------------------------------------ what differs

  /** What a push will send: how the local file will be read, or the target of the local link. */
  datatype Content = Pieces(chunks: seq<Text>) | Target(text: Text)

  /** One file or link to synchronise. */
  datatype Entry = Entry(src: Text, dst: Text, time: nat, mode: nat, size: nat, content: Content)
  {
    predicate Fits() {
      && 0 !in dst && |dst| < 0x7FFF_0000 && mode < 65536 && time < U32 && size < U32
      && match content
         case Pieces(chunks) => IsReg(mode) && Cut(chunks)
         case Target(text) => IsLnk(mode) && 0 !in text && |text| < DATA_MAX
    }

    function Chunks(): seq<Text> {
      match content
      case Pieces(chunks) => chunks
      case Target(text) => [text + [0]]
    }

    /** The size the local file has when it is read as `content` says. */
    predicate SizeRight() {
      match content
      case Pieces(chunks) => size == |Concat(chunks)|
      case Target(text) => size == |text|
    }
  }

  /** Bitwise conjunction of two file types. */
  function AndTypes(x: nat, y: nat): nat
    requires x < 16 && y < 16
  {
    (if x / 8 == 1 && y / 8 == 1 then 8 else 0) + (if x / 4 % 2 == 1 && y / 4 % 2 == 1 then 4 else 0)
    + (if x / 2 % 2 == 1 && y / 2 % 2 == 1 then 2 else 0) + (if x % 2 == 1 && y % 2 == 1 then 1 else 0)
  }

  /** S_ISREG and S_ISLNK of the conjunction of two modes, as the client compares types. */
  predicate BothReg(a: nat, b: nat) { AndTypes(TypeOf(a), TypeOf(b)) == 8 }
  predicate BothLnk(a: nat, b: nat) { AndTypes(TypeOf(a), TypeOf(b)) == 10 }

  /** The client's test for "nothing to do". */
  predicate UpToDate(e: Entry, st: Stat) {
    st.size == e.size
    && ((BothReg(e.mode, st.mode) && st.time == e.time) || (BothLnk(e.mode, st.mode) && st.time >= e.time))
  }

  /** What that test means on the device: equal size, and for a local file an equal time and a remote file, link or
      socket; for a local link a remote link that is not older, or a remote file or socket of equal time. */
  predicate Matches(e: Entry, files: Files) {
    && e.dst in files
    && var f := files[e.dst];
       && |f.data| % U32 == e.size
       && if IsReg(e.mode) then f.mtime % U32 == e.time && f.kind in {Regular, Link, Socket}
          else if f.kind == Link then f.mtime % U32 >= e.time
          else f.mtime % U32 == e.time && f.kind in {Regular, Socket}
  }

  /** For a local regular file the type test accepts every remote type whose code has the
      high bit: a link or a socket as well as a regular file. */
  lemma RegMatchExactly(local: nat, f: File)
    requires IsReg(local)
    ensures BothReg(local, ModeOf(f)) <==> f.kind in {Regular, Link, Socket}
    ensures !BothLnk(local, ModeOf(f))
  {
    hide ModeOf;
  }

  /** For a local link it accepts a link, and a regular file or a socket as if both were regular files. */
  lemma LnkMatchExactly(local: nat, f: File)
    requires IsLnk(local)
    ensures BothReg(local, ModeOf(f)) <==> f.kind in {Regular, Socket}
    ensures BothLnk(local, ModeOf(f)) <==> f.kind == Link
  {
    hide ModeOf;
  }

  lemma NoModeNoMatch(local: nat)
    ensures !BothReg(local, 0) && !BothLnk(local, 0)
  {
  }

  /** An entry is skipped exactly when it matches what the device has. */
  lemma UpToDateExactly(e: Entry, files: Files)
    requires e.Fits()
    ensures UpToDate(e, Lstat(files, e.dst)) <==> Matches(e, files)
  {
    hide BothReg, BothLnk, ModeOf, Cut, TypeOf;
    NoModeNoMatch(e.mode);
    if e.dst in files {
      var f := files[e.dst];
      if IsReg(e.mode) { RegMatchExactly(e.mode, f); } else { LnkMatchExactly(e.mode, f); }
    }
  }

  /** So a remote link of the size and time of a local regular file is taken for that file. */
  lemma LinkTakenForFile(e: Entry, files: Files)
    requires e.Fits() && IsReg(e.mode) && e.dst in files && files[e.dst].kind == Link
    requires |files[e.dst].data| == e.size && files[e.dst].mtime == e.time
    ensures UpToDate(e, Lstat(files, e.dst))
  {
    hide UpToDate, Lstat;
    UpToDateExactly(e, files);
  }

  // ------------------------------------------------------------------------ one push

  /** What pushing an entry comes to: whether the client is told that it worked, and the device afterwards. */
  ghost function PushOne(files: Files, e: Entry, disk: Disk): (bool, Files) {
    if |e.dst| + |ModeSuffix(e.mode)| > NAME_MAX then (false, files)
    else match e.content
      case Pieces(chunks) =>
        (Takes(disk, e.dst, chunks, files),
         Outcome(disk, e.dst, DerivedMode(e.mode), e.time, chunks, [], files).files)
      case Target(text) =>
        var r := LinkOutcome(disk, e.dst, text, [], files);
        (r.alive, r.files)
  }

  /** One push served alone on the stream: the client reads its own status and nothing is left. */
  lemma ServePush(e: Entry, files: Files, ws: nat -> World, k: nat)
    requires e.Fits() && |ws(k).disk.reason| <= 256
    ensures var r := Serve(PushRequest(e.dst, e.mode, e.time, e.Chunks()), files, ws, k);
            var (ok, f) := PushOne(files, e, ws(k).disk);
            ReadStatus(r.out) == Some((ok, [])) && r.files == f
  {
    hide Head, HeadId, HeadWord, ServeSend, ReadStatus, PushRequest, Outcome, LinkOutcome, Serve, Takes, ModeSuffix;
    var s, disk := PushRequest(e.dst, e.mode, e.time, e.Chunks()), ws(k).disk;
    assert s + [] == s;
    SuffixShort(e.mode);
    PushTaken(e.dst, e.mode, e.time, e.Chunks(), [], files, disk);
    ServeSendAlone(s, files, ws, k);
    if |e.dst| + |ModeSuffix(e.mode)| > NAME_MAX {
      FailRead(Ascii("invalid namelen"));
    } else {
      match e.content {
      case Pieces(chunks) =>
        PushDelivers(e.dst, e.mode, e.time, chunks, [], files, disk);
        OutcomeStatus(disk, e.dst, DerivedMode(e.mode), e.time, chunks, files);
      case Target(text) =>
        LinkDelivers(e.dst, e.mode, e.time, text, [], files, disk);
        LinkStatus(disk, e.dst, text, files);
      }
    }
  }

  lemma FailRead(reason: Text)
    requires |reason| <= 256
    ensures ReadStatus(FailMessage(reason)) == Some((false, []))
  {
    assert FailMessage(reason) + [] == FailMessage(reason);
    FailHead(reason, []);
    hide FailMessage, HeadId, HeadWord;
    assert (FailMessage(reason) + [])[8..] == reason + [];
  }

  /** The client reads success exactly when the device took the file. */
  lemma OutcomeStatus(disk: Disk, path: Text, mode: bv16, mtime: nat, chunks: seq<Text>, files: Files)
    requires |disk.reason| <= 256
    ensures var r := Outcome(disk, path, mode, mtime, chunks, [], files);
      r.alive && r.rest == [] && ReadStatus(r.out) == Some((Takes(disk, path, chunks, files), []))
  {
    hide Head, FailMessage, ReadStatus, Concat, AllWritten, Stored, GivenUp, Unlinked, Stuck;
    FailRead(disk.reason);
    assert Head(ID_OKAY, 0) + [] == Head(ID_OKAY, 0);
    StatusAligned(disk, []);
  }

  lemma LinkStatus(disk: Disk, path: Text, text: Text, files: Files)
    requires |disk.reason| <= 256
    ensures var r := LinkOutcome(disk, path, text, [], files); r.rest == [] && ReadStatus(r.out) == Some((r.alive, []))
  {
    hide Head, FailMessage, ReadStatus, Unlinked;
    FailRead(disk.reason);
    assert Head(ID_OKAY, 0) + [] == Head(ID_OKAY, 0);
    StatusAligned(disk, []);
  }

  /** A SEND that uses up the stream is the whole session. */
  lemma ServeSendAlone(s: Text, files: Files, ws: nat -> World, k: nat)
    requires |s| >= 8 && HeadId(s) == ID_SEND && (HeadWord(s) <= NAME_MAX ==> |s| >= 8 + HeadWord(s))
    ensures var r := ServeSend(s, files, ws(k).disk); r.rest == [] ==>
      Serve(s, files, ws, k) == Session(r.files, r.out, r.alive)
  {
    hide HeadId, HeadWord, DoSend, FailMessage, StatReply, Lstat, ListReply, RecvOf;
    var r := ServeSend(s, files, ws(k).disk);
    assert r.out + [] == r.out;
    assert ID_SEND != ID_STAT && ID_SEND != ID_LIST;
  }

  /** The file on the device that an entry stands for. A link gets the time of day. */
  function FileOf(e: Entry, disk: Disk): File {
    match e.content
    case Pieces(chunks) => File(Regular, DerivedMode(e.mode), e.time, Concat(chunks))
    case Target(text) => File(Link, 0x1FF, disk.now, text)
  }

  /** A push that works leaves what was pushed: see HeldExactly for a file. A link always does. */
  ghost predicate Clean(files: Files, e: Entry, disk: Disk) {
    && PushOne(files, e, disk).0
    && match e.content
       case Pieces(chunks) =>
         && (disk.touches || disk.now == e.time)
         && (e.dst !in files || disk.unlinks
             || (var f := files[e.dst];
                 f.kind == Regular && f.mode == DerivedMode(e.mode) && |f.data| <= |Concat(chunks)|))
       case Target(_) => true
  }

  /** A push that the client is told worked left the entry's file on the device exactly when it was clean. */
  lemma PushedExactly(files: Files, e: Entry, disk: Disk)
    requires PushOne(files, e, disk).0
    ensures var r := PushOne(files, e, disk).1;
      (e.dst in r && r[e.dst] == FileOf(e, disk)) <==> Clean(files, e, disk)
  {
    hide Concat, AllWritten, DerivedMode, Stored, ModeSuffix;
    match e.content
    case Pieces(chunks) =>
      hide Outcome;
      HeldExactly(e.dst, DerivedMode(e.mode), e.time, chunks, [], files, disk);
    case Target(_) =>
  }

  /** And then it changed nothing else. */
  lemma CleanPush(files: Files, e: Entry, disk: Disk)
    requires Clean(files, e, disk)
    ensures PushOne(files, e, disk).1 == files[e.dst := FileOf(e, disk)]
  {
    hide Concat, AllWritten, DerivedMode, ModeSuffix;
    match e.content
    case Pieces(chunks) =>
      var cleared := Unlinked(files, e.dst, disk.unlinks);
      assert Goal(cleared, e.dst, disk) == e.dst;
    case Target(_) =>
  }

  // ------------------------------------------------------------------------ all pushes

  /** What the third loop comes to: whether every push worked, the device, how many were made. */
  datatype Pushes = Pushes(ok: bool, files: Files, pushed: nat)

  ghost function PushAll(files: Files, es: seq<Entry>, flags: seq<bool>, ws: nat -> World, k: nat): Pushes
    requires |flags| == |es|
    decreases |es|
  {
    if es == [] then Pushes(true, files, 0)
    else if flags[0] then PushAll(files, es[1..], flags[1..], ws, k)
    else
      var (ok, f) := PushOne(files, es[0], ws(k).disk);
      if !ok then Pushes(false, f, 0)
      else
        var r := PushAll(f, es[1..], flags[1..], ws, k + 1);
        r.(pushed := r.pushed + 1)
  }

  /** Every push of the unflagged entries is clean. */
  ghost predicate AllClean(files: Files, es: seq<Entry>, flags: seq<bool>, ws: nat -> World, k: nat)
    requires |flags| == |es|
    decreases |es|
  {
    es == []
    || (if flags[0] then AllClean(files, es[1..], flags[1..], ws, k)
        else Clean(files, es[0], ws(k).disk)
             && AllClean(files[es[0].dst := FileOf(es[0], ws(k).disk)], es[1..], flags[1..], ws, k + 1))
  }

  /** The device after every unflagged entry was delivered. */
  function Deliver(files: Files, es: seq<Entry>, flags: seq<bool>, ws: nat -> World, k: nat): Files
    requires |flags| == |es|
    decreases |es|
  {
    if es == [] then files
    else if flags[0] then Deliver(files, es[1..], flags[1..], ws, k)
    else Deliver(files[es[0].dst := FileOf(es[0], ws(k).disk)], es[1..], flags[1..], ws, k + 1)
  }

  function Unflagged(flags: seq<bool>): nat {
    if flags == [] then 0 else (if flags[0] then 0 else 1) + Unflagged(flags[1..])
  }

  /** Clean pushes deliver every unflagged entry. */
  lemma {:induction false} CleanDelivers(files: Files, es: seq<Entry>, flags: seq<bool>, ws: nat -> World, k: nat)
    requires |flags| == |es| && AllClean(files, es, flags, ws, k)
    ensures PushAll(files, es, flags, ws, k) == Pushes(true, Deliver(files, es, flags, ws, k), Unflagged(flags))
    decreases |es|
  {
    hide Clean, FileOf, PushOne;
    if es != [] {
      if flags[0] {
        CleanDelivers(files, es[1..], flags[1..], ws, k);
      } else {
        CleanPush(files, es[0], ws(k).disk);
        CleanWorks(files, es[0], ws(k).disk);
        CleanDelivers(files[es[0].dst := FileOf(es[0], ws(k).disk)], es[1..], flags[1..], ws, k + 1);
      }
    }
  }

  lemma CleanWorks(files: Files, e: Entry, disk: Disk)
    requires Clean(files, e, disk)
    ensures PushOne(files, e, disk).0
  {
  }

  predicate DistinctDsts(es: seq<Entry>) {
    forall i, j :: 0 <= i < j < |es| ==> es[i].dst != es[j].dst
  }

  /** Pushing the k-th entry does not touch the destination `p`. */
  predicate Spares(es: seq<Entry>, flags: seq<bool>, p: Text)
    requires |flags| == |es|
  {
    forall i :: 0 <= i < |es| ==> flags[i] || es[i].dst != p
  }

  /** With distinct destinations: a path that is nobody's destination, or a flagged one's, is left as it was. */
  lemma {:induction false} DeliverElsewhere(files: Files, es: seq<Entry>, flags: seq<bool>, ws: nat -> World, k: nat,
                                            p: Text)
    requires |flags| == |es| && Spares(es, flags, p)
    ensures p in Deliver(files, es, flags, ws, k) <==> p in files
    ensures p in files ==> Deliver(files, es, flags, ws, k)[p] == files[p]
    decreases |es|
  {
    hide FileOf;
    if es != [] {
      assert Spares(es[1..], flags[1..], p);
      if flags[0] {
        DeliverElsewhere(files, es[1..], flags[1..], ws, k, p);
      } else {
        DeliverElsewhere(files[es[0].dst := FileOf(es[0], ws(k).disk)], es[1..], flags[1..], ws, k + 1, p);
      }
    }
  }

  /** An unflagged destination holds what its entry stands for. */
  lemma {:induction false} DeliverAt(files: Files, es: seq<Entry>, flags: seq<bool>, ws: nat -> World, k: nat, i: nat)
    returns (at: nat)
    requires |flags| == |es| && DistinctDsts(es) && i < |es| && !flags[i]
    ensures k <= at && es[i].dst in Deliver(files, es, flags, ws, k)
    ensures Deliver(files, es, flags, ws, k)[es[i].dst] == FileOf(es[i], ws(at).disk)
    decreases |es|
  {
    hide FileOf;
    assert DistinctDsts(es[1..]);
    var next := if flags[0] then files else files[es[0].dst := FileOf(es[0], ws(k).disk)];
    var k' := if flags[0] then k else k + 1;
    if i == 0 {
      at := k;
      forall j | 0 <= j < |es[1..]| ensures flags[1..][j] || es[1..][j].dst != es[0].dst {
        assert es[1..][j] == es[j + 1];
      }
      DeliverElsewhere(next, es[1..], flags[1..], ws, k', es[0].dst);
    } else {
      assert es[1..][i - 1] == es[i] && flags[1..][i - 1] == flags[i];
      at := DeliverAt(next, es[1..], flags[1..], ws, k', i - 1);
    }
  }

  // -------------------------------------------------------------------- the programs

  ghost function Dsts(es: seq<Entry>): (r: seq<Text>)
    ensures |r| == |es| && forall i :: 0 <= i < |es| ==> r[i] == es[i].dst
  {
    seq(|es|, i requires 0 <= i < |es| => es[i].dst)
  }

  /** The first loop: all requests go out before anything is read. */
  method StartReadtimes(es: seq<Entry>) returns (sent: Text)
    ensures sent == StatRequests(Dsts(es))
  {
    hide StatRequest;
    sent := [];
    var i := 0;
    assert Dsts(es)[0..] == Dsts(es);
    while i < |es|
      invariant 0 <= i <= |es|
      invariant sent + StatRequests(Dsts(es)[i..]) == StatRequests(Dsts(es))
    {
      assert Dsts(es)[i..][1..] == Dsts(es)[i + 1..];
      sent := sent + StatRequest(es[i].dst);
      i := i + 1;
    }
    assert sent + [] == sent;
  }

  /** The second loop: replies are taken from the stream in order and compared. It fails exactly when a path was too
      long for the service. */
  method FinishReadtimes(es: seq<Entry>, input: Text, ghost files: Files) returns (ok: bool, flags: seq<bool>)
    requires input == StatReplies(files, Dsts(es)) && forall i :: 0 <= i < |es| ==> es[i].Fits()
    ensures ok <==> Short(Dsts(es))
    ensures ok ==> |flags| == |es| && forall i :: 0 <= i < |es| ==> (flags[i] <==> Matches(es[i], files))
  {
    hide StatReply, StatReplies, Lstat, UpToDate, FinishReadtime, Entry.Fits, Matches;
    flags := [];
    var s, i := input, 0;
    assert Dsts(es)[0..] == Dsts(es);
    while i < |es|
      invariant 0 <= i <= |es| == |Dsts(es)| && |flags| == i && Short(Dsts(es)[..i])
      invariant s == StatReplies(files, Dsts(es)[i..])
      invariant forall j :: 0 <= j < i ==> (flags[j] <==> Matches(es[j], files))
    {
      ReplyStep(files, Dsts(es), i);
      var r := FinishReadtime(s);
      if r.None? { return false, flags; }
      UpToDateExactly(es[i], files);
      flags := flags + [UpToDate(es[i], r.value.0)];
      s := r.value.1;
      i := i + 1;
    }
    assert Dsts(es)[..i] == Dsts(es);
    ok := true;
  }

  /** The next answer is the status of the next path, or no status at all. */
  lemma ReplyStep(files: Files, paths: seq<Text>, i: nat)
    requires i < |paths|
    ensures FinishReadtime(StatReplies(files, paths[i..])) ==
      if |paths[i]| <= NAME_MAX then Some((Lstat(files, paths[i]), StatReplies(files, paths[i + 1..]))) else None
    ensures |paths[i]| <= NAME_MAX && Short(paths[..i]) ==> Short(paths[..i + 1])
  {
    hide StatReply, Lstat, FailMessage;
    assert paths[i..][1..] == paths[i + 1..];
    LstatFits(files, paths[i]);
    StatReplyRoundTrip(Lstat(files, paths[i]), StatReplies(files, paths[i + 1..]));
    FailNoStat(Ascii("invalid namelen"));
  }

  lemma FailNoStat(reason: Text)
    ensures FinishReadtime(FailMessage(reason)) == None
  {
    assert FailMessage(reason)[..4] == ID_FAIL != ID_STAT;
  }

  /** One turn of the third loop for an unflagged entry: sync_send against a service that answers before the next
      request is made. */
  method PushEntry(e: Entry, files0: Files, ws: nat -> World, k: nat) returns (ok: bool, files: Files)
    requires e.Fits() && |ws(k).disk.reason| <= 256
    ensures (ok, files) == PushOne(files0, e, ws(k).disk)
  {
    ServePush(e, files0, ws, k);
    hide Serve, PushRequest, ReadStatus, Outcome, LinkOutcome, Takes;
    if |e.dst| > 1024 { return false, files0; }
    var reply := Serve(PushRequest(e.dst, e.mode, e.time, e.Chunks()), files0, ws, k);
    var status := ReadStatus(reply.out);
    ok, files := status.Some? && status.value.0, reply.files;
  }

  /** The third loop: push what is not flagged, one file at a time, stopping at a failure. */
  method PushUnflagged(es: seq<Entry>, flags: seq<bool>, files0: Files, ws: nat -> World, listonly: bool)
    returns (rc: int, pushed: nat, skipped: nat, files: Files)
    requires |flags| == |es| && forall i :: 0 <= i < |es| ==> es[i].Fits()
    requires forall k :: |ws(k).disk.reason| <= 256
    ensures rc == 0 || rc == 1
    ensures rc == 0 ==> pushed + skipped == |es| && pushed == Unflagged(flags)
    ensures listonly ==> rc == 0 && files == files0
    ensures !listonly ==> Pushes(rc == 0, files, pushed) == PushAll(files0, es, flags, ws, 0)
  {
    hide PushOne, PushAll, Unflagged, Entry.Fits;
    pushed, skipped, files, rc := 0, 0, files0, 1;
    var i := 0;
    assert es[0..] == es && flags[0..] == flags;
    while i < |es|
      invariant 0 <= i <= |es| && pushed + skipped == i && pushed + Unflagged(flags[i..]) == Unflagged(flags)
      invariant listonly ==> files == files0
      invariant !listonly ==> Ahead(PushAll(files, es[i..], flags[i..], ws, pushed), pushed)
                              == PushAll(files0, es, flags, ws, 0)
    {
      PushAllStep(files, es, flags, ws, pushed, i);
      if !flags[i] {
        if !listonly {
          var ok;
          ok, files := PushEntry(es[i], files, ws, pushed);
          if !ok { return; }
        }
        pushed := pushed + 1;
      } else {
        skipped := skipped + 1;
      }
      i := i + 1;
    }
    PushAllEnd(files, es, flags, ws, pushed);
    rc := 0;
  }

  /** Pushes that are still to be made, behind `n` that were. */
  function Ahead(r: Pushes, n: nat): Pushes { r.(pushed := r.pushed + n) }

  lemma PushAllStep(files: Files, es: seq<Entry>, flags: seq<bool>, ws: nat -> World, k: nat, i: nat)
    requires i < |es| == |flags|
    ensures Unflagged(flags[i..]) == (if flags[i] then 0 else 1) + Unflagged(flags[i + 1..])
    ensures flags[i] ==>
      PushAll(files, es[i..], flags[i..], ws, k) == PushAll(files, es[i + 1..], flags[i + 1..], ws, k)
    ensures !flags[i] ==>
      var (ok, f) := PushOne(files, es[i], ws(k).disk);
      Ahead(PushAll(files, es[i..], flags[i..], ws, k), k)
      == if ok then Ahead(PushAll(f, es[i + 1..], flags[i + 1..], ws, k + 1), k + 1) else Pushes(false, f, k)
  {
    hide PushOne;
    assert es[i..][1..] == es[i + 1..] && flags[i..][1..] == flags[i + 1..];
  }

  lemma PushAllEnd(files: Files, es: seq<Entry>, flags: seq<bool>, ws: nat -> World, k: nat)
    requires |es| == |flags|
    ensures PushAll(files, es[|es|..], flags[|es|..], ws, k) == Pushes(true, files, 0) && Unflagged(flags[|es|..]) == 0
  {
  }

  /** copy_local_dir_remote on a built list, both ends together: each entry is skipped exactly when it matches, the rest
      are pushed up to the first push that fails, and the counts add up. If every push is clean, the device holds every
      entry that was not skipped. */
  method CopyLocalDirRemote(es: seq<Entry>, files0: Files, ws: nat -> World, check: bool, listonly: bool)
    returns (rc: int, pushed: nat, skipped: nat, files: Files, flags: seq<bool>)
    requires forall i :: 0 <= i < |es| ==> es[i].Fits()
    requires forall k :: |ws(k).disk.reason| <= 256
    ensures check && !Short(Dsts(es)) ==> rc == 1 && files == files0 && pushed == 0
    ensures check ==> Short(Dsts(es)) ==>
      |flags| == |es| && forall i :: 0 <= i < |es| ==> (flags[i] <==> Matches(es[i], files0))
    ensures !check ==> |flags| == |es| && forall i :: 0 <= i < |es| ==> !flags[i]
    ensures (check ==> Short(Dsts(es))) ==>
      && |flags| == |es|
      && (rc == 0 ==> pushed + skipped == |es| && pushed == Unflagged(flags))
      && (listonly ==> rc == 0 && files == files0)
      && (!listonly ==>
            var r := PushAll(files0, es, flags, ws, 0); (rc == 0 <==> r.ok) && files == r.files)
      && (!listonly && AllClean(files0, es, flags, ws, 0) ==> rc == 0 && files == Deliver(files0, es, flags, ws, 0))
  {
    hide Serve, StatRequests, StatReplies, Matches, PushAll, AllClean, Deliver, Unflagged, Entry.Fits;
    flags, pushed, skipped, files, rc := seq(|es|, _ => false), 0, 0, files0, 1;
    if check {
      var sent := StartReadtimes(es);
      var session := Serve(sent, files0, ws, 0);
      DstsFit(es);
      assert sent + [] == sent;
      StatPipeline(Dsts(es), [], files0, ws, 0);
      ServeNothing(files0, ws, |es|);
      assert StatReplies(files0, Dsts(es)) + [] == StatReplies(files0, Dsts(es));
      var ok;
      ok, flags := FinishReadtimes(es, session.out, files0);
      if !ok { return; }
    }
    rc, pushed, skipped, files := PushUnflagged(es, flags, files0, ws, listonly);
    if AllClean(files0, es, flags, ws, 0) { CleanDelivers(files0, es, flags, ws, 0); }
  }

  lemma DstsFit(es: seq<Entry>)
    requires forall i :: 0 <= i < |es| ==> es[i].Fits()
    ensures PathsFit(Dsts(es))
  {
  }

  /** What a clean synchronisation leaves at the destination of an entry that was not skipped: a regular file with the
      bytes and the time of the local one and the permissions that follow from its mode, or a link with its target. */
  lemma DeliveredHolds(files: Files, es: seq<Entry>, flags: seq<bool>, ws: nat -> World, i: nat)
    requires |flags| == |es| && DistinctDsts(es) && i < |es| && !flags[i] && es[i].Fits()
    ensures es[i].dst in Deliver(files, es, flags, ws, 0)
    ensures var f := Deliver(files, es, flags, ws, 0)[es[i].dst];
      match es[i].content
      case Pieces(chunks) =>
        f.kind == Regular && f.data == Concat(chunks) && f.mtime == es[i].time && Permits(f.mode, es[i].mode)
      case Target(text) => f.kind == Link && f.data == text && f.mode == 0x1FF
  {
    hide Deliver, Concat, DerivedMode, Permits, Cut, TypeOf;
    var at := DeliverAt(files, es, flags, ws, 0, i);
    DeriveModeBits(es[i].mode);
  }

  // ------------------------------------------------------------------ synchronised twice

  /** What was just delivered counts as up to date, a link provided the device's clock is not behind. */
  lemma DeliveredMatches(e: Entry, files: Files, disk: Disk)
    requires e.Fits() && e.SizeRight() && e.dst in files && files[e.dst] == FileOf(e, disk)
    requires e.content.Target? ==> e.time <= disk.now < U32
    ensures Matches(e, files)
  {
    hide Concat, DerivedMode, Cut, TypeOf;
  }

  /** After a synchronisation, a second one has nothing left to push. */
  lemma SecondSyncSkipsAll(files: Files, es: seq<Entry>, flags: seq<bool>, ws: nat -> World, i: nat)
    requires |flags| == |es| && i < |es| && DistinctDsts(es)
    requires forall j :: 0 <= j < |es| ==> es[j].Fits() && es[j].SizeRight()
    requires forall j, k :: 0 <= j < |es| && es[j].content.Target? ==> es[j].time <= ws(k).disk.now < U32
    requires forall j :: 0 <= j < |es| ==> (flags[j] <==> Matches(es[j], files))
    ensures Matches(es[i], Deliver(files, es, flags, ws, 0))
  {
    hide Concat, FileOf, Deliver, Entry.Fits, Entry.SizeRight;
    if !flags[i] {
      var at := DeliverAt(files, es, flags, ws, 0, i);
      DeliveredMatches(es[i], Deliver(files, es, flags, ws, 0), ws(at).disk);
    } else {
      forall j | 0 <= j < |es| ensures flags[j] || es[j].dst != es[i].dst {
      }
      DeliverElsewhere(files, es, flags, ws, 0, es[i].dst);
    }
  }
}
