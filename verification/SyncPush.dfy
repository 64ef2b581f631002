/** Pushing a file or a link: sync_send in core/adb/file_sync_client.c against do_send, handle_send_file and
    handle_send_link in core/adb/file_sync_service.c. Each end is a function of the bytes it reads; the theorems
    run the two against each other. */
module SyncPush {
  import opened Bytes
  import opened SyncWire
  import opened SyncDisk

  function Ascii(s: string): (r: Text)
    ensures |r| == |s|
  {
    seq(|s|, i requires 0 <= i < |s| => s[i] as int % 256)
  }

  /** fail_message: FAIL, the length, the reason. */
  function FailMessage(reason: Text): Text { Head(ID_FAIL, |reason|) + reason }

  // -------------------------------------------------------------------- the service

  /** The file being written: it could not be opened, it takes data, or a write has failed. */
  datatype Writer = Unopened | Open(data: Text) | Broken(data: Text)

  /** Where the data loop of handle_send_file ends: `Drained` at DONE, `Stopped` on a broken or
      malformed stream. `out` is everything sent so far. */
  datatype Drain = Stopped(w: Writer, out: Text) | Drained(w: Writer, mtime: nat, rest: Text, out: Text)

  /** What a failing write stores of its data. */
  function Torn(c: Text, disk: Disk): Text { if disk.torn <= |c| then c[..disk.torn] else c }

  function DrainData(s: Text, w: Writer, k: nat, disk: Disk, out: Text): (r: Drain)
    ensures r.Drained? ==> |r.rest| + 8 <= |s|
    ensures r.w.Unopened? <==> w.Unopened?
    decreases |s|
  {
    if |s| < 8 then Stopped(w, out)
    else if HeadId(s) == ID_DONE then Drained(w, HeadWord(s), s[8..], out)
    else if HeadId(s) != ID_DATA then Stopped(w, out + FailMessage(Ascii("invalid data message")))
    else if HeadWord(s) > DATA_MAX then Stopped(w, out + FailMessage(Ascii("oversize data message")))
    else if |s| < 8 + HeadWord(s) then Stopped(w, out)
    else
      var n := 8 + HeadWord(s);
      if !w.Open? then DrainData(s[n..], w, k + 1, disk, out)
      else if disk.writes(k) then DrainData(s[n..], Open(w.data + s[8..n]), k + 1, disk, out)
      else DrainData(s[n..], Broken(w.data + Torn(s[8..n], disk)), k + 1, disk, out + FailMessage(disk.reason))
  }

  /** What serving one command leaves: `alive` unless the service gives up on the stream. */
  datatype Served = Served(alive: bool, rest: Text, files: Files, out: Text)

  /** The device when a transfer is given up: what was written, unlinked if that works. */
  function GivenUp(files: Files, path: Text, mode: bv16, disk: Disk, w: Writer): Files
    requires w.Unopened? || Openable(files, path, disk)
  {
    Unlinked(if w.Unopened? then files else Stored(files, path, mode, disk, w.data, disk.now), path, disk.cleans)
  }

  function HandleSendFile(s: Text, files: Files, path: Text, mode: bv16, disk: Disk): (r: Served)
    ensures r.alive ==> |r.rest| + 8 <= |s|
  {
    var can := Openable(files, path, disk);
    var d := DrainData(s, if can then Open([]) else Unopened, 0, disk, if can then [] else FailMessage(disk.reason));
    if d.Stopped? then Served(false, [], GivenUp(files, path, mode, disk, d.w), d.out)
    else match d.w
      case Unopened => Served(true, d.rest, files, d.out)
      case Broken(_) => Served(true, d.rest, GivenUp(files, path, mode, disk, d.w), d.out)
      case Open(data) =>
        Served(true, d.rest, Stored(files, path, mode, disk, data, if disk.touches then d.mtime else disk.now),
               d.out + Head(ID_OKAY, 0))
  }

  /** handle_send_link: one DATA message with the target, then DONE. Any failure ends the service. */
  function HandleSendLink(s: Text, files: Files, path: Text, disk: Disk): (r: Served)
    ensures r.alive ==> |r.rest| + 8 <= |s|
  {
    if |s| < 8 then Served(false, [], files, [])
    else if HeadId(s) != ID_DATA then
      Served(false, [], files, FailMessage(Ascii("invalid data message: expected ID_DATA")))
    else if HeadWord(s) > DATA_MAX then Served(false, [], files, FailMessage(Ascii("oversize data message")))
    else if |s| < 8 + HeadWord(s) then Served(false, [], files, [])
    else if !disk.opens || path in files then Served(false, [], files, FailMessage(disk.reason))
    else
      var n := 8 + HeadWord(s);
      var linked := files[path := File(Link, 0x1FF, disk.now, CString(s[8..n] + disk.stale))];
      if |s| < n + 8 then Served(false, [], linked, [])
      else if HeadId(s[n..]) == ID_DONE then Served(true, s[n + 8..], linked, Head(ID_OKAY, 0))
      else Served(false, [], linked, FailMessage(Ascii("invalid data message: expected ID_DONE")))
  }

  /** do_send's reading of a request name: path, permission bits, symbolic link or not. */
  datatype Target = Target(path: Text, mode: bv16, link: bool)

  function ParseTarget(name: Text): Target {
    var s := CString(name);
    var c := LastComma(s);
    if c < 0 then Target(s, DeriveMode(0x1A4), false)
    else match StrToUl(s[c + 1..])
      case None => Target(s[..c], DeriveMode(0x1A4), false)
      case Some(m) => Target(s[..c], DerivedMode(m), IsLnk(m))
  }

  /** do_send behind its name: an older file is unlinked, then file or link follow. */
  function DoSend(s: Text, files: Files, name: Text, disk: Disk): (r: Served)
    ensures r.alive ==> |r.rest| + 8 <= |s|
  {
    var t := ParseTarget(name);
    var cleared := Unlinked(files, t.path, disk.unlinks);
    if t.link then HandleSendLink(s, cleared, t.path, disk) else HandleSendFile(s, cleared, t.path, t.mode, disk)
  }

  /** One SEND command at the front of the stream. */
  function ServeSend(s: Text, files: Files, disk: Disk): (r: Served)
    requires |s| >= 8 && HeadId(s) == ID_SEND
    ensures r.alive ==> |r.rest| < |s|
  {
    var n := HeadWord(s);
    if n > NAME_MAX then Served(false, [], files, FailMessage(Ascii("invalid namelen")))
    else if |s| < 8 + n then Served(false, [], files, FailMessage(Ascii("filename read failure")))
    else DoSend(s[8 + n..], files, s[8..8 + n], disk)
  }

  // --------------------------------------------------------------------- the client

  function DataMessages(chunks: seq<Text>): Text {
    if chunks == [] then [] else Head(ID_DATA, |chunks[0]|) + chunks[0] + DataMessages(chunks[1..])
  }

  function Concat(chunks: seq<Text>): Text {
    if chunks == [] then [] else chunks[0] + Concat(chunks[1..])
  }

  /** How read(2) may deliver a local file: non-empty pieces that fit the send buffer. */
  predicate Cut(chunks: seq<Text>) {
    forall c :: c in chunks ==> 1 <= |c| <= DATA_MAX
  }

  function ModeSuffix(mode: nat): Text { [0x2C] + Decimal(mode) }

  /** Everything sync_send writes before it waits for the answer. */
  function PushRequest(path: Text, mode: nat, mtime: nat, chunks: seq<Text>): Text {
    Head(ID_SEND, |path| + |ModeSuffix(mode)|) + path + ModeSuffix(mode)
    + DataMessages(chunks) + Head(ID_DONE, mtime)
  }

  /** How many bytes of a reason the client reads into its 64-kilobyte buffer. The length is a signed int: it is cut to
      256 bytes unless it is negative. */
  function ReasonRead(s: Text): nat {
    if |s| < 8 || HeadId(s) != ID_FAIL then 0 else if 256 < HeadWord(s) < 0x8000_0000 then 256 else HeadWord(s)
  }

  /** What sync_send makes of the answer: success or not, and the stream behind it; None when
      the stream ends early. */
  function ReadStatus(s: Text): Option<(bool, Text)> {
    if |s| < 8 then None
    else if HeadId(s) == ID_OKAY then Some((true, s[8..]))
    else if HeadId(s) == ID_FAIL then
      var n := ReasonRead(s);
      if |s| < 8 + n then None else Some((false, s[8 + n..]))
    else Some((false, s[8..]))
  }

  // -------------------------------------------------------------------- the theorems

  /** All writes from the k-th on, `n` of them, succeed. */
  ghost predicate AllWritten(disk: Disk, k: nat, n: nat) {
    forall i :: k <= i < k + n ==> disk.writes(i)
  }

  /** The bytes stored up to the first failing write, from the k-th on. */
  function Stuck(disk: Disk, k: nat, chunks: seq<Text>): Text
    decreases |chunks|
  {
    if chunks == [] then []
    else if disk.writes(k) then chunks[0] + Stuck(disk, k + 1, chunks[1..])
    else Torn(chunks[0], disk)
  }

  /** One DATA message is one step of the service's loop. */
  lemma DrainOne(c: Text, tail: Text, w: Writer, k: nat, disk: Disk, out: Text)
    requires |c| <= DATA_MAX
    ensures DrainData(Head(ID_DATA, |c|) + c + tail, w, k, disk, out) ==
      if !w.Open? then DrainData(tail, w, k + 1, disk, out)
      else if disk.writes(k) then DrainData(tail, Open(w.data + c), k + 1, disk, out)
      else DrainData(tail, Broken(w.data + Torn(c, disk)), k + 1, disk, out + FailMessage(disk.reason))
  {
    hide Head, HeadId, HeadWord, FailMessage, Torn;
    var s := Head(ID_DATA, |c|) + c + tail;
    assert s == Head(ID_DATA, |c|) + (c + tail);
    HeadRoundTrip(ID_DATA, |c|, c + tail);
    assert s[8 + |c|..] == tail;
    assert s[8..8 + |c|] == c;
  }

  lemma DrainEnd(mtime: nat, rest: Text, w: Writer, k: nat, disk: Disk, out: Text)
    requires mtime < U32
    ensures DrainData(Head(ID_DONE, mtime) + rest, w, k, disk, out) == Drained(w, mtime, rest, out)
  {
    HeadRoundTrip(ID_DONE, mtime, rest);
  }

  /** The stream of one transfer, message by message. */
  lemma StreamStep(chunks: seq<Text>, mtime: nat, rest: Text)
    ensures chunks == [] ==>
      DataMessages(chunks) + Head(ID_DONE, mtime) + rest == Head(ID_DONE, mtime) + rest
    ensures chunks != [] ==>
      DataMessages(chunks) + Head(ID_DONE, mtime) + rest ==
      Head(ID_DATA, |chunks[0]|) + chunks[0] + (DataMessages(chunks[1..]) + Head(ID_DONE, mtime) + rest)
  {
    hide Head;
  }

  /** With the file closed the service discards everything up to DONE, silently. */
  lemma {:induction false} DrainClosed(chunks: seq<Text>, mtime: nat, rest: Text, w: Writer, k: nat, disk: Disk,
                                       out: Text)
    requires Cut(chunks) && mtime < U32 && !w.Open?
    ensures DrainData(DataMessages(chunks) + Head(ID_DONE, mtime) + rest, w, k, disk, out)
         == Drained(w, mtime, rest, out)
    decreases |chunks|
  {
    hide DrainData, Head, DataMessages;
    StreamStep(chunks, mtime, rest);
    if chunks == [] {
      DrainEnd(mtime, rest, w, k, disk, out);
    } else {
      DrainOne(chunks[0], DataMessages(chunks[1..]) + Head(ID_DONE, mtime) + rest, w, k, disk, out);
      DrainClosed(chunks[1..], mtime, rest, w, k + 1, disk, out);
    }
  }

  /** The service's loop run on what the client's loop writes: with every write succeeding it
      collects the whole file; after a failing one it drains to DONE, having sent one FAIL. */
  lemma {:induction false} DrainChunks(
    chunks: seq<Text>, mtime: nat, rest: Text, data: Text, k: nat, disk: Disk, out: Text)
    requires Cut(chunks) && mtime < U32
    ensures DrainData(DataMessages(chunks) + Head(ID_DONE, mtime) + rest, Open(data), k, disk, out) ==
      if AllWritten(disk, k, |chunks|) then Drained(Open(data + Concat(chunks)), mtime, rest, out)
      else Drained(Broken(data + Stuck(disk, k, chunks)), mtime, rest, out + FailMessage(disk.reason))
    decreases |chunks|
  {
    hide DrainData, Head, FailMessage, DataMessages, Cut, Concat, AllWritten, Torn, Stuck;
    StreamStep(chunks, mtime, rest);
    WrittenStep(chunks, data, k, disk);
    if chunks == [] {
      DrainEnd(mtime, rest, Open(data), k, disk, out);
    } else {
      var c, cs := chunks[0], chunks[1..];
      DrainOne(c, DataMessages(cs) + Head(ID_DONE, mtime) + rest, Open(data), k, disk, out);
      if disk.writes(k) {
        DrainChunks(cs, mtime, rest, data + c, k + 1, disk, out);
      } else {
        DrainClosed(cs, mtime, rest, Broken(data + Torn(c, disk)), k + 1, disk, out + FailMessage(disk.reason));
      }
    }
  }

  lemma WrittenStep(chunks: seq<Text>, data: Text, k: nat, disk: Disk)
    requires Cut(chunks)
    ensures chunks == [] ==> AllWritten(disk, k, 0) && data + Concat(chunks) == data
    ensures chunks != [] ==>
      && |chunks[0]| <= DATA_MAX && Cut(chunks[1..])
      && data + Concat(chunks) == data + chunks[0] + Concat(chunks[1..])
      && (AllWritten(disk, k, |chunks|) <==> disk.writes(k) && AllWritten(disk, k + 1, |chunks| - 1))
      && data + Stuck(disk, k, chunks)
         == if disk.writes(k) then data + chunks[0] + Stuck(disk, k + 1, chunks[1..]) else data + Torn(chunks[0], disk)
  {
    hide Torn;
    AllWrittenStep(disk, k, |chunks|);
    if chunks != [] {
      hide AllWritten;
      Assoc(data, chunks[0], Concat(chunks[1..]));
      Assoc(data, chunks[0], Stuck(disk, k + 1, chunks[1..]));
    }
  }

  lemma AllWrittenStep(disk: Disk, k: nat, n: nat)
    ensures n == 0 ==> AllWritten(disk, k, n)
    ensures n > 0 ==> (AllWritten(disk, k, n) <==> disk.writes(k) && AllWritten(disk, k + 1, n - 1))
  {
  }

  /** The name the client sends is read back as the same path, the derived mode and the type. */
  lemma TargetRoundTrip(path: Text, mode: nat)
    requires 0 !in path && mode < 65536
    ensures ParseTarget(path + ModeSuffix(mode)) == Target(path, DerivedMode(mode), IsLnk(mode))
  {
    hide Decimal, LastComma, StrToUl, CString, DerivedMode, IsLnk;
    var s := path + ModeSuffix(mode);
    assert s == path + [0x2C] + Decimal(mode);
    CStringWhole(s);
    LastCommaIsSuffix(path, mode);
    assert s[|path| + 1..] == Decimal(mode);
    assert s[..|path|] == path;
    DecimalRoundTrip(mode);
  }

  /** The device takes the file: it can be opened and every write succeeds. */
  ghost predicate Takes(disk: Disk, path: Text, chunks: seq<Text>, files: Files) {
    Openable(Unlinked(files, path, disk.unlinks), path, disk) && AllWritten(disk, 0, |chunks|)
  }

  /** What a transfer comes to, behind a command boundary in every case: the data stored and OKAY, or one FAIL. */
  ghost function Outcome(disk: Disk, path: Text, mode: bv16, mtime: nat, chunks: seq<Text>, rest: Text,
                         files: Files): Served {
    var cleared := Unlinked(files, path, disk.unlinks);
    if !Openable(cleared, path, disk) then Served(true, rest, cleared, FailMessage(disk.reason))
    else if AllWritten(disk, 0, |chunks|) then
      Served(true, rest, Stored(cleared, path, mode, disk, Concat(chunks), if disk.touches then mtime else disk.now),
             Head(ID_OKAY, 0))
    else
      Served(true, rest, GivenUp(cleared, path, mode, disk, Broken(Stuck(disk, 0, chunks))), FailMessage(disk.reason))
  }

  lemma SendFileOutcome(
    path: Text, mode: bv16, mtime: nat, chunks: seq<Text>, rest: Text, files: Files, disk: Disk)
    requires mtime < U32 && Cut(chunks)
    ensures HandleSendFile(DataMessages(chunks) + Head(ID_DONE, mtime) + rest,
                           Unlinked(files, path, disk.unlinks), path, mode, disk)
         == Outcome(disk, path, mode, mtime, chunks, rest, files)
  {
    hide DrainData, Head, FailMessage, DataMessages, Concat, AllWritten, Stored, GivenUp, Stuck, Unlinked;
    if Openable(Unlinked(files, path, disk.unlinks), path, disk) {
      DrainChunks(chunks, mtime, rest, [], 0, disk, []);
    } else {
      DrainClosed(chunks, mtime, rest, Unopened, 0, disk, FailMessage(disk.reason));
    }
    assert [] + Concat(chunks) == Concat(chunks) && [] + Stuck(disk, 0, chunks) == Stuck(disk, 0, chunks);
    assert [] + FailMessage(disk.reason) == FailMessage(disk.reason);
    assert [] + Head(ID_OKAY, 0) == Head(ID_OKAY, 0);
  }

  /** The request of a push, taken apart by the service. */
  lemma PushTaken(path: Text, mode: nat, mtime: nat, chunks: seq<Text>, rest: Text, files: Files, disk: Disk)
    requires mode < 65536
    ensures var s := PushRequest(path, mode, mtime, chunks) + rest;
            var n := |path| + |ModeSuffix(mode)|;
            && |s| >= 8 + n && HeadId(s) == ID_SEND && (n < U32 ==> HeadWord(s) == n)
            && (n <= NAME_MAX ==>
                  ServeSend(s, files, disk)
                  == DoSend(DataMessages(chunks) + Head(ID_DONE, mtime) + rest, files, path + ModeSuffix(mode), disk))
            && (NAME_MAX < n < U32 ==>
                  ServeSend(s, files, disk) == Served(false, [], files, FailMessage(Ascii("invalid namelen"))))
  {
    hide DoSend, Head, DataMessages, ModeSuffix, HeadId, HeadWord, FailMessage;
    var sfx := ModeSuffix(mode);
    var body := DataMessages(chunks) + Head(ID_DONE, mtime) + rest;
    var n := |path| + |sfx|;
    var s := PushRequest(path, mode, mtime, chunks) + rest;
    assert s == Head(ID_SEND, n) + (path + sfx + body);
    HeadIdFirst(ID_SEND, n, path + sfx + body);
    if n < U32 {
      HeadRoundTrip(ID_SEND, n, path + sfx + body);
      assert s[8..8 + n] == path + sfx;
      assert s[8 + n..] == body;
    }
  }

  lemma HeadIdFirst(id: Text, word: nat, rest: Text)
    requires |id| == 4
    ensures |Head(id, word) + rest| >= 8 && HeadId(Head(id, word) + rest) == id
  {
    assert (Head(id, word) + rest)[..4] == id;
  }

  /** Pushing: for every path without NUL (commas included), every regular mode, every way the file is cut into
      reads, whatever the disk does and whatever follows on the stream, the service ends at the next command with
      exactly one answer and the device as `Outcome` says. */
  lemma PushDelivers(path: Text, mode: nat, mtime: nat, chunks: seq<Text>, rest: Text, files: Files, disk: Disk)
    requires 0 !in path && IsReg(mode) && mode < 65536 && mtime < U32 && Cut(chunks)
    requires |path| + |ModeSuffix(mode)| <= NAME_MAX
    ensures var s := PushRequest(path, mode, mtime, chunks) + rest;
            |s| >= 8 && HeadId(s) == ID_SEND
            && ServeSend(s, files, disk) == Outcome(disk, path, DerivedMode(mode), mtime, chunks, rest, files)
  {
    hide HandleSendFile, Head, DataMessages, ModeSuffix, ParseTarget, HeadId, HeadWord, Outcome, ServeSend;
    PushTaken(path, mode, mtime, chunks, rest, files, disk);
    TargetRoundTrip(path, mode);
    SendFileOutcome(path, DerivedMode(mode), mtime, chunks, rest, files, disk);
  }

  /** A push that is taken, onto a free path or one that could be freed: the device has a regular file there with
      exactly the bytes sent and the permissions that follow from the mode sent, dated as sent if the date could be set.
      */
  lemma PushStores(path: Text, mode: nat, mtime: nat, chunks: seq<Text>, rest: Text, files: Files, disk: Disk)
    requires 0 !in path && IsReg(mode) && mode < 65536 && mtime < U32 && Cut(chunks)
    requires |path| + |ModeSuffix(mode)| <= NAME_MAX
    requires Takes(disk, path, chunks, files) && (path !in files || disk.unlinks)
    ensures var s := PushRequest(path, mode, mtime, chunks) + rest;
            |s| >= 8 && HeadId(s) == ID_SEND &&
            var r := ServeSend(s, files, disk);
            && r.alive && r.rest == rest && r.out == [0x4F, 0x4B, 0x41, 0x59, 0, 0, 0, 0] && path in r.files
            && var f := r.files[path];
               && f.kind == Regular && f.data == Concat(chunks) && Permits(f.mode, mode)
               && f.mtime == if disk.touches then mtime else disk.now
  {
    OkayBytes();
    hide *;
    PushDelivers(path, mode, mtime, chunks, rest, files, disk);
    OkayLeaves(path, DerivedMode(mode), mtime, chunks, rest, files, disk);
    DeriveModeBits(mode);
  }

  lemma OkayBytes()
    ensures Head(ID_OKAY, 0) == [0x4F, 0x4B, 0x41, 0x59, 0, 0, 0, 0]
  {
    assert Le(0, 4) == [0] + Le(0, 3) && Le(0, 3) == [0] + Le(0, 2) && Le(0, 2) == [0] + Le(0, 1);
  }

  /** A name without a mode, or with one that is none, is read as a regular file that everybody may read and write. */
  lemma NoModeSent(name: Text)
    requires 0 !in name && (0x2C !in name || StrToUl(name[LastComma(name) + 1..]).None?)
    ensures var t := ParseTarget(name); t.mode == 0x1B6 && !t.link
    ensures 0x2C !in name ==> ParseTarget(name).path == name
  {
    CStringWhole(name);
    DefaultMode();
  }

  lemma DefaultMode()
    ensures DeriveMode(0x1A4) == 0x1B6
  {
  }

  /** After OKAY the device holds the file that was pushed, exactly when the times could be set (or fit anyway) and
      there was no old file, it could be unlinked, or it is a regular file of the same mode and no longer than the
      data: it is written over and not truncated. */
  lemma HeldExactly(path: Text, mode: bv16, mtime: nat, chunks: seq<Text>, rest: Text, files: Files, disk: Disk)
    requires Takes(disk, path, chunks, files)
    ensures var r := Outcome(disk, path, mode, mtime, chunks, rest, files);
      && r.out == Head(ID_OKAY, 0) && path in r.files
      && (r.files[path] == File(Regular, mode, mtime, Concat(chunks)) <==>
            && (disk.touches || disk.now == mtime)
            && (path !in files || disk.unlinks
                || (files[path].kind == Regular && files[path].mode == mode && |files[path].data| <= |Concat(chunks)|)))
  {
    hide AllWritten, Concat, Stored;
    StoredExactly(Unlinked(files, path, disk.unlinks), path, mode, disk, Concat(chunks),
                  if disk.touches then mtime else disk.now);
    StoredTime(Unlinked(files, path, disk.unlinks), path, mode, disk, Concat(chunks),
               if disk.touches then mtime else disk.now);
  }

  lemma StoredTime(files: Files, path: Text, mode: bv16, disk: Disk, data: Text, mtime: nat)
    requires Openable(files, path, disk)
    ensures path in Stored(files, path, mode, disk, data, mtime)
    ensures Stored(files, path, mode, disk, data, mtime)[path].mtime == mtime
      || Stored(files, path, mode, disk, data, mtime)[path].kind == Link
    ensures path in files && files[path].kind == Link ==>
      Stored(files, path, mode, disk, data, mtime)[path].kind == Link
  {
  }

  /** After FAIL the path is free exactly when it was free to begin with, as far as nothing could be opened, and
      when the partial file could be unlinked, if a write failed. */
  lemma FreeAfterFailExactly(path: Text, mode: bv16, mtime: nat, chunks: seq<Text>, rest: Text, files: Files,
                             disk: Disk)
    requires !Takes(disk, path, chunks, files)
    ensures var r := Outcome(disk, path, mode, mtime, chunks, rest, files);
      var cleared := Unlinked(files, path, disk.unlinks);
      && r.out == FailMessage(disk.reason)
      && (path !in r.files <==> if Openable(cleared, path, disk) then disk.cleans else path !in cleared)
  {
    hide AllWritten, Stuck, FailMessage;
  }

  /** On a read-only mount the old file stays although FAIL is answered. */
  lemma ReadOnlyMount(path: Text, mode: bv16, mtime: nat, chunks: seq<Text>, rest: Text, files: Files, disk: Disk)
    requires path in files && !disk.unlinks && !disk.opens
    ensures Outcome(disk, path, mode, mtime, chunks, rest, files) == Served(true, rest, files, FailMessage(disk.reason))
  {
  }

  /** A file that can be written but not unlinked keeps its mode, and its tail behind shorter data, although OKAY is
      answered. */
  lemma OldTailKept(path: Text, mode: bv16, mtime: nat, chunks: seq<Text>, rest: Text, files: Files, disk: Disk)
    requires path in files && files[path].kind == Regular && !disk.unlinks && disk.opens && disk.touches
    requires AllWritten(disk, 0, |chunks|) && |Concat(chunks)| < |files[path].data|
    ensures Outcome(disk, path, mode, mtime, chunks, rest, files)
      == Served(true, rest,
                files[path := File(Regular, files[path].mode, mtime,
                                   Concat(chunks) + files[path].data[|Concat(chunks)|..])],
                Head(ID_OKAY, 0))
  {
    hide AllWritten, Concat;
  }

  /** What pushing a link comes to. On failure the service is gone. */
  function LinkOutcome(disk: Disk, path: Text, target: Text, rest: Text, files: Files): Served {
    var cleared := Unlinked(files, path, disk.unlinks);
    if disk.opens && path !in cleared
    then Served(true, rest, cleared[path := File(Link, 0x1FF, disk.now, target)], Head(ID_OKAY, 0))
    else Served(false, [], cleared, FailMessage(disk.reason))
  }

  /** Pushing a link: the device ends with a link to the same target, whatever lay in the service's buffer, exactly
      when the path was free or could be freed and the link could be made. */
  lemma LinkDelivers(path: Text, mode: nat, mtime: nat, target: Text, rest: Text, files: Files, disk: Disk)
    requires 0 !in path && IsLnk(mode) && mode < 65536 && mtime < U32 && 0 !in target && |target| < DATA_MAX
    requires |path| + |ModeSuffix(mode)| <= NAME_MAX
    ensures var s := PushRequest(path, mode, mtime, [target + [0]]) + rest;
            |s| >= 8 && HeadId(s) == ID_SEND
            && ServeSend(s, files, disk) == LinkOutcome(disk, path, target, rest, files)
  {
    hide HandleSendLink, Head, DataMessages, ModeSuffix, ParseTarget, HeadId;
    hide HeadWord, LinkOutcome, ServeSend, Unlinked;
    PushTaken(path, mode, mtime, [target + [0]], rest, files, disk);
    TargetRoundTrip(path, mode);
    SendLinkOutcome(path, mtime, target, rest, files, disk);
  }

  lemma SendLinkOutcome(path: Text, mtime: nat, target: Text, rest: Text, files: Files, disk: Disk)
    requires mtime < U32 && 0 !in target && |target| < DATA_MAX
    ensures HandleSendLink(DataMessages([target + [0]]) + Head(ID_DONE, mtime) + rest,
                           Unlinked(files, path, disk.unlinks), path, disk)
         == LinkOutcome(disk, path, target, rest, files)
  {
    hide Head, HeadId, HeadWord, FailMessage, CString, Unlinked, DataMessages;
    var c: Text := target + [0];
    StreamStep([c], mtime, rest);
    StreamStep([], mtime, rest);
    var tail := Head(ID_DONE, mtime) + rest;
    var s := Head(ID_DATA, |c|) + c + tail;
    var one: seq<Text> := [c];
    assert one[1..] == [];
    assert s == Head(ID_DATA, |c|) + (c + tail);
    HeadRoundTrip(ID_DATA, |c|, c + tail);
    HeadRoundTrip(ID_DONE, mtime, rest);
    assert s[8..8 + |c|] == c && s[8 + |c|..] == tail;
    assert s[8 + |c| + 8..] == tail[8..] == rest;
    CStringWhole(target);
    CStringStops(target, disk.stale);
    assert c + disk.stale == target + [0] + disk.stale;
  }

  /** The client checks the path alone against 1024, the service the path with its mode: the
      push of a regular file goes through exactly when both fit together. */
  lemma PushAcceptedExactly(path: Text, mode: nat, mtime: nat, chunks: seq<Text>, rest: Text, files: Files, disk: Disk)
    requires 0 !in path && IsReg(mode) && mode < 65536 && mtime < U32 && Cut(chunks) && |path| <= NAME_MAX
    ensures var s := PushRequest(path, mode, mtime, chunks) + rest;
            |s| >= 8 && HeadId(s) == ID_SEND
            && (ServeSend(s, files, disk).alive <==> |path| + |ModeSuffix(mode)| <= NAME_MAX)
  {
    SuffixShort(mode);
    hide Head, ModeSuffix, DataMessages, ParseTarget, HandleSendFile, HeadId, HeadWord, FailMessage, ServeSend, DoSend;
    PushTaken(path, mode, mtime, chunks, rest, files, disk);
    if |path| + |ModeSuffix(mode)| <= NAME_MAX {
      PushDelivers(path, mode, mtime, chunks, rest, files, disk);
    }
  }

  lemma SuffixShort(mode: nat)
    requires mode < 65536
    ensures |ModeSuffix(mode)| <= 6
  {
    hide Decimal;
    assert Pow10(5) == 100000;
    DecimalShort(mode, 5, 100000);
  }

  /** Either answer brings the client, too, to the next message, if a reason has at most 256
      bytes. */
  lemma StatusAligned(disk: Disk, rest: Text)
    requires |disk.reason| <= 256
    ensures ReadStatus(Head(ID_OKAY, 0) + rest) == Some((true, rest))
    ensures ReadStatus(FailMessage(disk.reason) + rest) == Some((false, rest))
  {
    HeadRoundTrip(ID_OKAY, 0, rest);
    FailHead(disk.reason, rest);
  }

  lemma FailHead(reason: Text, rest: Text)
    requires |reason| < U32
    ensures var s := FailMessage(reason) + rest;
            |s| >= 8 && HeadId(s) == ID_FAIL && HeadWord(s) == |reason| && s[8..] == reason + rest
  {
    assert FailMessage(reason) + rest == Head(ID_FAIL, |reason|) + (reason + rest);
    HeadRoundTrip(ID_FAIL, |reason|, reason + rest);
  }

  /** A longer reason leaves its tail on the stream, and one so long that its length is negative as an int is read
      beyond the buffer: the client is aligned behind every failure, inside its buffer, exactly when reasons have at
      most 256 bytes. */
  lemma FailAlignedExactly(reason: Text)
    requires |reason| < U32
    ensures (forall rest :: var s := FailMessage(reason) + rest;
               ReadStatus(s) == Some((false, rest)) && ReasonRead(s) <= DATA_MAX)
      <==> |reason| <= 256
  {
    hide FailMessage, HeadId, HeadWord;
    if |reason| <= 256 {
      forall rest ensures ReadStatus(FailMessage(reason) + rest) == Some((false, rest))
                       && ReasonRead(FailMessage(reason) + rest) <= DATA_MAX {
        FailHead(reason, rest);
        FailRest(reason, rest);
      }
    } else {
      FailHead(reason, []);
      if |reason| < 0x8000_0000 {
        var left := ReadStatus(FailMessage(reason) + []).value.1;
        assert |left| == |reason| - 256;
        assert ReadStatus(FailMessage(reason) + []) != Some((false, []));
      } else {
        assert ReasonRead(FailMessage(reason) + []) > DATA_MAX;
      }
    }
  }

  lemma FailRest(reason: Text, rest: Text)
    requires |reason| < U32
    ensures (FailMessage(reason) + rest)[8 + |reason|..] == rest
  {
    assert FailMessage(reason) + rest == Head(ID_FAIL, |reason|) + reason + rest;
  }

  // ------------------------------------------------------------------ the client's loops

  /** What read(2) on the local file returns: a piece, an interruption, or an error. End of
      file is the end of the list. */
  datatype LocalRead = Piece(bytes: Text) | Again | Failing

  predicate ReadsFit(local: seq<LocalRead>) {
    forall r :: r in local && r.Piece? ==> 1 <= |r.bytes| <= DATA_MAX
  }

  /** The pieces that get sent: those in front of the first error, which is not reported. */
  function Pieces(local: seq<LocalRead>): (r: seq<Text>)
    ensures ReadsFit(local) ==> Cut(r)
  {
    if local == [] || local[0].Failing? then []
    else if local[0].Again? then Pieces(local[1..])
    else [local[0].bytes] + Pieces(local[1..])
  }

  /** What read(2) may do on a local file from position `pos` on: a piece is what lies there, an interruption is
      followed by another read, an error may come anywhere and is the last read, and without one the reads go on to
      the end of the file. A file that cannot be opened is an error at once. */
  predicate ReadsFrom(local: seq<LocalRead>, file: Text, pos: nat)
    decreases |local|
  {
    && pos <= |file|
    && if local == [] then pos == |file|
       else match local[0]
            case Failing => |local| == 1
            case Again => ReadsFrom(local[1..], file, pos)
            case Piece(b) =>
              && 1 <= |b| <= DATA_MAX && pos + |b| <= |file| && file[pos..pos + |b|] == b
              && ReadsFrom(local[1..], file, pos + |b|)
  }

  /** Where in the file the loop stands when it ends. */
  function Reach(local: seq<LocalRead>, pos: nat): (r: nat)
    ensures r >= pos
    decreases |local|
  {
    if local == [] || local[0].Failing? then pos
    else Reach(local[1..], if local[0].Piece? then pos + |local[0].bytes| else pos)
  }

  /** A read fails while bytes of the file remain. */
  predicate FailsEarly(local: seq<LocalRead>, file: Text, pos: nat)
    decreases |local|
  {
    local != [] &&
    match local[0]
    case Failing => pos < |file|
    case Again => FailsEarly(local[1..], file, pos)
    case Piece(b) => FailsEarly(local[1..], file, pos + |b|)
  }

  lemma ConcatCons(c: Text, cs: seq<Text>)
    ensures Concat([c] + cs) == c + Concat(cs)
  {
    assert ([c] + cs)[1..] == cs;
  }

  lemma SliceJoin(s: Text, i: nat, j: nat, k: nat)
    requires i <= j <= k <= |s|
    ensures s[i..j] + s[j..k] == s[i..k]
  {
  }

  /** A read error is not noticed: the request ends as if the file did. What is sent is the stretch of the local file up
      to where reading ended, and that goes to its end exactly when no read failed while bytes remained. */
  lemma {:induction false} SentFrom(local: seq<LocalRead>, file: Text, pos: nat)
    requires ReadsFrom(local, file, pos)
    ensures Reach(local, pos) <= |file| && Concat(Pieces(local)) == file[pos..Reach(local, pos)]
    ensures Reach(local, pos) == |file| <==> !FailsEarly(local, file, pos)
    decreases |local|
  {
    if local != [] && local[0].Again? {
      SentFrom(local[1..], file, pos);
    } else if local != [] && local[0].Piece? {
      var b := local[0].bytes;
      hide Cut, ReadsFit, Concat;
      SentFrom(local[1..], file, pos + |b|);
      ConcatCons(b, Pieces(local[1..]));
      SliceJoin(file, pos, pos + |b|, Reach(local, pos));
    }
  }

  lemma {:induction false} ReadsCut(local: seq<LocalRead>, file: Text, pos: nat)
    requires ReadsFrom(local, file, pos)
    ensures Cut(Pieces(local))
    decreases |local|
  {
    if local != [] && !local[0].Failing? {
      ReadsCut(local[1..], file, if local[0].Piece? then pos + |local[0].bytes| else pos);
    }
  }

  /** So a push sends the front of the local file, and all of it exactly when no read failed while bytes remained. */
  lemma SentWholeExactly(local: seq<LocalRead>, file: Text)
    requires ReadsFrom(local, file, 0)
    ensures Reach(local, 0) <= |file| && Concat(Pieces(local)) == file[..Reach(local, 0)]
    ensures Concat(Pieces(local)) == file <==> !FailsEarly(local, file, 0)
  {
    SentFrom(local, file, 0);
    hide Concat, Pieces, Reach, FailsEarly, ReadsFrom;
    assert file[..|file|] == file;
  }

  /** What stays of old content behind the first `n` bytes. */
  function Behind(old_: Text, n: nat): Text { if |old_| <= n then [] else old_[n..] }

  lemma OverFront(was: Text, file: Text, n: nat)
    requires n <= |file|
    ensures Over(was, file[..n]) == file <==> Behind(was, n) == file[n..]
  {
    assert Over(was, file[..n]) == file[..n] + Behind(was, n);
    assert file == file[..n] + file[n..];
    if Over(was, file[..n]) == file {
      assert file[n..] == (file[..n] + Behind(was, n))[n..] == Behind(was, n);
    }
  }

  /** Behind the place where reading ended there is on the device what there is in the file: nothing, if there was no
      old file or it could be unlinked, so that no read may have failed while bytes remained; else the rest of the old
      file, which must be a regular one of the same mode. */
  ghost predicate TailRight(path: Text, mode: bv16, local: seq<LocalRead>, file: Text, files: Files, disk: Disk)
    requires Reach(local, 0) <= |file|
  {
    var n := Reach(local, 0);
    if path !in files || disk.unlinks then !FailsEarly(local, file, 0)
    else files[path].kind == Regular && files[path].mode == mode && Behind(files[path].data, n) == file[n..]
  }

  /** Both ends together. After a push that is answered OKAY the device holds the local file, exactly when its time
      could be set (or fits) and the tail is right. */
  lemma LocalFileHeldExactly(path: Text, mode: nat, mtime: nat, local: seq<LocalRead>, file: Text, rest: Text,
                             files: Files, disk: Disk)
    requires 0 !in path && IsReg(mode) && mode < 65536 && mtime < U32
    requires |path| + |ModeSuffix(mode)| <= NAME_MAX
    requires ReadsFrom(local, file, 0) && Takes(disk, path, Pieces(local), files)
    ensures Reach(local, 0) <= |file|
    ensures var s := PushRequest(path, mode, mtime, Pieces(local)) + rest;
            |s| >= 8 && HeadId(s) == ID_SEND &&
            var r := ServeSend(s, files, disk);
            && r.alive && r.rest == rest && r.out == Head(ID_OKAY, 0) && path in r.files
            && (r.files[path] == File(Regular, DerivedMode(mode), mtime, file) <==>
                  (disk.touches || disk.now == mtime) && TailRight(path, DerivedMode(mode), local, file, files, disk))
  {
    hide *;
    ReadsCut(local, file, 0);
    PushDelivers(path, mode, mtime, Pieces(local), rest, files, disk);
    FileLeft(path, DerivedMode(mode), mtime, local, file, rest, files, disk);
  }

  lemma FileLeft(path: Text, mode: bv16, mtime: nat, local: seq<LocalRead>, file: Text, rest: Text, files: Files,
                 disk: Disk)
    requires ReadsFrom(local, file, 0) && Takes(disk, path, Pieces(local), files)
    ensures Reach(local, 0) <= |file|
    ensures var r := Outcome(disk, path, mode, mtime, Pieces(local), rest, files);
      && r.alive && r.rest == rest && r.out == Head(ID_OKAY, 0) && path in r.files
      && (r.files[path] == File(Regular, mode, mtime, file) <==>
            (disk.touches || disk.now == mtime) && TailRight(path, mode, local, file, files, disk))
  {
    hide Outcome, Takes, Pieces, Concat, Reach, Behind, Over, FailsEarly, ReadsFrom, Head;
    var n := Reach(local, 0);
    SentWholeExactly(local, file);
    SentFrom(local, file, 0);
    OkayLeaves(path, mode, mtime, Pieces(local), rest, files, disk);
    if path in files { OverFront(files[path].data, file, n); }
  }

  /** What an accepted push leaves at its path, the content written over an old file that stayed. */
  lemma OkayLeaves(path: Text, mode: bv16, mtime: nat, chunks: seq<Text>, rest: Text, files: Files, disk: Disk)
    requires Takes(disk, path, chunks, files)
    ensures var r := Outcome(disk, path, mode, mtime, chunks, rest, files);
      var when := if disk.touches then mtime else disk.now;
      && r.alive && r.rest == rest && r.out == Head(ID_OKAY, 0) && path in r.files
      && (path !in files || disk.unlinks ==> r.files[path] == File(Regular, mode, when, Concat(chunks)))
      && (path in files && !disk.unlinks && files[path].kind == Regular ==>
            r.files[path] == File(Regular, files[path].mode, when, Over(files[path].data, Concat(chunks))))
      && (path in files && !disk.unlinks && files[path].kind != Regular ==> r.files[path].kind != Regular)
  {
    hide AllWritten, Concat;
  }

  lemma OnePieceRead(first: Text, more: Text)
    requires 1 <= |first| <= DATA_MAX && more != []
    ensures var local := [Piece(first), Failing];
      ReadsFrom(local, first + more, 0) && FailsEarly(local, first + more, 0) && Pieces(local) == [first]
    ensures Concat([first]) == first
  {
    var local := [Piece(first), Failing];
    assert local[1..] == [Failing];
    assert (first + more)[0..|first|] == first;
    ConcatCons(first, []);
    assert [first] + [] == [first];
  }

  /** So a push whose second read fails is answered OKAY, with the first piece for the file. */
  lemma TruncatedPush(path: Text, mode: nat, mtime: nat, first: Text, more: Text, files: Files, disk: Disk)
    requires 0 !in path && IsReg(mode) && mode < 65536 && mtime < U32 && path !in files
    requires |path| + |ModeSuffix(mode)| <= NAME_MAX && 1 <= |first| <= DATA_MAX && more != []
    requires disk.opens && disk.touches && disk.writes(0)
    ensures var local := [Piece(first), Failing];
            var s := PushRequest(path, mode, mtime, Pieces(local));
            && ReadsFrom(local, first + more, 0) && FailsEarly(local, first + more, 0)
            && |s| >= 8 && HeadId(s) == ID_SEND
            && ServeSend(s, files, disk)
               == Served(true, [], files[path := File(Regular, DerivedMode(mode), mtime, first)], Head(ID_OKAY, 0))
  {
    OnePieceRead(first, more);
    var s := PushRequest(path, mode, mtime, [first]);
    assert s + [] == s;
    PushDelivers(path, mode, mtime, [first], [], files, disk);
    hide Head, HeadId, ServeSend, PushRequest, Concat, ReadsFrom, FailsEarly, Pieces, ModeSuffix;
    assert AllWritten(disk, 0, 1);
    assert Stored(files, path, DerivedMode(mode), disk, first, mtime)
      == files[path := File(Regular, DerivedMode(mode), mtime, first)];
  }

  /** write_data_file: the read-and-send loop, with its byte count. */
  method WriteDataFile(local: seq<LocalRead>) returns (sent: Text, total: nat)
    ensures sent == DataMessages(Pieces(local)) && total == |Concat(Pieces(local))|
  {
    hide Head, DataMessages, Concat, Pieces;
    sent, total := [], 0;
    ghost var ps: seq<Text> := [];
    EmptyMessages();
    PiecesStart(local);
    var i := 0;
    while i < |local| && !local[i].Failing?
      invariant 0 <= i <= |local| && ps + Pieces(local[i..]) == Pieces(local)
      invariant sent == DataMessages(ps) && total == |Concat(ps)|
    {
      PiecesStep(local, i, ps);
      if local[i].Piece? {
        AppendChunk(ps, local[i].bytes);
        ps := ps + [local[i].bytes];
        sent := sent + (Head(ID_DATA, |local[i].bytes|) + local[i].bytes);
        total := total + |local[i].bytes|;
      }
      i := i + 1;
    }
    PiecesEnd(local, i, ps);
  }

  lemma PiecesStart(local: seq<LocalRead>)
    ensures [] + Pieces(local[0..]) == Pieces(local)
  {
    assert local[0..] == local;
  }

  lemma PiecesStep(local: seq<LocalRead>, i: nat, ps: seq<Text>)
    requires i < |local| && !local[i].Failing?
    ensures ps + Pieces(local[i..])
      == (if local[i].Piece? then ps + [local[i].bytes] else ps) + Pieces(local[i + 1..])
  {
    assert local[i..][1..] == local[i + 1..];
    hide Cut, ReadsFit;
    if local[i].Piece? { OneMore(ps, local[i].bytes, Pieces(local[i + 1..])); }
  }

  lemma PiecesEnd(local: seq<LocalRead>, i: nat, ps: seq<Text>)
    requires i <= |local| && (i < |local| ==> local[i].Failing?)
    ensures ps + Pieces(local[i..]) == ps
  {
  }

  lemma EmptyMessages()
    ensures DataMessages([]) == [] && Concat([]) == []
  {
  }

  /** A file in memory cut into full buffers and a rest. */
  function Buffers(buffer: Text): (r: seq<Text>)
    ensures Cut(r) && Concat(r) == buffer
    decreases |buffer|
  {
    if buffer == [] then []
    else
      var n := if |buffer| > DATA_MAX then DATA_MAX else |buffer|;
      [buffer[..n]] + Buffers(buffer[n..])
  }

  lemma BuffersStep(buffer: Text, total: nat, count: nat, chunks: seq<Text>)
    requires total < |buffer| && count == if |buffer| - total > DATA_MAX then DATA_MAX else |buffer| - total
    ensures chunks + Buffers(buffer[total..])
         == chunks + [buffer[total..total + count]] + Buffers(buffer[total + count..])
  {
    var rest := buffer[total..];
    assert rest[..count] == buffer[total..total + count] && rest[count..] == buffer[total + count..];
    BuffersHead(rest, count);
    hide Concat, Cut, Buffers;
    OneMore(chunks, rest[..count], Buffers(rest[count..]));
  }

  lemma BuffersHead(rest: Text, count: nat)
    requires rest != [] && count == if |rest| > DATA_MAX then DATA_MAX else |rest|
    ensures Buffers(rest) == [rest[..count]] + Buffers(rest[count..])
  {
    hide Concat, Cut;
  }

  lemma OneMore(chunks: seq<Text>, c: Text, more: seq<Text>)
    ensures chunks + ([c] + more) == chunks + [c] + more
  {
  }

  /** write_data_buffer. */
  method WriteDataBuffer(buffer: Text) returns (sent: Text)
    ensures sent == DataMessages(Buffers(buffer))
  {
    hide Head, DataMessages, Concat, Buffers;
    EmptyMessages();
    ghost var chunks: seq<Text> := [];
    sent := [];
    var total := 0;
    assert buffer[0..] == buffer && [] + Buffers(buffer) == Buffers(buffer);
    while total < |buffer|
      invariant 0 <= total <= |buffer|
      invariant sent == DataMessages(chunks) && chunks + Buffers(buffer[total..]) == Buffers(buffer)
    {
      var count := |buffer| - total;
      if count > DATA_MAX { count := DATA_MAX; }
      var c := buffer[total..total + count];
      BuffersStep(buffer, total, count, chunks);
      AppendChunk(chunks, c);
      sent := sent + (Head(ID_DATA, count) + c);
      chunks := chunks + [c];
      total := total + count;
    }
    NoBuffers(buffer, chunks);
  }

  lemma NoBuffers(buffer: Text, chunks: seq<Text>)
    ensures chunks + Buffers(buffer[|buffer|..]) == chunks
  {
  }

  lemma {:induction false} AppendChunk(chunks: seq<Text>, c: Text)
    ensures DataMessages(chunks + [c]) == DataMessages(chunks) + (Head(ID_DATA, |c|) + c)
    ensures Concat(chunks + [c]) == Concat(chunks) + c
    decreases |chunks|
  {
    hide Head;
    var m := Head(ID_DATA, |c|) + c;
    if chunks == [] {
      assert chunks + [c] == [c] && [c][1..] == [];
      assert DataMessages([c]) == m + DataMessages([]);
      assert Concat([c]) == c + Concat([]);
    } else {
      var cs := chunks[1..];
      var m0 := Head(ID_DATA, |chunks[0]|) + chunks[0];
      assert (chunks + [c])[1..] == cs + [c];
      AppendChunk(cs, c);
      assert DataMessages(chunks + [c]) == m0 + DataMessages(cs + [c]);
      Assoc(m0, DataMessages(cs), m);
      assert Concat(chunks + [c]) == chunks[0] + Concat(cs + [c]);
      Assoc(chunks[0], Concat(cs), c);
    }
  }

  lemma Assoc(a: Text, b: Text, c: Text)
    ensures a + (b + c) == a + b + c
  {
  }

  /** What sync_send sends between the name and DONE: the pieces of a file, or the target of a link with its NUL.
      None is a readlink(2) that failed, which is not noticed either. */
  function SentChunks(mode: nat, local: seq<LocalRead>, link: Option<Text>): seq<Text> {
    if IsReg(mode) then Pieces(local) else if link.Some? then [link.value + [0]] else []
  }

  /** write_data_link. */
  method WriteDataLink(link: Option<Text>) returns (sent: Text)
    ensures sent == DataMessages(if link.Some? then [link.value + [0]] else [])
  {
    hide Head, Concat;
    if link.None? { return []; }
    var data: Text := link.value + [0];
    ghost var one: seq<Text> := [data];
    assert one[1..] == [] && DataMessages(one) == Head(ID_DATA, |data|) + data + [];
    sent := Head(ID_DATA, |data|) + data;
  }

  /** sync_send up to the wait for the answer. */
  method SyncSend(rpath: Text, mode: nat, mtime: nat, local: seq<LocalRead>, link: Option<Text>)
    returns (ok: bool, sent: Text)
    ensures ok <==> |rpath| <= 1024 && (IsReg(mode) || IsLnk(mode))
    ensures ok ==> sent == PushRequest(rpath, mode, mtime, SentChunks(mode, local, link))
    ensures ok && IsLnk(mode) ==>
      sent == PushRequest(rpath, mode, mtime, if link.Some? then [link.value + [0]] else [])
    ensures ok && !IsLnk(mode) ==> sent == PushRequest(rpath, mode, mtime, Pieces(local))
  {
    hide Head, DataMessages, ModeSuffix;
    if |rpath| > 1024 { return false, []; }
    var tmp := ModeSuffix(mode);
    sent := Head(ID_SEND, |rpath| + |tmp|) + rpath + tmp;
    var data;
    if IsReg(mode) {
      var total;
      data, total := WriteDataFile(local);
    } else if IsLnk(mode) {
      data := WriteDataLink(link);
    } else {
      return false, sent;
    }
    sent := sent + data + Head(ID_DONE, mtime);
    ok := true;
  }

  lemma HeadOfPrefix(s: Text)
    requires |s| >= 8
    ensures HeadId(s[..8]) == HeadId(s) && HeadWord(s[..8]) == HeadWord(s)
  {
    assert s[..8][..4] == s[..4];
    assert s[..8][4..8] == s[4..8];
  }

  /** The service's end of one connection. */
  /** How a turn of the service's data loop ends. */
  datatype Turned = GoesOn | AtDone | GivesUp

  class Service {
    var input: Text    // what the peer has sent and we have not read
    var output: Text   // what we have sent
    var files: Files

    constructor (input: Text, files: Files)
      ensures this.input == input && output == [] && this.files == files
    {
      this.input, this.output, this.files := input, [], files;
    }

    /** readx: all of `n` bytes, or failure. */
    method ReadX(n: nat) returns (ok: bool, data: Text)
      modifies this`input
      ensures ok <==> n <= |old(input)|
      ensures ok ==> data == old(input)[..n] && input == old(input)[n..]
      ensures !ok ==> input == old(input)
    {
      ok := n <= |input|;
      if ok {
        data, input := input[..n], input[n..];
      } else {
        data := [];
      }
    }

    /** fail_message. */
    method Fail(reason: Text)
      modifies this`output
      ensures output == old(output) + FailMessage(reason)
    {
      output := output + FailMessage(reason);
    }

    /** One turn of the loop of handle_send_file. */
    method DrainTurn(w0: Writer, k: nat, disk: Disk, ghost out0: Text)
      returns (turn: Turned, w: Writer, mtime: nat, ghost out: Text)
      modifies this`input, this`output
      ensures output == old(output) + out
      ensures turn.GoesOn? ==> |input| < |old(input)|
      ensures DrainData(old(input), w0, k, disk, out0) ==
        if turn.GoesOn? then DrainData(input, w, k + 1, disk, out0 + out)
        else if turn.AtDone? then Drained(w, mtime, input, out0 + out) else Stopped(w, out0 + out)
    {
      hide Head, FailMessage, HeadId, HeadWord, Torn;
      w, out, mtime := w0, [], 0;
      assert out0 + out == out0 && output == output + out;
      ghost var s := input;
      var ok, head := ReadX(8);
      if !ok { return GivesUp, w, 0, out; }
      HeadOfPrefix(s);
      if HeadId(head) != ID_DATA {
        if HeadId(head) == ID_DONE { return AtDone, w, HeadWord(head), out; }
        Fail(Ascii("invalid data message"));
        return GivesUp, w, 0, FailMessage(Ascii("invalid data message"));
      }
      var len := HeadWord(head);
      if len > DATA_MAX {
        Fail(Ascii("oversize data message"));
        return GivesUp, w, 0, FailMessage(Ascii("oversize data message"));
      }
      var data;
      ok, data := ReadX(len);
      if !ok { return GivesUp, w, 0, out; }
      assert input == s[8 + len..] && data == s[8..8 + len];
      turn := GoesOn;
      if w.Open? {
        if disk.writes(k) {
          w := Open(w.data + data);
        } else {
          w := Broken(w.data + Torn(data, disk));
          Fail(disk.reason);
          out := FailMessage(disk.reason);
        }
      }
    }

    /** The loop of handle_send_file. */
    method DrainLoop(w0: Writer, disk: Disk, ghost out0: Text)
      returns (stopped: bool, w: Writer, mtime: nat, ghost out: Text)
      modifies this`input, this`output
      ensures DrainData(old(input), w0, 0, disk, out0) ==
        if stopped then Stopped(w, out0 + out) else Drained(w, mtime, input, out0 + out)
      ensures output == old(output) + out
    {
      hide DrainData;
      w, out, mtime := w0, [], 0;
      var k := 0;
      assert out0 + out == out0;
      while true
        invariant k >= 0 && output == old(output) + out
        invariant DrainData(input, w, k, disk, out0 + out) == DrainData(old(input), w0, 0, disk, out0)
        decreases |input|
      {
        var turn;
        ghost var o;
        turn, w, mtime, o := DrainTurn(w, k, disk, out0 + out);
        Assoc(out0, out, o);
        Assoc(old(output), out, o);
        out := out + o;
        if !turn.GoesOn? { return turn.GivesUp?, w, mtime, out; }
        k := k + 1;
      }
    }

    /** handle_send_file. On failure the stream is abandoned. */
    method HandleSend(path: Text, mode: bv16, disk: Disk) returns (rc: int)
      modifies this
      ensures Served(rc == 0, if rc == 0 then input else [], files, output) ==
        var r := HandleSendFile(old(input), old(files), path, mode, disk);
        r.(out := old(output) + r.out)
    {
      hide Head, FailMessage, DrainData, Stored, GivenUp;
      ghost var out0: Text := [];
      var can := Openable(files, path, disk);
      var w := if can then Open([]) else Unopened;
      if !can {
        Fail(disk.reason);
        out0 := FailMessage(disk.reason);
      }
      var stopped, mtime;
      ghost var out;
      stopped, w, mtime, out := DrainLoop(w, disk, out0);
      assert output == old(output) + (out0 + out);
      if stopped {
        files := GivenUp(files, path, mode, disk, w);
        return -1;
      }
      rc := 0;
      match w {
      case Unopened =>
      case Broken(_) => files := GivenUp(files, path, mode, disk, w);
      case Open(data) =>
        files := Stored(files, path, mode, disk, data, if disk.touches then mtime else disk.now);
        output := output + Head(ID_OKAY, 0);
        Assoc(old(output), out0 + out, Head(ID_OKAY, 0));
      }
    }

    /** handle_send_link. */
    method HandleLink(path: Text, disk: Disk) returns (rc: int)
      modifies this
      ensures Served(rc == 0, if rc == 0 then input else [], files, output) ==
        var r := HandleSendLink(old(input), old(files), path, disk);
        r.(out := old(output) + r.out)
    {
      hide Head, FailMessage, HeadId, HeadWord, CString;
      rc := -1;
      assert output + [] == output;
      ghost var s := input;
      var ok, head := ReadX(8);
      if !ok { return; }
      HeadOfPrefix(s);
      if HeadId(head) != ID_DATA {
        Fail(Ascii("invalid data message: expected ID_DATA"));
        return;
      }
      var len := HeadWord(head);
      if len > DATA_MAX {
        Fail(Ascii("oversize data message"));
        return;
      }
      var data;
      ok, data := ReadX(len);
      if !ok { return; }
      assert input == s[8 + len..] && data == s[8..8 + len];
      if !disk.opens || path in files {
        Fail(disk.reason);
        return;
      }
      files := files[path := File(Link, 0x1FF, disk.now, CString(data + disk.stale))];
      ghost var s2 := input;
      ok, head := ReadX(8);
      if !ok { return; }
      HeadOfPrefix(s2);
      assert s2[8..] == s[8 + len + 8..];
      if HeadId(head) != ID_DONE {
        Fail(Ascii("invalid data message: expected ID_DONE"));
        return;
      }
      output := output + Head(ID_OKAY, 0);
      rc := 0;
    }

    /** do_send: the name is split at its last comma, an older file is unlinked, the data follow. */
    method DoSendTo(name: Text, disk: Disk) returns (rc: int)
      modifies this
      ensures Served(rc == 0, if rc == 0 then input else [], files, output) ==
        var r := DoSend(old(input), old(files), name, disk);
        r.(out := old(output) + r.out)
    {
      hide HandleSendFile, HandleSendLink, CString, LastComma, StrToUl, DeriveMode, DerivedMode, Unlinked, IsLnk;
      var path := CString(name);
      var tmp := LastComma(path);
      var parsed := if tmp < 0 then None else StrToUl(path[tmp + 1..]);
      if tmp >= 0 { path := path[..tmp]; }
      var isLink := parsed.Some? && IsLnk(parsed.value);
      var mode := if parsed.Some? then DerivedMode(parsed.value) else DeriveMode(0x1A4);
      files := Unlinked(files, path, disk.unlinks);
      if isLink {
        rc := HandleLink(path, disk);
      } else {
        rc := HandleSend(path, mode, disk);
      }
    }
  }
}
