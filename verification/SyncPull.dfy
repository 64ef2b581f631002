/** Pulling a file: do_recv in core/adb/file_sync_service.c against sync_recv in
    core/adb/file_sync_client.c. */
module SyncPull {
  import opened Bytes
  import opened SyncWire
  import opened SyncPush

  /** What the device finds: nothing to open, or pieces read until the end or until an error. */
  datatype Remote = NoFile(reason: Text) | Readable(chunks: seq<Text>) | Breaks(chunks: seq<Text>, reason: Text)
  {
    predicate Fits() {
      && (NoFile? || Cut(chunks))
      && (Readable? || |reason| <= 256)
    }
  }

  /** Everything do_recv sends. */
  function RecvReply(r: Remote): Text {
    match r
    case NoFile(reason) => FailMessage(reason)
    case Readable(chunks) => DataMessages(chunks) + Head(ID_DONE, 0)
    case Breaks(chunks, reason) => DataMessages(chunks) + FailMessage(reason)
  }

  /** What sync_recv ends with: the local file or none, and the stream behind the transfer.
      `Lost` is a return of -1, after which the connection is not used again. A failure that
      the device reports is a return of 0 like success, but leaves no file. */
  datatype Received = Lost | Absent(rest: Text) | Present(data: Text, rest: Text)

  /** The signed test `len > limit` does not refuse a length that is negative as an int. */
  predicate Refused(word: nat, limit: nat) { limit < word < 0x8000_0000 }

  /** From the head of a message on, `data` having been received before. */
  function Receive(s: Text, data: Text): Received
    decreases |s|
  {
    if |s| < 8 then Lost
    else if HeadId(s) == ID_DONE then Present(data, s[8..])
    else if HeadId(s) == ID_DATA then
      var n := HeadWord(s);
      if Refused(n, DATA_MAX) || |s| < 8 + n then Lost
      else Receive(s[8 + n..], data + s[8..8 + n])
    else if HeadId(s) == ID_FAIL then
      var n := if Refused(HeadWord(s), 256) then 256 else HeadWord(s);
      if |s| < 8 + n then Lost else Absent(s[8 + n..])
    else Absent(s[8..])
  }

  /** The largest read into its 64-kilobyte buffer that the client makes on this stream. */
  function LargestRead(s: Text): nat
    decreases |s|
  {
    if |s| < 8 then 0
    else if HeadId(s) == ID_DATA then
      var n := HeadWord(s);
      if Refused(n, DATA_MAX) then 0
      else if |s| < 8 + n then n
      else
        var later := LargestRead(s[8 + n..]);
        if later > n then later else n
    else if HeadId(s) == ID_FAIL then if Refused(HeadWord(s), 256) then 256 else HeadWord(s)
    else 0
  }

  /** Every length the client gets to see is below 2^31, or there is none. */
  predicate NoNegative(s: Text)
    decreases |s|
  {
    |s| < 8
    || (HeadId(s) == ID_DATA && HeadWord(s) < 0x8000_0000
        && (HeadWord(s) > DATA_MAX || |s| < 8 + HeadWord(s) || NoNegative(s[8 + HeadWord(s)..])))
    || (HeadId(s) == ID_FAIL && HeadWord(s) < 0x8000_0000)
    || (HeadId(s) != ID_DATA && HeadId(s) != ID_FAIL)
  }

  /** The client stays inside its buffer exactly when no length on the stream is negative as an int. */
  lemma {:induction false} BufferBoundExactly(s: Text)
    ensures LargestRead(s) <= DATA_MAX <==> NoNegative(s)
    decreases |s|
  {
    hide HeadId, HeadWord;
    if |s| >= 8 && HeadId(s) == ID_DATA && HeadWord(s) <= DATA_MAX && |s| >= 8 + HeadWord(s) {
      BufferBoundExactly(s[8 + HeadWord(s)..]);
    }
  }

  lemma ReceiveOne(c: Text, tail: Text, data: Text)
    requires |c| <= DATA_MAX
    ensures Receive(Head(ID_DATA, |c|) + c + tail, data) == Receive(tail, data + c)
  {
    hide Head, HeadId, HeadWord;
    var s := Head(ID_DATA, |c|) + c + tail;
    assert s == Head(ID_DATA, |c|) + (c + tail);
    HeadRoundTrip(ID_DATA, |c|, c + tail);
    assert s[8 + |c|..] == tail;
    assert s[8..8 + |c|] == c;
  }

  lemma {:induction false} ReceiveChunks(chunks: seq<Text>, tail: Text, data: Text)
    requires Cut(chunks)
    ensures Receive(DataMessages(chunks) + tail, data) == Receive(tail, data + Concat(chunks))
    decreases |chunks|
  {
    hide Receive, Head;
    if chunks == [] {
      assert DataMessages(chunks) + tail == tail;
      assert data + Concat(chunks) == data;
    } else {
      var rest := DataMessages(chunks[1..]) + tail;
      assert DataMessages(chunks) + tail == Head(ID_DATA, |chunks[0]|) + chunks[0] + rest;
      ReceiveOne(chunks[0], rest, data);
      ReceiveChunks(chunks[1..], tail, data + chunks[0]);
      assert data + chunks[0] + Concat(chunks[1..]) == data + Concat(chunks);
    }
  }

  /** Pulling: the client ends with exactly the bytes the device read, or with no file when the
      device failed at any point, and in every case right behind the transfer. */
  lemma PullDelivers(r: Remote, rest: Text)
    requires r.Fits()
    ensures Receive(RecvReply(r) + rest, []) ==
      if r.Readable? then Present(Concat(r.chunks), rest) else Absent(rest)
  {
    hide Receive, Head, FailMessage, DataMessages;
    match r
    case NoFile(reason) => ReceiveFail(reason, rest, []);
    case Readable(chunks) =>
      assert RecvReply(r) + rest == DataMessages(chunks) + (Head(ID_DONE, 0) + rest);
      ReceiveChunks(chunks, Head(ID_DONE, 0) + rest, []);
      ReceiveDone(rest, [] + Concat(chunks));
      assert [] + Concat(chunks) == Concat(chunks);
    case Breaks(chunks, reason) =>
      assert RecvReply(r) + rest == DataMessages(chunks) + (FailMessage(reason) + rest);
      ReceiveChunks(chunks, FailMessage(reason) + rest, []);
      ReceiveFail(reason, rest, [] + Concat(chunks));
  }

  lemma ReceiveDone(rest: Text, data: Text)
    ensures Receive(Head(ID_DONE, 0) + rest, data) == Present(data, rest)
  {
    HeadRoundTrip(ID_DONE, 0, rest);
  }

  lemma ReceiveFail(reason: Text, rest: Text, data: Text)
    requires |reason| <= 256
    ensures Receive(FailMessage(reason) + rest, data) == Absent(rest)
  {
    FailHead(reason, rest);
  }

  // ------------------------------------------------------------------ the two loops

  /** What do_recv finds, given what open(2) and the reads return. */
  function RemoteOf(opens: bool, local: seq<LocalRead>, reason: Text): Remote {
    if !opens then NoFile(reason)
    else if Failing in local then Breaks(Pieces(local), reason)
    else Readable(Pieces(local))
  }

  /** do_recv. */
  method DoRecv(opens: bool, local: seq<LocalRead>, reason: Text) returns (sent: Text)
    ensures sent == RecvReply(RemoteOf(opens, local, reason))
  {
    hide Head, DataMessages, Concat, FailMessage, Pieces;
    if !opens { return FailMessage(reason); }
    EmptyMessages();
    PiecesStart(local);
    sent := [];
    ghost var ps: seq<Text> := [];
    var i := 0;
    while i < |local| && !local[i].Failing?
      invariant 0 <= i <= |local| && Failing !in local[..i]
      invariant ps + Pieces(local[i..]) == Pieces(local) && sent == DataMessages(ps)
    {
      PiecesStep(local, i, ps);
      if local[i].Piece? {
        AppendChunk(ps, local[i].bytes);
        ps := ps + [local[i].bytes];
        sent := sent + (Head(ID_DATA, |local[i].bytes|) + local[i].bytes);
      }
      i := i + 1;
    }
    PiecesEnd(local, i, ps);
    if i < |local| {
      assert local[i] in local;
      sent := sent + FailMessage(reason);
    } else {
      assert local[..i] == local;
      sent := sent + Head(ID_DONE, 0);
    }
  }

  /** sync_recv behind its request, if the local file can be created and written. */
  method SyncRecv(input: Text) returns (r: Received)
    ensures r == Receive(input, [])
  {
    hide HeadId, HeadWord;
    var s, data: Text := input, [];
    while |s| >= 8 && HeadId(s) == ID_DATA
      invariant Receive(s, data) == Receive(input, [])
      decreases |s|
    {
      var len := HeadWord(s);
      if Refused(len, DATA_MAX) || |s| < 8 + len { return Lost; }
      s, data := s[8 + len..], data + s[8..8 + len];
    }
    if |s| < 8 { return Lost; }
    if HeadId(s) == ID_DONE { return Present(data, s[8..]); }
    if HeadId(s) == ID_FAIL {
      var len := HeadWord(s);
      if Refused(len, 256) { len := 256; }
      if |s| < 8 + len { return Lost; }
      return Absent(s[8 + len..]);
    }
    r := Absent(s[8..]);
  }
}
