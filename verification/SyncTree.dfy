/** Synchronising a local directory tree (core/adb/file_sync_client.c, copy_local_dir_remote and do_sync_sync): the list
    built from the tree, pushed to the device, and built and pushed once more. */
module SyncTree {
  import opened Bytes
  import opened SyncWire
  import opened SyncDisk
  import opened SyncServe
  import opened SyncDir
  import List = SyncList

  /** A list entry together with what reading the local file gives. */
  function EntryOf(ci: List.CopyInfo, content: Text -> Content): Entry {
    Entry(ci.src, ci.dst, ci.time, ci.mode, ci.size, content(ci.src))
  }

  function Entries(cis: seq<List.CopyInfo>, content: Text -> Content): (r: seq<Entry>)
    ensures |r| == |cis| && forall i :: 0 <= i < |cis| ==> r[i] == EntryOf(cis[i], content)
  {
    seq(|cis|, i requires 0 <= i < |cis| => EntryOf(cis[i], content))
  }

  predicate ApartDsts(cis: seq<List.CopyInfo>) {
    forall i, j :: 0 <= i < j < |cis| ==> cis[i].dst != cis[j].dst
  }

  // ------------------------------------------------------------- no destination twice

  /** Every entry of the list is for a file of the tree. */
  lemma {:induction false} Rendered(l: Text, r: Text, rs: seq<List.Rel>, k: nat) returns (i: nat)
    requires k < |List.Render(l, r, rs)|
    ensures i < |rs| && List.Render(l, r, rs)[k].dst == r + rs[i].path
    decreases |rs|
  {
    var rest := List.Render(l, r, rs[1..]);
    var n := |List.Render(l, r, rs)| - |rest|;
    if k < n {
      i := 0;
    } else {
      assert List.Render(l, r, rs)[k] == rest[k - n];
      var j := Rendered(l, r, rs[1..], k - n);
      i := j + 1;
    }
  }

  /** Files with different paths get different destinations. */
  lemma {:induction false} RenderApart(l: Text, r: Text, rs: seq<List.Rel>)
    requires List.Distinct(rs)
    ensures ApartDsts(List.Render(l, r, rs))
    decreases |rs|
  {
    if rs != [] {
      var all, rest := List.Render(l, r, rs), List.Render(l, r, rs[1..]);
      var n := |all| - |rest|;
      RenderApart(l, r, rs[1..]);
      forall i, j | 0 <= i < j < |all| ensures all[i].dst != all[j].dst {
        assert all[j] == rest[j - n];
        if i < n {
          var m := Rendered(l, r, rs[1..], j - n);
          assert rs[1..][m] == rs[m + 1];
          assert (r + rs[0].path)[|r|..] == rs[0].path && (r + rs[m + 1].path)[|r|..] == rs[m + 1].path;
        } else {
          assert all[i] == rest[i - n];
        }
      }
    }
  }

  lemma {:induction false} ApartOnce(cis: seq<List.CopyInfo>, x: List.CopyInfo)
    requires ApartDsts(cis)
    ensures multiset(cis)[x] <= 1
    decreases |cis|
  {
    if cis != [] {
      assert cis == [cis[0]] + cis[1..];
      assert ApartDsts(cis[1..]);
      ApartOnce(cis[1..], x);
      if cis[0] == x {
        assert x !in cis[1..];
        assert multiset(cis[1..])[x] == 0;
      }
    }
  }

  /** In whatever order they are listed. */
  lemma ReorderedApart(a: seq<List.CopyInfo>, b: seq<List.CopyInfo>)
    requires ApartDsts(a) && multiset(b) == multiset(a)
    ensures ApartDsts(b)
  {
    forall i, j | 0 <= i < j < |b| ensures b[i].dst != b[j].dst {
      if b[i].dst == b[j].dst {
        Listed(a, b, b[i]);
        Listed(a, b, b[j]);
        var m :| 0 <= m < |a| && a[m] == b[i];
        var n :| 0 <= n < |a| && a[n] == b[j];
        assert b[i] == b[j];
        TwiceThere(b, i, j);
        ApartOnce(a, b[i]);
        assert false;
      }
    }
  }

  lemma Listed(a: seq<List.CopyInfo>, b: seq<List.CopyInfo>, x: List.CopyInfo)
    requires multiset(b) == multiset(a)
    ensures x in b <==> x in a
  {
    assert x in b <==> x in multiset(b);
    assert x in a <==> x in multiset(a);
  }

  lemma TwiceThere(b: seq<List.CopyInfo>, i: nat, j: nat)
    requires i < j < |b| && b[i] == b[j]
    ensures multiset(b)[b[i]] >= 2
  {
    assert b == b[..i] + [b[i]] + b[i + 1..];
    assert b[i + 1..][j - i - 1] == b[j];
    assert b[i] in b[i + 1..];
    assert multiset(b[i + 1..])[b[i]] >= 1;
  }

  /** So the list built from a well-named tree names no destination twice. */
  lemma TreeApart(l: Text, r: Text, cs: seq<List.Child>, cis: seq<List.CopyInfo>, content: Text -> Content)
    requires List.Names(cs) && multiset(cis) == multiset(List.Listed(l, r, cs))
    ensures DistinctDsts(Entries(cis, content))
  {
    List.EachFileOnce(cs);
    RenderApart(l, r, List.RelFiles(cs));
    ReorderedApart(List.Listed(l, r, cs), cis);
  }

  // ---------------------------------------------------------------- synchronised twice

  lemma {:induction false} NothingToPush(files: Files, es: seq<Entry>, flags: seq<bool>, ws: nat -> World, k: nat)
    requires |flags| == |es| && forall i :: 0 <= i < |es| ==> flags[i]
    ensures PushAll(files, es, flags, ws, k) == Pushes(true, files, 0) && Unflagged(flags) == 0
    decreases |es|
  {
    if es != [] { NothingToPush(files, es[1..], flags[1..], ws, k); }
  }

  /** The local files are as the tree says, and each can be told to the device. */
  ghost predicate Readable(l: Text, r: Text, cs: seq<List.Child>, content: Text -> Content) {
    forall ci :: ci in List.Listed(l, r, cs) ==> EntryOf(ci, content).Fits() && EntryOf(ci, content).SizeRight()
  }

  /** The clock of the device is not behind the links of the tree. */
  ghost predicate ClockAhead(es: seq<Entry>, ws: nat -> World) {
    forall i, k :: 0 <= i < |es| && es[i].content.Target? ==> es[i].time <= ws(k).disk.now < U32
  }

  /** The list for a tree: its entries in some order. */
  method BuildList(l: Text, r: Text, cs: seq<List.Child>, content: Text -> Content)
    returns (cis: seq<List.CopyInfo>, es: seq<Entry>)
    requires List.Names(cs) && Readable(l, r, cs, content)
    ensures multiset(cis) == multiset(List.Listed(l, r, cs)) && es == Entries(cis, content)
    ensures DistinctDsts(es) && forall i :: 0 <= i < |es| ==> es[i].Fits() && es[i].SizeRight()
  {
    hide Entry.Fits, Entry.SizeRight, List.Listed, DistinctDsts;
    cis := List.LocalBuildList([], l, r, cs);
    es := Entries(cis, content);
    TreeApart(l, r, cs, cis, content);
    forall i | 0 <= i < |es| ensures es[i].Fits() && es[i].SizeRight() {
      Listed(List.Listed(l, r, cs), cis, cis[i]);
    }
  }

  /** After a first synchronisation with clean pushes, every file and link of the tree matches what the device has, in
      whatever order a second list names them. */
  lemma SecondListMatches(l: Text, r: Text, cs: seq<List.Child>, content: Text -> Content, c1: seq<List.CopyInfo>,
                          c2: seq<List.CopyInfo>, files: Files, flags: seq<bool>, ws: nat -> World, i: nat)
    requires multiset(c1) == multiset(c2) == multiset(List.Listed(l, r, cs)) && |flags| == |c1| && i < |c2|
    requires var es := Entries(c1, content);
      && DistinctDsts(es) && ClockAhead(es, ws)
      && (forall j :: 0 <= j < |es| ==> es[j].Fits() && es[j].SizeRight())
      && (forall j :: 0 <= j < |es| ==> (flags[j] <==> Matches(es[j], files)))
    ensures Matches(Entries(c2, content)[i], Deliver(files, Entries(c1, content), flags, ws, 0))
  {
    hide Entry.Fits, Entry.SizeRight, Matches, Deliver, DistinctDsts;
    Listed(c1, c2, c2[i]);
    var j :| 0 <= j < |c1| && c1[j] == c2[i];
    SecondSyncSkipsAll(files, Entries(c1, content), flags, ws, j);
  }

  /** Two synchronisations of one tree, each with a list of its own. If the pushes of the first are clean and no path is
      too long, both succeed, and the second pushes nothing, skips every file and link of the tree and leaves the device
      as it is. */
  method SyncTwice(l: Text, r: Text, cs: seq<List.Child>, content: Text -> Content, files0: Files,
                   ws: nat -> World, ws': nat -> World)
    returns (cis: seq<List.CopyInfo>, flags: seq<bool>, rc: int, files: Files, rc': int, pushed: nat, skipped: nat,
             files': Files)
    requires List.Names(cs) && Readable(l, r, cs, content)
    requires forall k :: |ws(k).disk.reason| <= 256 && |ws'(k).disk.reason| <= 256
    ensures multiset(cis) == multiset(List.Listed(l, r, cs))
    ensures var es := Entries(cis, content);
      Short(Dsts(es)) ==>
        && |flags| == |es|
        && (ClockAhead(es, ws) && AllClean(files0, es, flags, ws, 0) ==>
              && rc == 0 && files == Deliver(files0, es, flags, ws, 0)
              && rc' == 0 && pushed == 0 && skipped == |es| && files' == files)
  {
    hide Entry.Fits, Entry.SizeRight, Matches, Deliver, DistinctDsts, AllClean, PushAll;
    hide Unflagged, List.Listed, Dsts, Short;
    hide ClockAhead;
    var again, es, es', flags', n, m;
    cis, es := BuildList(l, r, cs, content);
    rc, n, m, files, flags := CopyLocalDirRemote(es, files0, ws, true, false);
    again, es' := BuildList(l, r, cs, content);
    rc', pushed, skipped, files', flags' := CopyLocalDirRemote(es', files, ws', true, false);
    if Short(Dsts(es)) {
      ShortToo(cis, again, content);
      if ClockAhead(es, ws) && AllClean(files0, es, flags, ws, 0) {
        forall i | 0 <= i < |es'| ensures flags'[i] {
          SecondListMatches(l, r, cs, content, cis, again, files0, flags, ws, i);
        }
        NothingToPush(files, es', flags', ws', 0);
        SameLength(cis, again);
      }
    }
  }

  lemma SameLength(a: seq<List.CopyInfo>, b: seq<List.CopyInfo>)
    requires multiset(a) == multiset(b)
    ensures |a| == |b|
  {
    assert |multiset(a)| == |a| && |multiset(b)| == |b|;
  }

  lemma ShortToo(a: seq<List.CopyInfo>, b: seq<List.CopyInfo>, content: Text -> Content)
    requires multiset(a) == multiset(b) && Short(Dsts(Entries(a, content)))
    ensures Short(Dsts(Entries(b, content)))
  {
    forall i | 0 <= i < |b| ensures exists j :: 0 <= j < |a| && a[j] == b[i] {
      Listed(a, b, b[i]);
    }
    var short, dsts := Dsts(Entries(a, content)), Dsts(Entries(b, content));
    forall i | 0 <= i < |dsts| ensures dsts[i] in short {
      var j :| 0 <= j < |a| && a[j] == b[i];
      assert short[j] == dsts[i];
    }
  }
}
