# Android system daemons in Dafny

A Dafny model of the stateful cores of three parts of the Android `system` tree, and proofs about them:

- `vold`: in-place disk encryption with its on-disk footer (`CryptFooter`, `CryptInplace`, `CryptEnable`,
  `CryptPassword`), the container layout (`AsecLayout`) and the log line splitter (`LogSplitter`);
- `adb`: the select-based event loop (`FdEvent`), the file sync protocol at both ends (`SyncWire`, `SyncDisk`,
  `SyncPush`, `SyncPull`, `SyncServe`, `SyncDir`, `SyncList`, `SyncTree`) and the connection handshake (`AdbAuth`);
- `netd`: routing-table slots (`SecondaryTable`), NAT (`NatController`), bandwidth quotas and alerts (`Bandwidth`) and
  the pointer list (`NetdList`).

`Bytes` holds byte strings, positioned writes and little-endian integers, `Iptables` what inserting and deleting a rule
does to a chain. Code that updates objects in place is a class whose methods are proved against functions on values; the
properties over whole runs are then lemmas about those functions, or loop methods over arbitrary command sequences.

## How the outside world enters

- Ciphers, key derivation and signatures are function parameters. `Crypto.Sound` asks that deciphering undoes
  enciphering and unwrapping undoes wrapping; `Working` in `AdbAuth` that signing works and acceptance depends on the
  key alone.
- `Pump` in `AdbAuth` is the input thread between `handle_packet` and the cable. The token of a SYNC(1) that comes back is
  the one its output thread sent.
- Every disk request asks an oracle whether it completes, and a failing mapped write may have stored a prefix. Crash
  safety is stated over the recorded history of the device, that is, over every content it ever held. A mapping longer
  than its disk cannot be made.
- `Disk` in `SyncDisk` answers for the filesystem of the device: whether unlink, open, each write, utime and symlink work,
  where a symbolic link leads, how much a failing write stores, the clock, and what the service's buffer held before.
- `read(2)` cuts, readiness, kernel answers and callbacks are parameters, so statements hold for all of them.
- Deleting a rule with `iptables -D` takes the first rule equal to it. Quota and alert rules are told apart by their name
  alone: the byte value in the command is not compared, so removal works after `updateQuota` has written another value. A
  chain that is still jumped to cannot be removed with `-X`.
- `ip rule flush` takes every from-rule of every routing table; the slot counts in netd do not notice.
- Addition wraps at 2^32 where the source relies on `unsigned` (failure counter, container sizes, the size of a small
  disk); a length word is a signed `int` where the client compares it as one; `unsigned char` data are `Byte`.

## Where code and documentation disagree

The code is what is modelled. The lemmas named give the exact condition under which the promise holds, or a failing input.

- A footer that states a larger size than the structure is skipped by get and not by put (`PutGetExactly`).
- The progress is said never to reach 100 by itself. It stays below exactly when the last block reached does, which
  without extra volumes means a block count divisible by 100 (`CryptfsEnable`, `ProgressBelow100`, `RemaindersKeepBelow`).
- A failure of an extra volume in front of the last is overwritten (`AllVolumesExactly`), so a run can succeed with a
  volume left in plaintext (`LostVolume`).
- The result of the first footer put is ignored, so a run can succeed and mark complete a disk whose key was never
  written (`CryptfsEnable`, `LostKey`).
- A counter of 2^32 failures wraps to success (`CheckSucceedsExactly`, `WrongPasswordAfterWrap`).
- `fdevent_set` is commented as dropping events no longer wanted; it drops the wanted ones (`Set`, `UnwantedSignalled`).
- Descriptors up to 32000 are admitted, more than fit an `fd_set` (`SetsInsideExactly`, `HighDescriptor`), and an object
  may be installed twice (`Install`).
- An older file that cannot be unlinked is written over without being truncated, and OKAY is answered (`HeldExactly`,
  `OldTailKept`); one that cannot be opened stays although the push fails (`FreeAfterFailExactly`, `ReadOnlyMount`).
- A local read error ends a push as if the file ended (`SentWholeExactly`, `LocalFileHeldExactly`, `TruncatedPush`).
- The client accepts paths of 1024 bytes that the service, which counts the mode suffix, refuses
  (`PushAcceptedExactly`), reads at most 256 bytes of a failure reason (`FailAlignedExactly`), and compares lengths as
  signed numbers (`BufferBoundExactly`).
- "Same type" is decided by the conjunction of two modes (`RegMatchExactly`, `LnkMatchExactly`, `LinkTakenForFile`).
- Interface names over 16 characters take a new table slot each time and the empty name none (`NameLengthExactly`,
  `LongNameTakesTwoSlots`), a failed `enableNat` frees a slot that held nothing else (`UnwindRestoresExactly`), its
  unwinding deletes an older copy of the same rules (`ForwardUnwindExactly`), resetting NAT leaves slot counts too high
  (`FlushKeepsCountsExactly`), and the masqueraded interface can be one that is no longer enabled (`MasqueradeExactly`,
  `StaleMasquerade`).
- An interface called "shared" owns the chain of the shared quota (`QuotaNameExactly`, `NamesakeAlone`,
  `NamesakeSharing`, `NamesakeAgain`).
- Inserting a range of a list into itself need not end (`OwnRangeNeverEnds`).
- Container sizes wrap (`SizingExactly`, `MappingsAgreeExactly`, `LargeRequestMapsShort`).

## Model

| member | source | states |
|---|---|---|
| `CryptFooter.FooterRoundTrip` | vold/cryptfs.h:45-60 | The footer structure, written little-endian with its alignment padding (104 bytes), reads back field for field. |
| `CryptFooter.FieldOffsets` | vold/cryptfs.h:45-60 | Where each field lies: magic 0, major 4, minor 6, ftr_size 8, flags 12, keysize 16, spare 20, fs_size 24, failed_decrypt_count 32, crypto_type_name 36, padding 100. |
| `Bytes.LeAt` | vold/cryptfs.h:45-60 | Byte i of a stored word is its digit of weight 256^i. |
| `CryptFooter.Get` | vold/cryptfs.c:244-355 | A footer is only returned with the right magic and major version and a 16-byte key; key and salt have their lengths; anything short or wrong is an error. |
| `CryptFooter.PutGet` | vold/cryptfs.c:145-355 | Put with key and salt, then get, returns the same footer, key and salt, for every recognised footer that states at most its own size and every disk that has room for one. |
| `CryptFooter.PutGetExactly` | vold/cryptfs.c:318-342 | For every footer: put then get is the identity for all keys and salts if and only if the stated ftr_size is at most the structure size. Get skips a larger footer, put does not. |
| `CryptFooter.OversizeFooterLosesKey` | vold/cryptfs.c:318-326 | The failing family behind that condition: with a larger ftr_size the key read is not the key written. |
| `CryptFooter.PutFooterOnlyKeepsSecret` | vold/cryptfs.c:145-242 | A put without key replaces the structure and leaves key and salt as get returned them. |
| `CryptFooter.FooterPutsKeepSecret` | vold/cryptfs.c:145-242 | Any number of footer-only puts keep key and salt; the last footer is the one read. |
| `CryptFooter.PutOutsideFilesystem` | vold/cryptfs.c:145-242 | Every write of a put leaves all bytes in front of the last 0x4000 untouched. |
| `CryptFooter.PutWritesShowFooter` | vold/cryptfs.c:188-226 | From the first of the three writes on, get answers with the new structure. |
| `CryptFooter.PutByte` | vold/cryptfs.c:196-226 | Byte for byte, what a put leaves behind the structure: key, 32 bytes of padding, salt, nothing else. |
| `CryptFooter.LosableKey` | vold/cryptfs.c:318-326 | For every disk and every larger footer there is a key that is lost. |
| `CryptFooter.GetShows` | vold/cryptfs.c:299-316 | Get answers with whatever recognised structure sits at the footer offset. |
| `CryptInplace.Device.constructor` | vold/cryptfs.c:1046-1070 | A device holds its content, with an empty history and an oracle for every I/O request. |
| `CryptInplace.Device.Read` | vold/cryptfs.c:1030-1035 | A raw read returns the bytes there, short only at the end of the device. |
| `CryptInplace.Device.Write` | vold/cryptfs.c:188-226 | A raw write happens completely and is recorded, or not at all. |
| `CryptInplace.Device.WriteMapped` | vold/cryptfs.c:416-428 | A write through the mapping stores, sector by sector, the enciphered data at the same place; every intermediate content is recorded; a failing write has stored exactly as many sectors as its request says. |
| `CryptInplace.Device.StoreSectors` | vold/cryptfs.c:416-428 | Any number of sectors stored one after the other, each content recorded. |
| `CryptInplace.EncPrefixStep` | vold/cryptfs.c:1082-1111 | Enciphering the next sector in place moves the frontier by exactly one. |
| `CryptInplace.MappedWritesAdvance` | vold/cryptfs.c:1082-1111 | Writing back through the mapping what was read raw advances the enciphered prefix by the sectors written. |
| `CryptInplace.MappedTraceStages` | vold/cryptfs.c:1082-1111 | Every content on the way has exactly a prefix enciphered and everything behind it untouched. |
| `CryptInplace.MappedReadBack` | vold/cryptfs.c:416-428 | Read through the mapping, every enciphered sector shows its original plaintext. |
| `CryptInplace.CopyBlock` | vold/cryptfs.c:1092-1099 | One read and one mapped write extend the enciphered prefix by exactly the sectors the two requests store, all of the block if and only if both complete. |
| `CryptInplace.CopyBlocks` | vold/cryptfs.c:1082-1099 | The block loop: exactly a prefix is enciphered at every step, and where it stops is where the requests say; it succeeds if and only if every request goes through; the percentages announced are exactly those reached by the blocks it got to, once each, rising. |
| `CryptInplace.CopySectors` | vold/cryptfs.c:1102-1111 | The loop over the remaining sectors, likewise up to the filesystem size. |
| `CryptInplace.EnableInplace` | vold/cryptfs.c:1046-1121 | Over the whole run the disk has a prefix enciphered and is untouched at and past fs_size. In the end exactly the sectors in front of `Frontier` are enciphered, which the requests determine; Done if and only if every request goes through, and then that is all of them. It divides by zero exactly when there is a block to copy and fewer than 800 sectors in total. |
| `CryptInplace.FrontierFine` | vold/cryptfs.c:1082-1111 | Without a failing request copying gets to the end. |
| `CryptInplace.ProgressBelow100` | vold/cryptfs.c:1365-1366 | Without extra volumes the progress of a complete run stays below 100, as the caller says it does, if and only if the number of blocks is a multiple of 100. |
| `CryptInplace.BelowExactly` | vold/cryptfs.c:1079-1090 | What is announced for any stretch of blocks stays below 100 if and only if its last block is within a hundred times one percent. |
| `CryptInplace.RemaindersKeepBelow` | vold/cryptfs.c:1354-1366 | With extra volumes the block count alone does not decide: 484 and 324 sectors make 101 blocks, and 100 is not reached. |
| `CryptInplace.AnnouncedStep` | vold/cryptfs.c:1083-1091 | Comparing with the last announcement announces each percentage reached exactly once. |
| `CryptEnable.GetDependsOnTail` | vold/cryptfs.c:244-355 | Get looks at nothing in front of the footer. |
| `CryptEnable.StageKeepsFooter` | vold/cryptfs.c:1302-1307 | Enciphering the fs_size sectors never reaches the footer region. |
| `CryptEnable.FirstPutCrashSafe` | vold/cryptfs.c:1308-1318 | Nothing is enciphered before a footer with the size and the in-progress flag is on disk. |
| `CryptEnable.StagesCrashSafe` | vold/cryptfs.c:1350-1352 | While sectors are enciphered the flag stays on disk, so the next boot answers -2. |
| `CryptEnable.LastPutCrashSafe` | vold/cryptfs.c:1386-1390 | Clearing the flag over a fully enciphered filesystem leaves a disk that states all its sectors and that the password opens. |
| `CryptEnable.FlagCleared` | vold/cryptfs.c:1386-1390 | Once the last put is through, do_crypto_complete answers 0 and the password opens the disk. |
| `CryptEnable.PutCryptFtrAndKey` | vold/cryptfs.c:145-242 | The writes happen in order and stop at the first failure, with exactly as many of them on disk as went through; success exactly when the disk has room, all requests complete and the key size is right. |
| `CryptEnable.CutPutSecret` | vold/cryptfs.c:188-226 | A put cut short leaves, of key and salt, exactly what it did not get to as it was. |
| `CryptEnable.PutSecret` | vold/cryptfs.c:196-226 | Key and salt, each written if its request completes. |
| `CryptEnable.StageKeepsSecret` | vold/cryptfs.c:1302-1352 | The copy loops leave key and salt on disk alone. |
| `CryptEnable.StructureOverSecret` | vold/cryptfs.c:1386-1390 | Clearing the flag makes get answer with whatever key and salt are there, whether or not the first put wrote them. |
| `CryptEnable.EncryptUserdata` | vold/cryptfs.c:1302-1352 | Footer, then encryption: every content of the disk is crash safe once the first put went through; key and salt on disk are exactly as far new as that put got; done exactly when every copy request goes through. |
| `CryptEnable.EncryptVolumes` | vold/cryptfs.c:1354-1363 | Each extra volume ends with exactly the sectors enciphered that its own requests got to and all others as they were; the result is that of the last volume alone; the progress stays below 100 exactly when the last block reached does. |
| `CryptEnable.EncryptVolume` | vold/cryptfs.c:1356-1361 | One volume: exactly the sectors its requests got to are enciphered; the other volumes are not touched. |
| `CryptEnable.TallyStep` | vold/cryptfs.c:1354-1366 | How the announcements of successive volumes add up, failing ones included. |
| `CryptEnable.AllVolumesExactly` | vold/cryptfs.c:1354-1363 | "Success means every volume is enciphered to its end" holds for all patterns of I/O failure if and only if no volume in front of the last has a sector, because each overwrites rc. |
| `CryptEnable.LostVolume` | vold/cryptfs.c:1354-1363 | For every list of volumes and every one in front of the last, a run of cryptfs_enable that succeeds although that volume holds its plaintext as before, all others being enciphered to their end. |
| `CryptEnable.LosingRun` | vold/cryptfs.c:1354-1363 | Any such run succeeds, since the last volume went well. |
| `CryptEnable.LostKey` | vold/cryptfs.c:1317-1390 | For every disk, a run that succeeds although the write of the key fails: enciphered to its end, booting as complete with a finished footer, with the key and salt that lay there before. |
| `CryptEnable.EncryptAll` | vold/cryptfs.c:1302-1366 | Userdata and then the volumes: when it is done, when it divides by zero, and what all of them hold. |
| `CryptEnable.ClearFlag` | vold/cryptfs.c:1386-1390 | The last put, whose result is ignored: if it goes through, the disk boots as complete with the key that was there, and opens with the password if that is the right one. |
| `CryptEnable.EncryptDisk` | vold/cryptfs.c:1302-1392 | All writes of a run on a disk with room for the footer. |
| `CryptEnable.CryptfsEnable` | vold/cryptfs.c:1134-1449 | For disks of any size: refused exactly where the code refuses, and nothing is written then, nor on a disk without room for the footer. In every prefix of every other run the footer states the size and either the in-progress flag, so that the disk boots as -2, or no flag, with the disk fully enciphered and every sector the footer states opening with the password, given that the first put went through; otherwise what the disk answers and which key it holds is stated. A finished disk has a footer with the magic, version 1.0, size 104, flags 0, a 16-byte key, the number of sectors in front of the footer, no failure and the cipher name. It succeeds exactly when userdata and the last volume were copied; every volume ends with exactly the sectors enciphered that its own requests got to; the announced progress stays below 100 exactly when the last block reached is within a hundred times one percent. |
| `CryptEnable.CompleteTells` | vold/cryptfs.c:733-777 | 1 exactly on a system that is not encrypted, -1 exactly without a readable footer, -2 exactly with the in-progress flag in it, 0 exactly without. |
| `CryptEnable.StageIsFsPrefix` | vold/cryptfs.c:1302-1307 | A stage of the copy loops is the original filesystem with a prefix enciphered. |
| `CryptEnable.FirstPut` | vold/cryptfs.c:1308-1318 | The first put leaves the filesystem alone; complete, it is crash safe and read back. |
| `CryptEnable.CopyPhase` | vold/cryptfs.c:1350-1352 | The copy loops never change what the next boot answers. |
| `CryptEnable.LastPut` | vold/cryptfs.c:1386-1390 | The last put keeps the filesystem enciphered and, given the right key on disk, is crash safe at every write. |
| `CryptPassword.StepRefines` | vold/cryptfs.c:779-864 | Each check, verification, change or reboot does to the disk what it does to an abstract lock, with the same answer; of the footer only the failure count ever changes. |
| `CryptPassword.SessionRefinesLock` | vold/cryptfs.c:779-981 | Every session in any order answers as the abstract lock: the count on disk is the consecutive failures, reset by success; the stored key is the master key under the current password; every other field of the footer is the one it had. |
| `CryptPassword.LastPasswordVerifies` | vold/cryptfs.c:932-981 | After any session, the last password set verifies and still unwraps the original master key, and the footer is the original one with no failure. |
| `CryptPassword.EnabledLocks` | vold/cryptfs.c:1386-1390 | The disk that a finished run leaves is a lock set to the password it was given, with no failure. |
| `CryptPassword.EnableThenUse` | vold/cryptfs.c:1134-1449 | Both together: after enabling, every session of checks, verifications, changes and reboots answers as a lock that was set to that password, if the footer reached the disk. |
| `CryptPassword.NoFooterRefused` | vold/cryptfs.c:801-807 | Without a footer every command is refused with -1 and nothing changes. |
| `CryptPassword.RefusedElsewhere` | vold/cryptfs.c:779-955 | The other refusals and their codes, with nothing changed. |
| `CryptPassword.ToInt` | vold/cryptfs.c:843-845 | A failure count is told as the int of its 32 bits. |
| `CryptPassword.CheckSucceedsExactly` | vold/cryptfs.c:779-870 | A check on a locked disk succeeds if and only if the mapping can be made and the key mounts the filesystem or the unsigned failure counter is about to wrap. |
| `CryptPassword.WrongPasswordAfterWrap` | vold/cryptfs.c:827-860 | The failing family: with 2^32 - 1 failures on disk a wrong key is answered 0 and saved. |
| `CryptPassword.Vold.constructor` | vold/cryptfs.c:779-790 | The daemon starts without a saved key. |
| `CryptPassword.Vold.TestMountEncryptedFs` | vold/cryptfs.c:779-870 | The code refines the check on every state, password and answer of the mapping; a mapping that cannot be made is -1 and not counted. |
| `CryptPassword.Vold.ChangePw` | vold/cryptfs.c:1451-1482 | The code refines the change: -1 without a saved key, otherwise the key re-wrapped with a footer that keeps everything else. |
| `CryptPassword.FailuresGrowByOne` | vold/cryptfs.c:827-838 | A command adds at most one failure. |
| `FdEvent.EventLoop.constructor` | core/adb/fdevent.c:253-258 | The empty loop satisfies all invariants. |
| `FdEvent.EventLoop.PlistEnqueue` | core/adb/fdevent.c:474-482 | Appends to the ring, which stays well formed. |
| `FdEvent.EventLoop.PlistRemove` | core/adb/fdevent.c:484-490 | Takes one object out of the ring, prev and next staying inverse and the others in order. |
| `FdEvent.EventLoop.PlistDequeue` | core/adb/fdevent.c:492-505 | Takes the oldest pending object, null exactly when there is none. |
| `FdEvent.EventLoop.GrowTable` | core/adb/fdevent.c:434-451 | Growing keeps every entry and leaves the new ones empty, and so the table in step; it goes to 256 entries or at most twice the descriptor. |
| `FdEvent.EventLoop.Register` | core/adb/fdevent.c:428-454 | Aborts exactly for a negative descriptor or one past 32000 outside the table; otherwise changes this one entry and keeps the table in step exactly when the descriptor was free. |
| `FdEvent.EventLoop.Install` | core/adb/fdevent.c:593-609 | On any object, installed before or not: aborts exactly for a negative descriptor or one past 32000 outside the table, and otherwise keeps all invariants if and only if the object was not pending and either it was not active and the descriptor was free, or it was active on this very descriptor and waiting for nothing. It leaves the object in the table, without mask, events, links or forced end of file; select_n grows to cover the descriptor. |
| `FdEvent.EventLoop.Connect` | core/adb/fdevent.c:596-608 | The descriptor part of an install, with the exact condition under which table and select sets stay in step. |
| `FdEvent.EventLoop.EnteredAgain` | core/adb/fdevent.c:595-608 | Installing an active object again: in step if and only if on the same descriptor and with nothing asked for. |
| `FdEvent.EventLoop.ClearLinks` | core/adb/fdevent.c:595-595 | Clearing the links of an object breaks the list if and only if it is on it. |
| `FdEvent.EventLoop.Disconnect` | core/adb/fdevent.c:267-279 | The descriptor leaves the three sets; select_n still covers every registered descriptor and has not grown. |
| `FdEvent.EventLoop.Unregister` | core/adb/fdevent.c:456-472 | Aborts exactly when the table is out of sync with the object. |
| `FdEvent.EventLoop.Deregister` | core/adb/fdevent.c:611-625 | For an active object that never happens; select_n still covers the descriptor just removed. |
| `FdEvent.EventLoop.Remove` | core/adb/fdevent.c:611-625 | Never aborts, keeps all invariants, takes just this object off the list and leaves it inactive with no mask and no event; select_n does not grow, nor fall below the descriptor removed. |
| `FdEvent.EventLoop.Update` | core/adb/fdevent.c:281-300 | The select sets hold exactly the descriptors whose mask asks for the event. |
| `FdEvent.EventLoop.SetsInsideExactly` | core/adb/fdevent.c:267-424 | Everything the code may do next with its three sets, FD_SET and FD_CLR for an installed object, FD_SET for a bad descriptor, select and FD_ISSET below select_n, stays inside an fd_set if and only if select_n is at most FD_SETSIZE. |
| `FdEvent.HighDescriptor` | core/adb/fdevent.c:428-454 | The failing run: descriptor 2000 installed and waiting for nothing takes select_n out of an fd_set, where it stays when the object is removed and nothing is registered. |
| `FdEvent.EventLoop.DropEvents` | core/adb/fdevent.c:637-651 | A pending object loses the events asked for and leaves the list when none is left. |
| `FdEvent.EventLoop.Set` | core/adb/fdevent.c:628-652 | Sets the mask, keeps all invariants, and changes the list only by dropping this object. Its comment says that only wanted events wait afterwards: that is so if and only if nothing but events now asked for was waiting before, since it clears the wanted ones. |
| `FdEvent.UnwantedSignalled` | core/adb/fdevent.c:642-651 | A run against that comment: readable while reading was asked for, then asked for writing only, the object is called with FDE_READ. |
| `FdEvent.ClearingKeeps` | core/adb/fdevent.c:642-646 | Clearing the wanted events leaves nothing unwanted if and only if nothing unwanted was there. |
| `FdEvent.EventLoop.Add` | core/adb/fdevent.c:654-658 | Adds to the mask without enqueueing anything; the object stays pending exactly when some waiting event is left. |
| `FdEvent.EventLoop.Del` | core/adb/fdevent.c:660-664 | Clears from the mask without enqueueing anything. |
| `FdEvent.EventLoop.Mark` | core/adb/fdevent.c:408-421 | Merges events and enqueues unless pending. |
| `FdEvent.EventLoop.ScanLoop` | core/adb/fdevent.c:404-423 | The countdown stops only when nothing is left to report. |
| `FdEvent.EventLoop.Scan` | core/adb/fdevent.c:404-423 | With its early exit the scan marks exactly what a full scan would, each object enqueued once, in descriptor order; it never meets a descriptor without an object. |
| `FdEvent.EventLoop.ScanRest` | core/adb/fdevent.c:404-423 | Descriptors the scan did not reach had nothing to report. |
| `FdEvent.EventLoop.FdCheck` | core/adb/fdevent.c:305-321 | Exactly the registered descriptors below select_n that the kernel calls bad, and their number. |
| `FdEvent.EventLoop.Process` | core/adb/fdevent.c:365-424 | For every result of select, events are exactly merged, nothing else changes, and "missing fde" cannot happen. |
| `FdEvent.EventLoop.CallFdfunc` | core/adb/fdevent.c:507-515 | The callback is given exactly the events that waited, with the object no longer pending, and its calls take effect in order; invariants hold whatever it does. |
| `FdEvent.EventLoop.Execute` | core/adb/fdevent.c:507-515 | The calls of a callback take effect one after the other, each from the setup the last one left; any nesting keeps the invariants and cannot grow the list; select_n stays within an fd_set if they install nothing beyond it. |
| `FdEvent.EventLoop.ForceRead` | core/adb/fdevent.c:541-571 | An exited subprocess is flagged readable and is due exactly when it was not pending. |
| `FdEvent.EventLoop.Subproc` | core/adb/fdevent.c:517-573 | Re-arms the notification descriptor, then calls back exactly the registered, drained object of the subprocess, with FDE_READ, unless it is pending, taking into account what the re-arming drops when it is the notifying object itself. |
| `FdEvent.EventLoop.DispatchOne` | core/adb/fdevent.c:691-693 | One round calls the oldest pending object, with the events it had, and the calls of its callback take effect in order. |
| `FdEvent.EventLoop.Dispatch` | core/adb/fdevent.c:691-693 | The inner loop terminates with the list empty after dequeuing each listed object at most once, whatever the callbacks do (a dequeued object may be called again by the subprocess callback); the oldest one is called first, and the calls of all callbacks take effect in order. If they touch no event object, all are called once, in order, with their events, and nothing else changes. |
| `FdEvent.EventLoop.Loop` | core/adb/fdevent.c:681-695 | Over any number of turns with any callbacks the invariants hold and neither abort is reached. With callbacks that touch no event object, each turn makes exactly the callbacks that are due, that is, one for each installed object with reported bits, with those bits, in the order of descriptors; whatever the callbacks do, the first one due in the first turn is made. select_n stays within an fd_set if nothing is installed beyond it. |
| `FdEvent.EventLoop.ProcessTurn` | core/adb/fdevent.c:365-424 | With nothing pending, what waits after select is exactly what is due; the setup is untouched. |
| `FdEvent.EventLoop.DueNow` | core/adb/fdevent.c:402-422 | The list built from a report is due: every installed object with a reported bit once, with exactly those bits, by descriptor. |
| `FdEvent.EventLoop.TurnOnce` | core/adb/fdevent.c:681-695 | One turn: with quiet callbacks exactly the callbacks due are made; with any callbacks the first one made is for the oldest pending object or else the first one due; their calls take effect in order. |
| `FdEvent.EventLoop.Round` | core/adb/fdevent.c:691-693 | One round of the inner loop, for any callback. |
| `FdEvent.EventLoop.Activate` | core/adb/fdevent.c:593-600 | An installed object is active on its descriptor with an empty mask; if it was not active before, nothing else is out of step. |
| `FdEvent.EventLoop.Enter` | core/adb/fdevent.c:260-265 | The table entry and select_n: in step exactly when the entry was free. |
| `FdEvent.EventLoop.Unqueue` | core/adb/fdevent.c:611-615 | Removing takes a pending object off the list and leaves any other list alone. |
| `FdEvent.EventLoop.ClearState` | core/adb/fdevent.c:622-624 | A removed object is neither active nor pending. |
| `FdEvent.EventLoop.ScanOne` | core/adb/fdevent.c:405-422 | One round of the scan counts down by the sets the descriptor is in. |
| `FdEvent.EventLoop.ScanHit` | core/adb/fdevent.c:410-421 | A reported descriptor has an object, which is marked once. |
| `FdEvent.EventLoop.Take` | core/adb/fdevent.c:691-692 | Taking the oldest object off leaves it pending until it is called. |
| `FdEvent.EventLoop.ExecuteOne` | core/adb/fdevent.c:593-664 | Every API call a callback can make keeps the invariants, cannot grow the list and does to descriptors and masks exactly what it says; an install goes through exactly when it would neither abort nor break the invariants, and the subprocess handler for a descriptor without an object is skipped. |
| `FdEvent.EventLoop.TryInstall` | core/adb/fdevent.c:593-609 | An install from a callback puts the object on the descriptor with an empty mask, or does nothing. |
| `FdEvent.EventLoop.Remask` | core/adb/fdevent.c:628-664 | Set, add and del change the mask of one object, to what they say, and nobody else's. |
| `FdEvent.EventLoop.Withdraw` | core/adb/fdevent.c:611-625 | A removal takes one object from its descriptor and clears its mask, and nobody else's. |
| `FdEvent.EventLoop.TrySubproc` | core/adb/fdevent.c:517-573 | The subprocess handler with an empty callback changes nothing but the mask it re-arms. |
| `FdEvent.LeadsJoin` | core/adb/fdevent.c:507-515 | Calls of one callback after those of another go through the setups of both. |
| `FdEvent.EventLoop.Rearm` | core/adb/fdevent.c:517-524 | The notification descriptor is asked about again, which may drop events that waited for it; no other mask changes. |
| `FdEvent.CountStep` | core/adb/fdevent.c:404-422 | What the countdown counts: the descriptors from i on. |
| `FdEvent.InTurnStep` | core/adb/fdevent.c:691-693 | Calling the head of the list keeps the deliveries in turn. |
| `SyncWire.HeadRoundTrip` | core/adb/file_sync_service.h:38-78 | Id and word of a message are read back from the front of any stream. |
| `SyncWire.DecimalRoundTrip` | core/adb/file_sync_client.c:310-311 | A printed mode is parsed back by strtoul with base 0. |
| `SyncWire.NotationRead` | core/adb/file_sync_service.c:282-286 | strtoul with base 0 reads decimal, octal and hexadecimal notation of any number of 32 bits, behind blanks and a sign, as what it says, and a minus sign modulo 2^32. |
| `SyncWire.LastCommaIsSuffix` | core/adb/file_sync_service.c:282-286 | Whatever commas the path has, the last one is the one in front of the mode. |
| `SyncWire.DeriveModeBits` | core/adb/file_sync_service.c:306-311 | What a created file permits, said of the mode sent: the user what it says, the group what it says of group or user, others what it says of others or the group has, nothing above. |
| `SyncWire.PermitsOne` | core/adb/file_sync_service.c:306-311 | That description fits one mode only. |
| `SyncWire.LastComma` | core/adb/file_sync_service.c:282-282 | The last comma, or none. |
| `SyncWire.LastCommaUnique` | core/adb/file_sync_service.c:282-282 | It is unique. |
| `SyncDisk.StoredExactly` | core/adb/file_sync_service.c:151-224 | A file that could be opened and written is the one sent if and only if the path was free, or held a regular file of the same mode and no longer than the data: the fallback open does not truncate. |
| `SyncDisk.StoredElsewhere` | core/adb/file_sync_service.c:151-224 | Nothing but the path, and the file a link there leads to, is touched. |
| `SyncPush.DrainChunks` | core/adb/file_sync_service.c:171-204 | The service run on what the client writes collects exactly the file, or drains to DONE having stored a prefix and sent one FAIL. |
| `SyncPush.DrainClosed` | core/adb/file_sync_service.c:171-204 | With the file closed everything up to DONE is discarded silently. |
| `SyncPush.TargetRoundTrip` | core/adb/file_sync_service.c:276-311 | The name sent is parsed back to the same path, commas included, the derived mode, and whether it is a link. |
| `SyncPush.PushDelivers` | core/adb/file_sync_service.c:276-317 | For every regular file, every cut of it into reads, every path without NUL whose mode suffix still fits in 1024 bytes, and whatever unlink, open, write and utime do: the service ends at the next command with exactly one answer and the device as `Outcome` says. |
| `SyncPush.PushStores` | core/adb/file_sync_service.c:276-317 | What that comes to when the file is taken and the path is free or can be freed: OKAY, and a regular file with exactly the bytes sent, the permissions that follow from the mode sent, and the time sent if it could be set. |
| `SyncPush.NoModeSent` | core/adb/file_sync_service.c:282-297 | A name without a readable mode is a regular file that everybody may read and write. |
| `SyncPush.HeldExactly` | core/adb/file_sync_service.c:151-224 | After OKAY the device holds the file pushed if and only if the time could be set, or fits, and there was no old file, it could be unlinked, or it is a regular file of the same mode and no longer than the data. |
| `SyncPush.FreeAfterFailExactly` | core/adb/file_sync_service.c:151-224 | After FAIL the path is free if and only if nothing could be opened and it was free or had been unlinked, or the partial file could be unlinked. |
| `SyncPush.ReadOnlyMount` | core/adb/file_sync_service.c:151-170 | On a read-only mount one FAIL is answered and the old file stays. |
| `SyncPush.OldTailKept` | core/adb/file_sync_service.c:160-163 | A file that can be written but not unlinked keeps its mode and its tail behind shorter data, although OKAY is answered. |
| `SyncPush.PushTaken` | core/adb/file_sync_service.c:375-397 | How the service takes a push request apart, and that it refuses exactly a name over 1024 bytes. |
| `SyncPush.SuffixShort` | core/adb/file_sync_client.c:310-311 | The mode suffix has at most six bytes. |
| `SyncPush.LinkDelivers` | core/adb/file_sync_service.c:227-317 | Pushing a link: the device ends with a link to the same target, or one FAIL and the stream given up, exactly as unlink and symlink work; what lay in the buffer before does not matter. |
| `SyncPush.SendLinkOutcome` | core/adb/file_sync_service.c:227-273 | handle_send_link on a whole transfer. |
| `SyncPush.PushAcceptedExactly` | core/adb/file_sync_service.c:375-383 | The service goes on after a push if and only if path and mode suffix together fit in 1024 bytes; the client checks the path alone. |
| `SyncPush.StatusAligned` | core/adb/file_sync_client.c:396-410 | Either answer leaves the client at the next message, for reasons of at most 256 bytes. |
| `SyncPush.FailAlignedExactly` | core/adb/file_sync_client.c:400-406 | The client is aligned behind a FAIL and has stayed inside its buffer if and only if the reason has at most 256 bytes. |
| `SyncPush.Pieces` | core/adb/file_sync_client.c:221-241 | What is sent of the local reads fits the protocol; a read error ends the file. |
| `SyncPush.SentWholeExactly` | core/adb/file_sync_client.c:210-245 | Whatever read(2) does on the local file, what is sent is its front up to where reading ended, and the whole file if and only if no read failed while bytes remained: the error is not reported. |
| `SyncPush.SentFrom` | core/adb/file_sync_client.c:221-241 | The same from any position in the file. |
| `SyncPush.LocalFileHeldExactly` | core/adb/file_sync_client.c:297-410 | Both ends together: after a push answered OKAY the device holds the local file if and only if the time could be set, or fits, and behind the place where reading ended the device has what the file has, which without an old file that stayed means that no read failed while bytes remained. |
| `SyncPush.OkayLeaves` | core/adb/file_sync_service.c:151-224 | What an accepted push leaves at its path, an old file that stayed being written over. |
| `SyncPush.TruncatedPush` | core/adb/file_sync_client.c:382-393 | The failing input: a push whose second read fails in front of the end of the file is answered OKAY and leaves the first piece for the file. |
| `SyncPush.WriteDataFile` | core/adb/file_sync_client.c:210-245 | The loop sends exactly the pieces read, and counts their bytes. |
| `SyncPush.WriteDataBuffer` | core/adb/file_sync_client.c:247-270 | The loop sends exactly those pieces. |
| `SyncPush.WriteDataLink` | core/adb/file_sync_client.c:273-294 | The target of the link with its NUL, or nothing when it cannot be read. |
| `SyncPush.SyncSend` | core/adb/file_sync_client.c:297-395 | Refuses exactly long paths and what is neither a regular file nor a link; otherwise sends the request the theorems are about, with the pieces of the file or the target of the link and its NUL. |
| `SyncPush.Service.constructor` | core/adb/file_sync_service.c:359-366 | A connection starts with nothing sent. |
| `SyncPush.Service.ReadX` | core/adb/file_sync_service.c:174-191 | All the bytes asked for, or failure. |
| `SyncPush.Service.DrainLoop` | core/adb/file_sync_service.c:171-204 | The imperative loop refines the drain function on every stream, malformed ones included, and for every answer of write(2). |
| `SyncPush.Service.DrainTurn` | core/adb/file_sync_service.c:171-204 | One turn of that loop. |
| `SyncPush.Service.HandleSend` | core/adb/file_sync_service.c:151-224 | Open (with the fallback to an existing file), drain, close, unlink or set the times and answer, on every stream and disk. |
| `SyncPush.Service.HandleLink` | core/adb/file_sync_service.c:227-273 | The link handler on every stream; its failing paths give the stream up without draining it. |
| `SyncPush.Service.DoSendTo` | core/adb/file_sync_service.c:276-317 | Parse the name, unlink an older file, hand over to one of the two; on every name, stream and disk. |
| `SyncPush.Buffers` | core/adb/file_sync_client.c:247-270 | The pieces of a file in memory fit the protocol and add up to it. |
| `SyncPush.DrainOne` | core/adb/file_sync_service.c:184-203 | One DATA message is one turn of the loop. |
| `SyncPush.SendFileOutcome` | core/adb/file_sync_service.c:151-224 | handle_send_file on a whole transfer, whatever the disk does. |
| `SyncPull.PullDelivers` | core/adb/file_sync_service.c:319-357 | The client ends with exactly the bytes the device read, or with no file when the device failed anywhere, and always right behind the transfer. |
| `SyncServe.PullServed` | core/adb/file_sync_service.c:319-401 | A RECV request served and its answer received: the client has the device's file, or none if it cannot be opened or read; the device is unchanged and ready for the next command. |
| `SyncServe.PushThenPull` | core/adb/file_sync_service.c:276-401 | Pushed and pulled again over one connection: the client reads OKAY and then exactly the bytes it sent. |
| `SyncServe.ServeSendFirst` | core/adb/file_sync_service.c:395-398 | A SEND that keeps the service alive is served, and then the rest of the stream. |
| `SyncPull.BufferBoundExactly` | core/adb/file_sync_client.c:483-517 | On every stream the client stays inside its buffer if and only if no length it meets is negative as an int. |
| `SyncPull.DoRecv` | core/adb/file_sync_service.c:319-357 | The service loop sends exactly the pieces read and DONE, or FAIL where reading broke off. |
| `SyncPull.SyncRecv` | core/adb/file_sync_client.c:459-528 | The client loop computes the receive function on every stream, signed length tests included. |
| `SyncPull.ReceiveChunks` | core/adb/file_sync_client.c:477-508 | The client loop on what the service loop writes collects exactly the pieces. |
| `SyncServe.StatReplyRoundTrip` | core/adb/file_sync_service.c:56-74 | A stat reply is read back as the same status. |
| `SyncServe.LstatFits` | core/adb/file_sync_service.c:63-71 | Every status reported fits the reply. |
| `SyncServe.ServeStat` | core/adb/file_sync_service.c:371-392 | One STAT at the front of the stream is answered and the rest served; a path over 1024 bytes ends the service. |
| `SyncServe.StatPipeline` | core/adb/file_sync_client.c:702-717 | However many requests are in flight, the i-th reply is for the i-th path; the first path that is too long ends the service there. |
| `SyncServe.DoList` | core/adb/file_sync_service.c:76-127 | The readdir loop sends exactly the entries with short names and a status, in order. |
| `SyncServe.SyncLs` | core/adb/file_sync_client.c:94-112 | The client loop computes the list reader on every stream. |
| `SyncServe.ListDelivers` | core/adb/file_sync_client.c:94-112 | Together: the client is shown exactly those entries and is then right behind the list, also for a directory that cannot be opened. |
| `SyncServe.ShownIsSelection` | core/adb/file_sync_service.c:91-118 | The entries told are the short named ones with a status, each in its place. |
| `SyncServe.StatusLayout` | core/adb/file_sync_service.h:55-67 | Where the words of a status and of a directory entry lie. |
| `SyncServe.ModeTells` | core/adb/file_sync_service.c:56-74 | st_mode: the type of the file in its high bits, for every type, and the permissions in its low twelve. |
| `SyncServe.LstatTells` | core/adb/file_sync_service.c:56-74 | A missing file has a status of zeros, another one its mode, size and time. |
| `SyncServe.ReadListMessages` | core/adb/file_sync_client.c:94-109 | The entries are read back from what is sent of them. |
| `SyncServe.Command` | core/adb/file_sync_service.c:389-407 | Every command, the unknown ones included, with its answer and what it does to stream and device. |
| `SyncServe.ServeOne` | core/adb/file_sync_service.c:368-408 | One turn of the command loop, for every stream. |
| `SyncServe.FileSyncService` | core/adb/file_sync_service.c:359-410 | The command loop over a whole stream of STAT, LIST, SEND, RECV and QUIT: files, output and liveness are those of the serving function. |
| `SyncDir.RegMatchExactly` | core/adb/file_sync_client.c:711-716 | For a local regular file the type test accepts a remote file if and only if it is a regular file, a link or a socket, since it tests the conjunction of the modes. |
| `SyncDir.LnkMatchExactly` | core/adb/file_sync_client.c:711-716 | For a local link it accepts a link, and takes a regular file or a socket as if both were regular files. |
| `SyncDir.UpToDateExactly` | core/adb/file_sync_client.c:711-716 | An entry is flagged if and only if size, type and time of what the device has match in that sense, a missing file never. |
| `SyncDir.LinkTakenForFile` | core/adb/file_sync_client.c:711-716 | The failing input: a remote link of equal size and time is taken for the local regular file. |
| `SyncDir.ServePush` | core/adb/file_sync_client.c:719-732 | A push of a file or link, alone on the stream, is answered with its own status and nothing is left over; the device is as after that push. |
| `SyncDir.LinkStatus` | core/adb/file_sync_client.c:396-410 | The same for a link: success exactly when it was made. |
| `SyncDir.PushedExactly` | core/adb/file_sync_client.c:719-732 | A push the client is told worked left the entry on the device if and only if it was clean, a condition on the old file, unlink and utime. |
| `SyncDir.CleanPush` | core/adb/file_sync_client.c:719-732 | A clean push changes nothing else. |
| `SyncDir.CleanDelivers` | core/adb/file_sync_client.c:719-732 | Clean pushes deliver every unflagged entry. |
| `SyncDir.DeliverElsewhere` | core/adb/file_sync_client.c:719-732 | A path that is nobody's destination, or a flagged one's, is left as it was. |
| `SyncDir.DeliverAt` | core/adb/file_sync_client.c:719-732 | With distinct destinations an unflagged one ends as the local file or link. |
| `SyncDir.StartReadtimes` | core/adb/file_sync_client.c:702-706 | All requests go out, in list order. |
| `SyncDir.FinishReadtimes` | core/adb/file_sync_client.c:707-717 | The loop fails exactly when some path was too long for the service; otherwise an entry is flagged if and only if its own remote file matches. |
| `SyncDir.PushUnflagged` | core/adb/file_sync_client.c:719-732 | Exactly the unflagged entries are pushed, one after the other, up to the first push that fails; device, status and count are those of that fold; pushed and skipped add up to the list. |
| `SyncDir.PushEntry` | core/adb/file_sync_client.c:719-727 | One unflagged entry: the client's send and the service's answer together. |
| `SyncDir.CopyLocalDirRemote` | core/adb/file_sync_client.c:697-739 | Both ends together, for files and links: each entry is skipped exactly when what the device has matches it, the rest are pushed up to the first failure, the counts add up, and if every push is clean the device holds every entry not skipped. With a path over 1024 bytes it fails and nothing is pushed. |
| `SyncDir.DeliveredHolds` | core/adb/file_sync_client.c:717-739 | What a clean synchronisation leaves at an unskipped destination: a regular file with the bytes and the time of the local one and the permissions that follow from its mode, or a link with its target. |
| `SyncDir.DeliveredMatches` | core/adb/file_sync_client.c:711-716 | What was just delivered counts as up to date, a link provided the clock of the device is not behind. |
| `SyncDir.SecondSyncSkipsAll` | core/adb/file_sync_client.c:701-739 | After a synchronisation a second one skips every entry, links provided the clock of the device is not behind. |
| `SyncTree.RenderApart` | core/adb/file_sync_client.c:571-598 | Files with different relative paths get different destinations. |
| `SyncTree.ReorderedApart` | core/adb/file_sync_client.c:601-671 | So they do in whatever order the list has them. |
| `SyncTree.TreeApart` | core/adb/file_sync_client.c:601-671 | The list built from a well-named tree names no destination twice. |
| `SyncTree.BuildList` | core/adb/file_sync_client.c:601-671 | The traversal gives the entries of the tree, with distinct destinations. |
| `SyncTree.SecondListMatches` | core/adb/file_sync_client.c:674-739 | After clean pushes every file and link of the tree matches what the device has, in the order of any second list. |
| `SyncTree.SyncTwice` | core/adb/file_sync_client.c:674-739 | Two synchronisations of one tree in a row, each with a list of its own: if the pushes of the first are clean and no path is too long, both succeed, and the second pushes nothing, skips everything and leaves the device as it is. |
| `SyncDir.OutcomeStatus` | core/adb/file_sync_client.c:396-410 | The client reads success exactly when the device took the file. |
| `SyncList.EachFileOnce` | core/adb/file_sync_client.c:601-671 | In a tree with distinct names per directory no relative path is listed twice. |
| `SyncList.ListedExactly` | core/adb/file_sync_client.c:601-671 | The reference lists a file under a path if and only if a walk down the tree along that path finds it and it is a regular file or a link. |
| `SyncList.RenderUnder` | core/adb/file_sync_client.c:638-641 | Descending into a directory moves its name to both roots: source and destination keep the same relative path. |
| `SyncList.ReadDirectory` | core/adb/file_sync_client.c:618-660 | The readdir loop: what it lists and what it puts off add up to the directory. |
| `SyncList.LocalBuildList` | core/adb/file_sync_client.c:601-671 | For every finite tree the recursion ends and adds exactly the files and links of the tree, each with the same path below source and destination, leaving out only paths too long for the buffer. |
| `SyncList.RenderLeaf` | core/adb/file_sync_client.c:642-658 | A file or link is listed unless its path is too long; special files are skipped. |
| `SyncList.RenderDir` | core/adb/file_sync_client.c:638-641 | A directory contributes what is below it. |
| `SyncList.FirstComponent` | core/adb/file_sync_client.c:571-598 | Names without a slash make the first path component unique. |
| `AdbAuth.BannerState` | core/adb/adb.c:427-490 | A banner names its own state, every other one the state of a host, and none leaves the connection offline. |
| `AdbAuth.SuccessorAt` | core/adb/adb_auth_host.c:359-379 | The key after the i-th is the next one, none after the last. |
| `AdbAuth.AdbAuthNextkey` | core/adb/adb_auth_host.c:359-379 | The walk along the list yields the successor. |
| `AdbAuth.AdbAuthVerify` | core/adb/adb_auth_client.c:136-153 | Accepts exactly when some public key accepts the signature of the right length. |
| `AdbAuth.Endpoint.constructor` | core/adb/adb.c:216-224 | A transport starts offline without key or token. |
| `AdbAuth.Endpoint.SendRequest` | core/adb/adb.c:327-345 | Draws a token and sends it, or does nothing when drawing fails. |
| `AdbAuth.Endpoint.HandlePacket` | core/adb/adb.c:366-610 | The code refines the transition function on every packet in every state, a public key that cannot be read included. |
| `AdbAuth.OnlyConvincingGoesOnline` | core/adb/adb.c:514-552 | A device with authentication goes online only by an accepted signature or consent. |
| `AdbAuth.SocketsNeedConviction` | core/adb/adb.c:502-603 | For every stream of packets: an online device was convinced earlier and has been online since. |
| `AdbAuth.TouchedExactly` | core/adb/adb.c:492-610 | Over every stream of events: one touches a socket if and only if it is a stream packet, the device was convinced at an earlier event, and no SYNC(0) or second CNXN has ended the connection since. |
| `AdbAuth.StaysOnline` | core/adb/adb.c:492-610 | From a convincing event on the device is online until an event that ends the connection. |
| `AdbAuth.RejectedRound` | core/adb/adb.c:531-552 | A rejected key brings both ends to the same situation one key further. |
| `AdbAuth.AcceptedRound` | core/adb/adb.c:531-552 | An accepted key puts the device online and resets its count. |
| `AdbAuth.RejectedRounds` | core/adb/adb.c:531-552 | After r rejected keys the device has been offline at every delivery. |
| `AdbAuth.HandshakeAccepts` | core/adb/adb.c:514-552 | With j keys rejected and the next accepted, the device is offline until exactly token j + 1 is answered, then online; one delivery later both ends are connected. |
| `AdbAuth.Start` | core/adb/transport.c:240-372 | Both ends made and told SYNC(1): the host announces itself with its banner, the device waits, and both let packets out. |
| `AdbAuth.StartsFresh` | core/adb/adb.c:503-512 | That is where the handshake theorems begin. |
| `AdbAuth.StartConnects` | core/adb/adb.c:502-552 | The whole handshake from there: if key j is the first one accepted, both ends are connected after exactly 2j + 4 deliveries, each in the state the banner of the other names, the device having been offline before. |
| `AdbAuth.ConsentConnects` | core/adb/adb.c:366-389 | If no key is accepted, the public key is offered, and consent to it connects both ends. |
| `AdbAuth.NoAuthConnects` | core/adb/adb.c:520-528 | A device without authentication is online with the first packet, the host with the second. |
| `AdbAuth.SyncEnds` | core/adb/transport.c:310-372 | SYNC(0) takes an end offline and ends its input thread. |
| `AdbAuth.GoneSendsNothing` | core/adb/transport.c:310-372 | From then on nothing leaves. |
| `AdbAuth.IdleSendsNothing` | core/adb/transport.c:310-372 | Nor before SYNC(1) has come back. |
| `AdbAuth.ActivePasses` | core/adb/transport.c:310-372 | In between, everything goes out, in order. |
| `AdbAuth.HandshakeRejects` | core/adb/adb.c:514-552 | If no key is accepted, the answer to token n + 1 is the public key, if it can be read, the device having been offline throughout. |
| `AdbAuth.AnyAcceptsMeans` | core/adb/adb_auth_client.c:145-150 | The search finds an accepting key if and only if there is one. |
| `AdbAuth.CursorMoves` | core/adb/adb_auth_host.c:359-379 | The cursor goes through the keys in order and ends at none. |
| `AdbAuth.FirstToken` | core/adb/adb.c:514-529 | The host's CNXN is answered with the first token. |
| `AdbAuth.HostFollows` | core/adb/adb.c:514-529 | The device's CNXN connects the host: both ends are online, each in the state that the banner of the other names, with nothing under way. |
| `AdbAuth.LastToken` | core/adb/adb.c:366-383 | When the keys are used up the public key is sent, if it can be read, and the cursor is back at none. |
| `SecondaryTable.Find` | netd/SecondaryTableController.cpp:52-61 | The first slot of that name, or -1 when there is none. |
| `SecondaryTable.CountedWeight` | netd/SecondaryTableController.cpp:116-125 | Counting tracks what is alive; the slot is freed exactly when nothing is. |
| `SecondaryTable.RouteCounted` | netd/SecondaryTableController.cpp:82-114 | A route counts twice, and frees the slot exactly when nothing is left. |
| `SecondaryTable.StepConsistent` | netd/SecondaryTableController.cpp:52-188 | Every matched command keeps names distinct and each count at two per route plus one per from-rule and local route; a slot is freed only at zero. |
| `SecondaryTable.RunConsistent` | netd/SecondaryTableController.cpp:52-188 | So does every run of matched commands. |
| `SecondaryTable.LongNameTakesTwoSlots` | netd/SecondaryTableController.cpp:63-80 | The failing family for names over sixteen characters: stored cut, never found again, two slots. |
| `SecondaryTable.AddAllEffect` | netd/NatController.cpp:118-126 | The loop over the addresses counts each local route and each from-rule granted. |
| `SecondaryTable.AddAllGranted` | netd/NatController.cpp:118-126 | With every addition granted: a rule for each address, and two counts. |
| `SecondaryTable.DelAllHeld` | netd/NatController.cpp:240-249 | Taking back distinct addresses that have their rule and counts: the rules are gone and two counts each, and the slot with the last. |
| `SecondaryTable.DelAllEffect` | netd/NatController.cpp:128-135 | Unwinding takes back exactly what got through. |
| `SecondaryTable.UnwindRestoresExactly` | netd/NatController.cpp:118-140 | A failed enable restores the slot if and only if its count was positive before (or there were no addresses); the rules are always restored. |
| `SecondaryTable.FlushKeepsCountsExactly` | netd/NatController.cpp:77-78 | After the rule flush of setDefaults the slot counts are still right if and only if no from-rule was alive. |
| `SecondaryTable.SecondaryTableController.constructor` | netd/SecondaryTableController.cpp:40-47 | All slots are free. |
| `SecondaryTable.SecondaryTableController.FindTableNumber` | netd/SecondaryTableController.cpp:52-61 | The loop finds the first slot of the name. |
| `SecondaryTable.SecondaryTableController.ModifyRuleCount` | netd/SecondaryTableController.cpp:116-125 | Changes one slot, as counted. |
| `SecondaryTable.SecondaryTableController.ModifyRouteAt` | netd/SecondaryTableController.cpp:82-114 | Counts twice when the command worked, otherwise changes nothing. |
| `SecondaryTable.SecondaryTableController.AddRoute` | netd/SecondaryTableController.cpp:63-80 | Finds or takes a slot and counts the route; -1 when all slots are taken or the command fails. |
| `SecondaryTable.SecondaryTableController.RemoveRoute` | netd/SecondaryTableController.cpp:145-156 | -1 without a slot of that name. |
| `SecondaryTable.SecondaryTableController.ModifyFromRule` | netd/SecondaryTableController.cpp:158-173 | Counts only when the command worked on a used slot. |
| `SecondaryTable.SecondaryTableController.ModifyLocalRoute` | netd/SecondaryTableController.cpp:175-188 | Counts on a used slot whatever the command answers. |
| `SecondaryTable.NameLengthExactly` | netd/SecondaryTableController.cpp:52-80 | Adding any number of routes for an interface keeps the slots consistent if and only if its name has one to sixteen characters. |
| `SecondaryTable.EmptyNameCounts` | netd/SecondaryTableController.cpp:52-80 | A route for the empty name is counted in a slot that looks free. |
| `SecondaryTable.DelOne` | netd/NatController.cpp:130-134 | One address taken back. |
| `NatController.FirstMatchMeaning` | netd/NatController.cpp:169-213 | First-match evaluation of the chain lets a packet through if and only if an enabled pair has it going out and not INVALID, or coming in and ESTABLISHED or RELATED. |
| `NatController.EnableMirrors` | netd/NatController.cpp:97-167 | Enabling appends the pair and keeps one final DROP; masqueraded is the interface of the pair enabled when there was none. |
| `NatController.DeleteTripleAt` | netd/NatController.cpp:218-256 | Deleting the rules of an enabled pair removes its first triple and nothing else. |
| `NatController.DisableMirrorsExactly` | netd/NatController.cpp:218-256 | Disabling keeps count, chain and the masqueraded interface in step if and only if the pair was enabled or nothing was. |
| `NatController.BalancedRunMirrors` | netd/NatController.cpp:97-256 | Over every balanced run the chain is the remaining triples and a single final DROP, and the one masqueraded interface that of the pair enabled when there was none. |
| `NatController.BalancedRunFilters` | netd/NatController.cpp:97-256 | So packets are filtered exactly by the remaining pairs. |
| `NatController.MasqueradeExactly` | netd/NatController.cpp:149-164 | If the masqueraded interface belongs to an enabled pair, it still does after every enable, and after disabling an enabled pair if and only if it was the last of all, or was not on that interface, or another one is. |
| `NatController.StaleMasquerade` | netd/NatController.cpp:149-164 | The failing run: two pairs, the first one disabled, and its interface is still the one masqueraded. |
| `NatController.ForwardUnwindExactly` | netd/NatController.cpp:169-213 | Unwinding a half-added triple restores the chain if and only if the pair was not enabled already. |
| `NatController.Controller.constructor` | netd/NatController.cpp:41-43 | The controller starts from the defaults. |
| `NatController.Controller.SetDefaults` | netd/NatController.cpp:71-88 | Stops at the first flush that fails, having reset only what came before it; otherwise chain, masquerading, count and every from-rule are gone. |
| `NatController.Controller.AddForwardRules` | netd/NatController.cpp:169-213 | Three additions with unwinding, for every answer. |
| `NatController.Controller.DeleteForwardRules` | netd/NatController.cpp:169-213 | Three deletions whose failures are ignored. |
| `NatController.Controller.AddAddress` | netd/NatController.cpp:120-124 | One address: a from-rule and a local route. |
| `NatController.Controller.AddAddresses` | netd/NatController.cpp:118-126 | The loop; it reports failure exactly when some command failed. |
| `NatController.Controller.DeleteAddresses` | netd/NatController.cpp:128-135 | The unwinding loop. |
| `NatController.Controller.EnableNat` | netd/NatController.cpp:97-167 | Refused, with nothing changed, exactly for names over 16 characters or fewer arguments than the count. Otherwise it succeeds exactly when every command works, with the pair enabled and a rule for each of the first count arguments, two counts each. Each failure is tied to its command: a failing rule or route leaves the controller as it was; a failing forward rule leaves the unwound chain; a failing masquerade rule the defaults, as far as the flushes work. The addresses are taken back in every case. |
| `NatController.AddressesAdded` | netd/NatController.cpp:118-126 | The addresses added are the first count arguments. |
| `NatController.AddressesDropped` | netd/NatController.cpp:240-249 | So are the addresses taken back. |
| `NatController.Controller.AddPair` | netd/NatController.cpp:128-150 | The forward rules of a pair, the final DROP moved behind them, and the count, or what a failing one of them leaves. |
| `NatController.Controller.DisableNat` | netd/NatController.cpp:218-256 | Refused, with nothing changed, exactly as enabling is; otherwise rules and addresses are removed: for addresses that have their rule and their counts, exactly those rules and two counts each, and the slot with the last. At zero everything, all from-rules included, is reset as far as the flushes work. |
| `NatController.Controller.Serve` | netd/NatController.cpp:97-256 | On the controller itself, over any requests and answers: if all were careful, count, chain and masquerading mirror the pairs of the requests answered 0, and packets are let through exactly as these pairs allow. |
| `NatController.Controller.ServeOne` | netd/NatController.cpp:97-256 | One careful request takes effect or leaves the controller as it was. |
| `NatController.FailedHarmless` | netd/NatController.cpp:112-163 | An enable that fails at any command, of a pair that was not enabled, leaves count, chain and masquerading as they were. |
| `NatController.FollowSnoc` | netd/NatController.cpp:97-256 | How pairs, masquerading and care go on with one more request. |
| `NatController.VerdictTriples` | netd/NatController.cpp:169-213 | First-match evaluation of any number of triples and the final DROP. |
| `NatController.DeleteEnabledTriple` | netd/NatController.cpp:218-256 | Deleting from the whole chain removes the first copy of the pair. |
| `NatController.DeleteAbsentTriple` | netd/NatController.cpp:218-256 | Deleting a pair that is not enabled changes nothing. |
| `Bandwidth.ShareOne` | netd/BandwidthController.cpp:412-464 | A new shared interface brings exactly one jump. |
| `Bandwidth.UnshareOne` | netd/BandwidthController.cpp:466-499 | Removing it takes exactly that jump; the jumps still mirror the lists if and only if it is not an interface called "shared" with a quota of its own. |
| `Bandwidth.QuotaOne` | netd/BandwidthController.cpp:412-464 | A new interface with its own quota brings exactly one jump to its own chain. |
| `Bandwidth.UnquotaOne` | netd/BandwidthController.cpp:466-499 | Removing an interface not called "shared" takes exactly its jump, and no other jump leads to its chain. |
| `Bandwidth.CostlyQuotaOne` | netd/BandwidthController.cpp:412-464 | Its chain has the quota rule in front of the penalty box; the shape is kept if and only if the interface is not called "shared" or somebody shares. |
| `Bandwidth.QuotaNameExactly` | netd/BandwidthController.cpp:412-499 | In every state of the lists a quota can be set for an interface and removed again without breaking the chains, if and only if the interface is not called "shared"; for that name it breaks them in every state. |
| `Bandwidth.OtherNamesUnbroken` | netd/BandwidthController.cpp:412-499 | No command of a run that sets no quota for an interface called "shared" breaks anything. |
| `Bandwidth.NamesakeAlone` | netd/BandwidthController.cpp:637-646 | The failing run while nobody shares: the shared chain has a quota rule in front of its penalty box all the same. |
| `Bandwidth.NamesakeSharing` | netd/BandwidthController.cpp:716-721 | The failing run while somebody shares: removing the quota of "shared" leaves the chain of those who share empty, and gone if the one who shares is itself called "shared". |
| `Bandwidth.NamesakeAgain` | netd/BandwidthController.cpp:607-667 | Out of shape is not for good: setting the quota for "shared" once more after that restores everything. |
| `Bandwidth.InsertJump` | netd/BandwidthController.cpp:447-463 | A jump goes behind the alert and in front of the accounting rules. |
| `Bandwidth.BandwidthController.constructor` | netd/BandwidthController.cpp:143-148 | The controller before its first enable. |
| `Bandwidth.BandwidthController.EnableBandwidthControl` | netd/BandwidthController.cpp:234-260 | Establishes the invariant over whatever the kernel held; costly chains of interfaces are not flushed. |
| `Bandwidth.BandwidthController.AddJump` | netd/BandwidthController.cpp:447-463 | Both chains get the jump in the right place. |
| `Bandwidth.BandwidthController.RemoveJump` | netd/BandwidthController.cpp:466-499 | Both chains lose it. |
| `Bandwidth.BandwidthController.PrepUniqueChain` | netd/BandwidthController.cpp:420-438 | Whether or not the chain pre-exists, it ends holding just the penalty box jump. |
| `Bandwidth.BandwidthController.SetInterfaceSharedQuota` | netd/BandwidthController.cpp:501-566 | Refuses exactly 0, long names and removals of strangers; the list and the shared quota afterwards; the invariant is kept exactly unless `Breaks` says so of the lists. |
| `Bandwidth.BandwidthController.RemoveInterfaceSharedQuota` | netd/BandwidthController.cpp:569-605 | The last interface takes the quota rule and the quota with it; the invariant, exactly unless `Breaks`. |
| `Bandwidth.BandwidthController.SetInterfaceQuota` | netd/BandwidthController.cpp:607-667 | Answer and list for every name and value, and what a new quota does to the chains, also when they are not in shape; the invariant, exactly unless `Breaks`. |
| `Bandwidth.BandwidthController.RemoveInterfaceQuota` | netd/BandwidthController.cpp:691-722 | Answer and list; the jump is gone, and the chain too unless something still jumps to it; the invariant, exactly unless the name is "shared". |
| `Bandwidth.BandwidthController.SetGlobalAlert` | netd/BandwidthController.cpp:799-818 | The alert is first in both chains, and in bw_FORWARD iff something is tethered. |
| `Bandwidth.BandwidthController.RemoveGlobalAlert` | netd/BandwidthController.cpp:841-856 | It is gone from all three. |
| `Bandwidth.BandwidthController.AddTether` | netd/BandwidthController.cpp:820-839 | The alert enters bw_FORWARD with the first tether only. |
| `Bandwidth.BandwidthController.RemoveTether` | netd/BandwidthController.cpp:858-880 | And leaves it with the last; -1 without a tether. |
| `Bandwidth.BandwidthController.Run` | netd/BandwidthController.cpp:234-880 | Commands after an enable, up to the first that breaks something. Alert first if set, one jump per tracked interface, the two accounting rules, every live costly chain with its quota before the penalty box, and the alert in bw_FORWARD once iff set and tethered, all hold after every command so far if and only if none of them breaks; the lists alone decide which one does, and the run stops there. Lists, alert and tether count are those of the commands carried out. |
| `Bandwidth.LastAlertHolds` | netd/BandwidthController.cpp:799-856 | The alert after a run is what the last command that changes it says. |
| `Bandwidth.TethersCounted` | netd/BandwidthController.cpp:821-880 | The tether count is the tethers added less those removed, as long as none is removed that is not there. |
| `Bandwidth.ListStepMeans` | netd/BandwidthController.cpp:501-790 | What a command changes in the lists: who shares, or the quota of one interface, and nothing of anybody else; -1 removes; 0 and long names are refused. |
| `Bandwidth.QuotaSetOnly` | netd/BandwidthController.cpp:607-685 | Setting a quota changes that of one interface. |
| `Bandwidth.QuotaRemovedOnly` | netd/BandwidthController.cpp:691-725 | Removing it takes it away from that one. |
| `Bandwidth.BandwidthController.Execute` | netd/BandwidthController.cpp:234-880 | Every single command: the lists, the alert and the tether count after it, and the invariant if and only if it is not one that breaks. |
| `Bandwidth.CostlyUnquotaOne` | netd/BandwidthController.cpp:466-499 | Removing an interface removes its chain and no other. |
| `Bandwidth.CostlyReshare` | netd/BandwidthController.cpp:501-605 | The shared chain has its quota rule exactly while somebody shares it; left by the last, the shape is kept if and only if no interface called "shared" has a quota. |
| `Bandwidth.AlertIn` | netd/BandwidthController.cpp:799-818 | The alert goes first. |
| `Bandwidth.AlertOut` | netd/BandwidthController.cpp:841-856 | Deleting it leaves the rest. |
| `Bandwidth.BandwidthController.FlushAndAccount` | netd/BandwidthController.cpp:103-141 | After flushing, the chains hold the two accounting rules and costly_shared its penalty box. |
| `Bandwidth.BandwidthController.AddShared` | netd/BandwidthController.cpp:532-544 | The first shared interface brings the quota rule with it; the invariant. |
| `Bandwidth.BandwidthController.DropShared` | netd/BandwidthController.cpp:591-603 | The last one takes the quota rule away; the invariant, exactly unless an interface called "shared" has a quota and this is it or the last to share. |
| `Bandwidth.BandwidthController.FindQuota` | netd/BandwidthController.cpp:630-635 | The first interface of that name. |
| `Bandwidth.BandwidthController.AddUnique` | netd/BandwidthController.cpp:637-646 | Chain, jump, quota rule and list entry together; the invariant if and only if the name is not "shared" or somebody shares. |
| `Bandwidth.BandwidthController.DropUnique` | netd/BandwidthController.cpp:716-721 | List entry, jump and chain; the invariant if and only if the name is not "shared". |
| `Bandwidth.BandwidthController.DropChain` | netd/BandwidthController.cpp:466-499 | cleanupCostlyIface in any state of the chains: jump and chain gone, or the chain flushed while something still jumps to it. |
| `Bandwidth.BandwidthController.Revalue` | netd/BandwidthController.cpp:648-654 | Only the value changes. |
| `NetdList.List.constructor` | netd/List.h:292-296 | An empty circle through the sentinel. |
| `NetdList.List.IsEmpty` | netd/List.h:182-182 | Exactly when there are no values. |
| `NetdList.List.Link` | netd/List.h:212-220 | Four pointer updates put one node into the circle, prev and next staying inverse. |
| `NetdList.List.Insert` | netd/List.h:212-220 | The values are spliced by one before the position. |
| `NetdList.List.InsertRange` | netd/List.h:222-226 | The values are spliced by the range of another list, which is unchanged. |
| `NetdList.List.InsertOwnRange` | netd/List.h:222-226 | A range of the list itself, the position not inside it: the values are spliced by the range as it was. |
| `NetdList.List.OwnRangeNeverEnds` | netd/List.h:222-226 | With the position behind the first node of the range and not behind its end, the loop does not end: after any number of turns it goes on. |
| `NetdList.List.Turn` | netd/List.h:223-225 | One turn of that loop. |
| `NetdList.List.Unlink` | netd/List.h:229-236 | Two pointer updates take one node out of the circle. |
| `NetdList.List.Erase` | netd/List.h:229-236 | One value is cut and the next node returned. |
| `NetdList.List.EraseRange` | netd/List.h:238-243 | The range is cut. |
| `NetdList.List.Distance` | netd/List.h:269-283 | The number of steps between two positions. |
| `NetdList.List.Size` | netd/List.h:184-187 | The number of values. |
| `NetdList.List.Clear` | netd/List.h:245-257 | No values, and a well-formed circle. |
| `NetdList.List.CopyPrefix` | netd/List.h:320-324 | The first loop of the assignment overwrites the common prefix in place. |
| `NetdList.List.Assign` | netd/List.h:313-329 | The target equals the source, which is unchanged; the first min(len) nodes are reused; self-assignment changes nothing. |
| `NetdList.List.CopyOne` | netd/List.h:323-324 | One value copied, both iterators advanced, the source unchanged. |
| `LogSplitter.RunCuts` | vold/logwrapper.c:34-72 | The one-character-at-a-time reference loses no byte and cuts only at newlines or at 4095 bytes. |
| `LogSplitter.CutsUnique` | vold/logwrapper.c:34-72 | There is only one such cut of a stream. |
| `LogSplitter.SplitExactly` | vold/logwrapper.c:34-72 | So the reference is characterised without running it. |
| `LogSplitter.SplitPieces` | vold/logwrapper.c:34-72 | What is logged: the pieces of that cut, then the rest unless it is empty; every byte of the stream is in them. |
| `LogSplitter.CarriesOn` | vold/logwrapper.c:37-65 | Scanning left-overs again together with new bytes carries on the reference. |
| `LogSplitter.CapLate` | vold/logwrapper.c:52-56 | Flushing a full buffer after the scan is flushing at the 4095th byte. |
| `LogSplitter.Log` | vold/logwrapper.c:44-47 | What is logged is the C string of the line. |
| `LogSplitter.Scan` | vold/logwrapper.c:40-50 | The scanning loop over the buffer in place. |
| `LogSplitter.Settle` | vold/logwrapper.c:52-65 | Flush or move the left-overs to the front; fewer than 4095 bytes stay, so the next read is offered at least one. |
| `LogSplitter.Take` | netd/logwrapper.c:36-65 | One turn of the outer loop. |
| `LogSplitter.Parent` | vold/logwrapper.c:30-73 | For every stream and every way read() cuts it, the log is that of the reference: the pieces of the one cut of the stream into lines and full buffers, then the unterminated rest unless it is empty. |
| `LogSplitter.PendingClean` | vold/logwrapper.c:40-50 | Left-overs hold neither newline nor carriage return. |
| `LogSplitter.Rescan` | vold/logwrapper.c:40-50 | Scanning left-overs again changes nothing. |
| `LogSplitter.ScanOne` | vold/logwrapper.c:41-49 | One character of the scan in place. |
| `LogSplitter.Got` | vold/logwrapper.c:37-37 | A read returns at least one byte unless the stream is over, for at least one byte offered. |
| `AsecLayout.SizingExactly` | vold/VolumeManager.cpp:293-303 | The body is the least multiple of 63 sectors with room for request and headroom if and only if the request is below 2^30 sectors. |
| `AsecLayout.OffsetsAgree` | vold/Loop.cpp:262-273 | The superblock offset written and the one read are the same for every size, even after wrap-around. |
| `AsecLayout.SuperblockInFileExactly` | vold/VolumeManager.cpp:357-368 | The superblock lies inside the file if and only if the file size has not wrapped to zero. |
| `AsecLayout.MappingsAgreeExactly` | vold/VolumeManager.cpp:905-923 | The mappings made at create and at mount have equal length and stop before the superblock if and only if the file is below 2^32 bytes. |
| `AsecLayout.LargeRequestMapsShort` | vold/VolumeManager.cpp:293-307 | A concrete request over 4 GB where they differ. |
| `AsecLayout.SuperblockRoundTrip` | vold/Asec.h:20-41 | The packed superblock reads back. |
| `AsecLayout.MappedWritesKeepTail` | vold/VolumeManager.cpp:329-330 | Writes through the mapping leave everything behind it alone. |
| `AsecLayout.SuperblockSurvives` | vold/Loop.cpp:252-292 | Whatever is written through the mapping, superblock and length are found again. |
| `AsecLayout.NewSbBytes` | vold/Asec.h:20-41 | The nine bytes createAsec writes. |
| `AsecLayout.UsedLookup` | vold/Loop.cpp:252-292 | What a mount finds in an image that was written to, also when its size has wrapped. |
| `AsecLayout.Container.CreateUseMount` | vold/VolumeManager.cpp:240-940 | Created, written to in any way through the mapping, and mounted: the same body is mapped, if and only if the file is below 2^32 bytes (a longer one is not written to in between). |
| `AsecLayout.Container.SeekSigned` | vold/Loop.cpp:235-250 | An offset is taken exactly when off_t is wide or the 32 bits are not negative. |
| `AsecLayout.Container.CreateImageFile` | vold/Loop.cpp:235-250 | A file of zeros of the wrapped size; -1 and an empty file if off_t becomes negative. |
| `AsecLayout.Container.CreateAsec` | vold/VolumeManager.cpp:240-368 | Succeeds exactly under the stated conditions, with superblock and mapping in place; a failure leaves no file behind except an empty one when truncating failed. |
| `AsecLayout.Container.LookupInfo` | vold/Loop.cpp:252-292 | Superblock and size, or an error if the offset is refused or the read is short. |
| `AsecLayout.Container.MountAsec` | vold/VolumeManager.cpp:861-940 | A wrong magic or version is refused; otherwise everything before the superblock is mapped. |
| `AsecLayout.FileSectors` | vold/Loop.cpp:242-242 | The file has the sectors of body and superblock, modulo 2^23. |
| `AsecLayout.Container.constructor` | vold/VolumeManager.cpp:240-242 | No container to begin with. |

## Left out

- AES, PBKDF2, RSA and the random generators: parameters with the laws above.
- The footer kept in a separate file, encryption by wiping, `cryptfs_restart` and the mount and framework steps around it.
- Short transfers of `read(2)` and `write(2)` on disks.
- CryptInplace.Device.Write: a failing footer, key or salt write stores nothing; torn writes inside one sector are not
  modelled.
- CryptEnable.CryptfsEnable: the whole preparation before the first write is one yes-or-no parameter, and a disk has fewer
  than 2^32 sectors.
- AdbAuth.Start: a transport is told SYNC(1) once; a SYNC with a stale token, which the input thread ignores, is not
  modelled.
- The epoll variant of the event loop, `fdevent_create` and `fdevent_destroy`, and closing descriptors.
- FdEvent.EventLoop.Update: where a descriptor lies outside an `fd_set` the sets of the model still hold it; what `FD_SET`
  and `FD_CLR` then overwrite is not modelled.
- FdEvent.EventLoop.Execute: callbacks are sequences of API calls on known objects; an install that would abort or, as
  `Install` shows, break the invariants is skipped, and so is the subprocess handler for a descriptor without an object,
  where the source would follow a null pointer.
- FdEvent.EventLoop.ExecuteOne: the same.
- FdEvent.EventLoop.GrowTable: the new part of the table is cleared as a whole, although the source passes the size of an
  `int` per entry.
- Creating parent directories on the device, which is part of whether opening works, and opening an existing device, FIFO
  or socket for a push, which counts as not openable.
- SyncPush.SyncSend: the check of package archives before a push is not modelled.
- SyncPull.SyncRecv: the local file can be created and written; what a length that is negative as an `int` overwrites is
  not modelled, here nor for the reason of a failure.
- SyncDir.CopyLocalDirRemote: reasons of failure have at most 256 bytes, as those of `strerror` do; longer ones leave the
  client out of step (`FailAlignedExactly`).
- SyncTree.SyncTwice: the local files stay as the tree says and are read whole; what a failing read does to one push is in
  `LocalFileHeldExactly`.
- Directory trees with symbolic links to directories or failing `stat`.
- Socket and transport internals of adb beyond the input thread: a packet only tells whether it touches a socket.
- Loading and reloading of keys, the delay after ten failed attempts, and `adb_auth_confirm_key` beyond its consent.
- Of the routing rules only those from an address are modelled.
- The text of `iptables` and `ip` commands, and IPv6 duplicates of every rule.
- Bandwidth.BandwidthController.Run: it stops at the first command that breaks the chains, while the source goes on and may
  come back into shape, as `NamesakeAgain` shows; commands succeed when the kernel can carry them out; the failure paths
  of the quota setters, `disableBandwidthControl`, alerts inside costly chains, naughty apps and the byte values in the
  kernel's quota objects are not modelled.
- NetdList.List.Clear: freeing nodes is not modelled; nodes taken out are simply no longer in the circle.
- AsecLayout.Container.CreateAsec: formatting and mounting of the new file system. With key "none" there is no mapping and
  the file system has the loop device itself, so the survival of the superblock is about keyed containers.
- AsecLayout.Container.CreateUseMount: writes through a mapping that is longer than its wrapped file are not modelled.
- `MDnsSdListener`, `Volume` mounting, command listeners, and the remaining services and tools: they mostly pass
  commands on to the kernel, to other processes or to the code modelled here.
