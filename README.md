# postailer in Dafny

A model of Songmu/postailer, the Go package that reads a log file and
remembers how far it got. `Open` loads a position record `{inode, pos}` from
a position file. When the log was rotated (the stored inode differs from the
live file's), `Open` finds the old file in the directory by inode and
resumes there. `Read` drains the old file and then moves on to the new live
file within the same call, joining the old file's tail to the new file's
head. `Close` writes the record back atomically: create a temporary file,
write, close, rename over the position file.

The model has five modules:

- `Files` (files.dfy): the operating system as values. There is one
  directory of files, each with an inode and a content, plus a listing that
  can fail. An open handle has the read semantics of Go's `os.File`: it
  delivers min(len(p), bytes left) and reports `io.EOF` only when it
  delivers nothing. `ReadInto` copies into a caller's `array`.
- `PositionStore` (position_store.dfy): the position record and the class
  `Store`, whose `WriteAtomically` method runs the save protocol step by
  step. Injected faults stand in for each I/O step that can fail. The
  module also holds the protocol as written and a defect in it (see
  Findings).
- `Postailer` (postailer.dfy): `findFileByInode` as a function and as the
  scanning loop. Open and Read are also stated as transitions (`OpenSpec`,
  `ReadSpec`) on the tailer's state (its record, the `oldfile` flag and its
  handle). The class `Postailer` carries them out: its fields are updated
  in place, `Read` fills the caller's buffer, and `Close` saves through the
  store.
- `TailerProperties` (properties.dfy): what the tailer promises, proved over
  the transitions:
  - every sequence of reads delivers a prefix of "old tail, then the whole
    new file", as much of it as the buffers hold, with no byte lost or
    repeated;
  - the record counts old-file bytes while on the old file, and only
    new-file bytes, against the new inode, after the switch;
  - the resume, truncation and rotation rules of Open, and exactly when
    Open fails.
- `Scenarios` (scenarios.dfy): each case of the package's test table and
  each session of its example, proved as a lemma. A client method drives
  the `Postailer` object through a whole test session.

### Where the model follows the tests rather than the code

The revision of postailer.go that is modelled does not compile. Line 131
ranges over `ifs`, line 62 uses `po`, and line 44 passes a path to
`ioutil.ReadAll`. Several of its conditions also contradict the package's
own tests. The model follows the behaviour the tests require. In two
places no test decides: an old file with nothing left to read, and the
choice of temporary name. There the model takes the reading given in the
bullets below. Every departure is marked `DEVIATION` in the Dafny, citing
the line:

- Rotation is suspected whenever the stored inode is non-zero and differs
  from the live file's. Line 56 also demands `fi.Size() < pos`, which the
  "Roteted" tests do not meet.
- Line 57's `err != nil` is inverted: the old file is used when the search
  succeeds.
- A rotated-away file that cannot be found (`FileNotFound`) is not an error:
  the live file is read from 0. If the directory cannot be listed at all,
  the error is returned. The code leaves this case unhandled ("XXX error
  handling?").
- An old file with nothing past the stored offset is not drained; the live
  file is read from 0. No test requires this: every rotated test case has
  unread bytes past the offset. An old file with nothing past the offset
  has nothing to drain, so Open goes straight to the live file. Compared
  with line 62 (once line 57 is corrected) the delivered stream is the
  same, because the first Read on the drained old file hits EOF and
  switches to the live file. Only the
  record saved by a Close with no Read in between differs: the model saves
  {live inode, 0} where the code would save the stored record.
- When Open settles on the live file, its record carries the live file's
  inode. The code records an inode only at line 96, but the tests expect it
  in the saved record. When Open settles on an old file, the record is the
  stored one, with the old file's inode.
- The temporary name of a save is never the position file itself. Line 142
  lets ioutil.TempFile pick any absent name with prefix "tmp"; see
  Findings for the record this loses.
- With the same inode, an offset up to and including the file's size
  resumes there, as lines 74-75 do (they seek even when the offset equals
  the size). An offset past the size resets to 0, which is what the
  "Same inode, but Truncated" test requires. Resetting at an offset equal to
  the size would deliver the whole file again, so the model keeps the
  code's `<=`.
- Read switches to the live file on io.EOF and also on a short read with no
  error. The "Roteted" test needs this because its old file ends inside the
  first 5-byte buffer. The early return of lines 100-102 (`n == len(p)`)
  can then never be taken, and it is omitted.

## Model

| member | source | states |
|---|---|---|
| Files.EntriesOf | postailer.go:127-130 | the directory entries are listed names whose files exist, each with that file's inode, never more entries than names |
| Files.EntriesOfComplete | postailer.go:127-135 | every listed name that exists is an entry, with its file's inode, at the position given by the names before it: the scan sees the directory in listing order |
| Files.OpenAt | postailer.go:70-75 | opening a file and seeking to an offset gives an open handle on that file whose remaining bytes are the content from the offset, or nothing when the offset is past the end |
| Files.ReadDir | postailer.go:127-130 | listing the directory fails exactly when the directory cannot be read, and then only with ReadDirFailed |
| Files.HandleRead | postailer.go:82 | a read into a buffer of length k delivers min(k, bytes left) bytes from the cursor, which advances by that count; EOF exactly when nothing was delivered into a non-empty buffer; the only error on an open handle is EOF; a closed handle delivers nothing and reports Closed |
| Files.ReadInto | postailer.go:82 | the bytes read land in p[..n] and the rest of p is left as it was; the handle, count and error are those of HandleRead |
| PositionStore.Store.WriteAtomically | postailer.go:140-155 | saving replaces the target's record wholesale on success and leaves every file (the temporary one included) as it was on any failure; each error occurs exactly when its step fails, and creation also fails when no temporary name is free |
| PositionStore.Load | postailer.go:41-49 | a stored record loads as itself; a missing or unparsable position file loads as {0, 0}, and any other result is a record actually stored under the path |
| PositionStore.WriteAsWritten | postailer.go:142-154 | the protocol as written fails with the error of the first step that fails and then leaves the files as they were; on success the record is put under the target and then the temporary name is removed, which deletes the record when the two names coincide |
| PositionStore.WriteAsWrittenAtomic | postailer.go:140-155 | the protocol as written is atomic whenever the temporary name differs from the target |
| PositionStore.SelfRenameLosesRecord | postailer.go:146-154 | for any files and any target that does not exist yet, the protocol as written with the temporary name equal to the target reports success yet leaves the files unchanged, so the next load gives {0, 0} |
| PositionStore.SelfRenameExample | postailer.go:146-154 | the instance with no files and the target "tmp123": success is reported and no record is left |
| PositionStore.LoadAfterSave | postailer.go:41-49 | loading a saved record gives it back, and saving one path leaves the others' loads unchanged |
| Postailer.IndexOfInode | postailer.go:131-135 | the index of the first entry with the inode; None exactly when no entry has it |
| Postailer.FindByInode | postailer.go:126-138 | a found name is a file with the inode; the only errors are ReadDirFailed and FileNotFound |
| Postailer.FindByInodeOutcomes | postailer.go:126-138 | ReadDirFailed exactly when the directory cannot be listed; FileNotFound exactly when no entry has the inode; otherwise the first matching entry |
| Postailer.FindFileByInode | postailer.go:126-138 | the early-return scan returns the first entry with the inode, FileNotFound exactly when none has it, and ReadDirFailed exactly when the listing fails |
| Postailer.OpenSpec | postailer.go:40-79 | Open's transition fails only with the live path's absence or a directory that cannot be listed; on success the state is consistent with an open handle, and is either the live file at the record's offset or an old file at exactly the stored record, whose inode differs from the live file's |
| Postailer.ReadSpec | postailer.go:81-110 | Read's transition delivers at most the buffer's length, keeps a consistent state consistent, and never goes back from the live file to an old one |
| Postailer.Postailer.constructor | postailer.go:29-32 | a fresh tailer has its two paths, the zero record {0, 0} standing in for Go's nil pos pointer, no old file and no open handle |
| Postailer.Postailer.Open | postailer.go:40-79 | Open fails with the transition's error, having loaded the stored record into pos (line 41 runs first) and left the old-file flag and the handle as they were, or leaves the object in the consistent state the transition prescribes for the stored record |
| Postailer.Postailer.Read | postailer.go:81-110 | the object's new state, the count, the error and p[..n] are those of the Read transition; the rest of p is untouched; the state stays consistent |
| Postailer.Postailer.ReadCurrent | postailer.go:82-83 | the current handle's read lands in p[..n], the rest of p is untouched, and the record's offset grows by n |
| Postailer.Postailer.Rotate | postailer.go:87-109 | once the old file is exhausted the object ends in the state of the Read transition: closed with NoSuchFile when the live path is gone, otherwise on the live file with the rest of p filled from it |
| Postailer.Postailer.SwitchToLive | postailer.go:96-108 | the live file is opened afresh, its first bytes fill p from index n on, the record becomes {live inode, bytes read}, and the rest of p is untouched |
| Postailer.Postailer.Close | postailer.go:112-116 | the handle is closed whatever happens; the record is saved wholesale on success and the store is unchanged on failure; the save succeeds exactly when no step fails and a temporary name is free |
| Postailer.CopyBuf | postailer.go:103-107 | buf[..count] is copied into p from index off on, and every other index of p keeps its value |
| Postailer.OpenTailer | postailer.go:28-38 | the package-level Open returns a fresh, consistently positioned tailer on success, and no tailer plus the error otherwise |
| TailerProperties.LiveRead | postailer.go:82-86 | on the live file a Read is the handle's read: same bytes, same error, the offset advanced by the count, independent of the directory |
| TailerProperties.FullOldReadStaysOld | postailer.go:84-86 | a buffer the old file can fill is filled from it alone and the tailer stays on it |
| TailerProperties.SpliceOnExhaustion | postailer.go:87-109 | a short read on the old file delivers its tail followed by the live file's head, and resets the record to the live inode and the count of live bytes |
| TailerProperties.SpliceLiveMissing | postailer.go:87-91 | when the live path has vanished at the switch, the old tail is still delivered, the old file is closed and the os.Open error is returned |
| TailerProperties.ReadStep | postailer.go:81-110 | each Read delivers the front of the pending stream, as much as the buffer holds, keeps the tailer consistent, and reports EOF only when nothing is pending |
| TailerProperties.ReadsStream | postailer.go:81-110 | any sequence of reads delivers a prefix of the pending stream of length min(total buffer size, pending), and the rest stays pending |
| TailerProperties.DeliveredUpToOffset | postailer.go:83-108 | what was delivered is exactly the old file from the starting offset to the record's offset or, after the switch, the whole old tail followed by the live file up to the record's offset |
| TailerProperties.ReadsKeepOldFile | postailer.go:82-86 | while still on the old file, the handle and the record's inode stay those of the old file and the cursor only grows |
| TailerProperties.OpenTracks | postailer.go:40-79 | after a successful Open the tailer is consistent; on the live file the record carries the live inode; on the old file it is the stored record |
| TailerProperties.OpenFails | postailer.go:52-73 | Open fails exactly when the live path is missing, or when rotation is suspected and the directory cannot be listed, with those errors |
| TailerProperties.OpenWithoutRotation | postailer.go:51-76 | an unknown or unchanged inode never consults the directory: the live file is resumed at the offset, or read from 0 when the offset is past its end |
| TailerProperties.LiveDelivers | postailer.go:82-86 | on the live file any sequence of reads delivers the file's bytes from the recorded offset on, with the record advancing by the same amount |
| TailerProperties.ResumeDelivers | postailer.go:70-77 | an offset within the live file is resumed there, and every later sequence of reads delivers the file's bytes from that offset on |
| TailerProperties.OpenTruncated | postailer.go:74-76 | an offset past the end of a file with the same inode restarts the live file at 0 |
| TailerProperties.OpenRotatedOldMissing | postailer.go:56-69 | with rotation suspected and no entry carrying the old inode, Open succeeds on the live file at 0 |
| TailerProperties.OpenRotatedOldDrained | postailer.go:56-69 | with rotation suspected and an old file that has nothing past the offset, Open succeeds on the live file at 0 |
| TailerProperties.OpenRotatedDrainsOld | postailer.go:56-66 | with rotation suspected and unread bytes in the old file, Open positions on the old file, found by inode, at the stored offset |
| TailerProperties.RotationSplice | postailer.go:56-109 | after a rotation every sequence of reads delivers a prefix of the old file's tail followed by the whole new file, of the length the buffers allow; the record counts old bytes on the old file and new bytes, against the new inode, after the switch |
| Scenarios.CaseNew | postailer_test.go:29-47 | no position file: reads give "abcdf" and "135", and the saved record is {11, 8} |
| Scenarios.CaseSimple | postailer_test.go:48-71 | a stored offset 6 skips "-skip-", and the saved record is {11, 14} |
| Scenarios.CaseEOF | postailer_test.go:72-90 | a 4-byte file: a short read with no error, then EOF, and the saved record is {11, 4} |
| Scenarios.CaseRotated | postailer_test.go:91-116 | the old tail "abcd" and the new file's "f" arrive in one read; the saved record is {12, 4} |
| Scenarios.CaseJustRotated | postailer_test.go:117-142 | an old file emptied exactly by the first read is left on the second, and the saved record is {12, 3} |
| Scenarios.CaseRotatedButMissing | postailer_test.go:143-165 | a stored inode that matches nothing restarts the live file at 0 |
| Scenarios.CaseTruncated | postailer_test.go:166-189 | an offset past the end of the same file restarts it at 0 |
| Scenarios.ExampleFirstSession | postailer_example_test.go:29-37 | the first session delivers "1\n22\n" and ends at offset 5 |
| Scenarios.ExampleSecondSession | postailer_example_test.go:39-47 | after an append the second session delivers only "333\n" |
| Scenarios.ExampleThirdSession | postailer_example_test.go:49-67 | after an append and a rotation, the third session delivers "4444\n" and the whole new file in one read, ending at {12, 20} |
| Scenarios.RunSession | postailer_test.go:192-244 | driving the object through Open, Read(5), Read(3) and Close observes exactly what the transitions predict, and saves the final record |
| Scenarios.ReadFiveThenThree | postailer_test.go:192-244 | a Read of 5 bytes and then of 3 through the object gives exactly the two Read transitions' data and errors, and the object ends in the second one's state |
| Scenarios.RunCaseOk | postailer_test.go:192-244 | when Open's transition succeeds, a test session observes the two Read transitions' results and saves the record the second one reaches |
| Scenarios.RunRotatedCase | postailer_test.go:91-244 | the "Roteted" test run through the object yields "abcdf", "135" and the saved record {12, 4} |

## Left out

- Operating-system calls (os.Stat, os.Open, Seek, ioutil.ReadDir, ioutil.TempFile, os.Rename, os.Remove) are values and transitions on `FileSystem` and `Store`, not real I/O. Failures of os.Open and Stat on a path that exists, and of Seek, are not modelled.
- detectInode (postailer.go:119-124) and its syscall.Stat_t type assertion are not modelled: each file carries its inode. Inode 0 stands for "could not be determined".
- JSON encoding (postailer.go:44-46,114): a stored record is either a whole position or content that does not parse, which loads as {0, 0}. Marshalling cannot fail.
- The temporary names ioutil.TempFile would generate at random are a parameter of the save.
- The position file and the log are kept in separate maps. The position file is therefore never among the directory entries searched by inode.
- Paths are names inside one directory. filepath.Dir and filepath.Join are not modelled.
- Files do not change while the tailer reads them. Growth between reads within one session, concurrent writers, and a rotation during a session are not modelled.
- Integers are unbounded: the Go `uint` inode and `int64` offset are not bounded. The `CaseRotatedButMissing` lemma uses 2^64 - 11 for the source's `^uint(0) - 10`.
- The early return of postailer.go:100-102 is left out because it cannot be taken once the switch happens only on a short read.
- Postailer.Postailer.Open: requires a tailer that is not on an old file. The package-level Open calls it only on a fresh struct, and re-opening a tailer that is still on an old file is not modelled.
- PositionStore.Position: offset is a `nat`, so a negative `Pos` in a position file is not modelled. Go would skip the seek at postailer.go:74 for it, read from 0, add the count to the negative value and save that back.
- Files.HandleRead: an open handle fails only with io.EOF. Other read errors, which postailer.go:84-85 pass through to the caller, are not modelled.
- Postailer.Postailer.Rotate: the f.Stat() failure of postailer.go:92-95 is not modelled, since the live file's inode is known.

## Findings

| source | as written | input that shows it | evidently intended | confidence | as-written member | corrected member |
|---|---|---|---|---|---|---|
| postailer.go:142-154 | the temporary file is created in the target's directory with prefix "tmp", renamed onto the target, then removed by the deferred os.Remove(tmpf.Name()) | a position file named "tmp123" that does not exist yet, with ioutil.TempFile picking exactly "tmp123": the rename is onto itself, the deferred remove deletes the record just written, and the save reports success | the save replaces the target's record or leaves everything unchanged, and a temporary name never coincides with the target | not executed; "tmp123" needs a Go release whose ioutil.TempFile appends a variable-length random number (older releases always append nine digits, so the name would look like "tmp123456789") | PositionStore.SelfRenameLosesRecord | PositionStore.Store.WriteAtomically |
