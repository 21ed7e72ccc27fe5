/** The rotation-aware tailer of postailer.go: the rotation resolver
    (findFileByInode), the transitions of Open and Read as functions on the
    tailer's state, and the Postailer object whose methods carry them out
    step by step.

    The model follows what the package's tests require where the revision of
    postailer.go disagrees with them; each such place is marked DEVIATION
    with the line it departs from. */
module Postailer {
  import opened Files
  import opened PositionStore

  // ---------------------------------------------------------------------
  // Rotation resolver
  // ---------------------------------------------------------------------

  /** The index of the first entry carrying the inode, if any. */
  function IndexOfInode(es: seq<Entry>, inode: nat): (r: Option<nat>)
    ensures r.Some? ==> r.value < |es| && es[r.value].inode == inode
    ensures r.Some? ==> forall j :: 0 <= j < r.value ==> es[j].inode != inode
    ensures r.None? <==> forall j :: 0 <= j < |es| ==> es[j].inode != inode
  {
    if es == [] then None
    else if es[0].inode == inode then Some(0)
    else match IndexOfInode(es[1..], inode)
      case None => None
      case Some(i) => Some(i + 1)
  }

  /** The first entry with the inode is the one IndexOfInode finds. */
  lemma FirstMatch(es: seq<Entry>, inode: nat, i: nat)
    requires i < |es| && es[i].inode == inode
    requires forall j :: 0 <= j < i ==> es[j].inode != inode
    ensures IndexOfInode(es, inode) == Some(i)
  {
    var ix := IndexOfInode(es, inode);
    assert ix.Some?;
    assert !(ix.value < i) by { assert es[ix.value].inode == inode; }
    assert !(i < ix.value) by { assert es[i].inode == inode; }
  }

  /** findFileByInode (postailer.go:126-138) as a value: the name of the
      first listed entry whose inode matches, FileNotFound when none does,
      and the ReadDir failure when the directory cannot be listed. */
  function FindByInode(inode: nat, fs: FileSystem): (r: Result<string>)
    ensures r.Ok? ==> r.value in fs.files && fs.files[r.value].inode == inode
    ensures r.Err? ==> r.error in {ReadDirFailed, FileNotFound}
  {
    match ReadDir(fs)
    case Err(e) => Err(e)
    case Ok(es) =>
      match IndexOfInode(es, inode)
      case None => Err(FileNotFound)
      case Some(i) => Ok(es[i].name)
  }

  /** The outcomes of findFileByInode: the first matching entry; a
      distinguished FileNotFound exactly when the listing has no entry
      with the inode; the ReadDir failure exactly when the directory
      cannot be listed. */
  lemma FindByInodeOutcomes(inode: nat, fs: FileSystem)
    ensures FindByInode(inode, fs) == Err(ReadDirFailed) <==> fs.listing.None?
    ensures FindByInode(inode, fs) == Err(FileNotFound) <==>
              fs.listing.Some? && forall e :: e in EntriesOf(fs.files, fs.listing.value) ==> e.inode != inode
    ensures FindByInode(inode, fs).Ok? ==>
              var es := EntriesOf(fs.files, fs.listing.value);
              exists i :: 0 <= i < |es| && es[i].name == FindByInode(inode, fs).value && es[i].inode == inode &&
                          forall j :: 0 <= j < i ==> es[j].inode != inode
  {
    if fs.listing.Some? {
      var es := EntriesOf(fs.files, fs.listing.value);
      var ix := IndexOfInode(es, inode);
      if ix.Some? {
        assert es[ix.value] in es;
      } else {
        forall e | e in es ensures e.inode != inode {
          var j :| 0 <= j < |es| && es[j] == e;
        }
      }
    }
  }

  /** findFileByInode (postailer.go:126-138): a linear scan of the
      directory with an early return on the first match. */
  method FindFileByInode(inode: nat, fs: FileSystem) returns (r: Result<string>)
    ensures r == FindByInode(inode, fs)
    ensures r == Err(ReadDirFailed) <==> fs.listing.None?
    ensures r == Err(FileNotFound) <==>
              fs.listing.Some? && forall e :: e in EntriesOf(fs.files, fs.listing.value) ==> e.inode != inode
    ensures r.Ok? ==> var es := EntriesOf(fs.files, fs.listing.value);
              exists i :: 0 <= i < |es| && es[i].name == r.value && es[i].inode == inode &&
                          forall j :: 0 <= j < i ==> es[j].inode != inode
  {
    var fis := ReadDir(fs);
    if fis.Err? {
      return Err(fis.error);
    }
    // DEVIATION: line 131 ranges over the undefined `ifs`; the listing is `fis`.
    var es := fis.value;
    for i := 0 to |es|
      invariant forall j :: 0 <= j < i ==> es[j].inode != inode
    {
      if es[i].inode == inode {
        FirstMatch(es, inode, i);
        r := Ok(es[i].name);
        FindByInodeOutcomes(inode, fs);
        return;
      }
    }
    assert IndexOfInode(es, inode).None?;
    r := Err(FileNotFound);
    FindByInodeOutcomes(inode, fs);
  }

  // ---------------------------------------------------------------------
  // The tailer's state and its transitions
  // ---------------------------------------------------------------------

  /** The fields pos, oldfile and rcloser of the Postailer struct
      (postailer.go:18-20): the position record, whether the handle is the
      rotated-away old file, and the one handle the tailer owns. */
  datatype TailerState = TailerState(pos: Position, oldfile: bool, handle: Handle)

  /** The offset is the handle's own cursor, never a count across files;
      when reading the live file the record names the live file's inode. */
  predicate ValidState(s: TailerState) {
    s.handle.cursor <= |s.handle.content| &&
    s.pos.offset == s.handle.cursor &&
    (!s.oldfile ==> s.pos.inode == s.handle.inode)
  }

  /** Reading the live file f from the given offset. */
  function LiveAt(f: File, offset: nat): (s: TailerState) {
    TailerState(Position(f.inode, offset), false, OpenAt(f, offset))
  }

  /** What Open (postailer.go:40-79) makes of the stored record, as the tests
      require it:
      - the live path must exist;
      - a stored inode that is known and differs from the live file's means
        rotation: the old file is looked up by inode and drained first when
        it still has bytes past the stored offset; when it is gone
        (FileNotFound) or has nothing left, the live file is read from 0;
        a directory that cannot be listed is an error;
      - otherwise the live file is resumed at the stored offset, or read
        from 0 when the offset is past its end. */
  function OpenSpec(filePath: string, fs: FileSystem, stored: Position): (r: Result<TailerState>)
    ensures r.Err? ==> r.error == NoSuchFile(filePath) || r.error == ReadDirFailed
    ensures r.Ok? ==> filePath in fs.files && ValidState(r.value) && r.value.handle.open
    ensures r.Ok? && !r.value.oldfile ==> r.value == LiveAt(fs.files[filePath], r.value.pos.offset)
    ensures r.Ok? && r.value.oldfile ==> r.value.pos == stored && stored.inode != fs.files[filePath].inode
  {
    if filePath !in fs.files then Err(NoSuchFile(filePath))
    else
      var live := fs.files[filePath];
      // DEVIATION: line 56 also demands fi.Size() < pt.pos.Pos
      if stored.inode > 0 && stored.inode != live.inode then
        // DEVIATION: line 57 tests err != nil and line 67 leaves the
        // search's errors unhandled; a vanished old file falls back to the
        // live file, an unreadable directory is an error
        match FindByInode(stored.inode, fs)
        case Err(e) => if e == FileNotFound then Ok(LiveAt(live, 0)) else Err(e)
        case Ok(name) =>
          var oldFile := fs.files[name];
          // DEVIATION: line 62 seeks unconditionally; an old file with
          // nothing past the offset is not drained
          if stored.offset < |oldFile.content| then Ok(TailerState(stored, true, OpenAt(oldFile, stored.offset)))
          else Ok(LiveAt(live, 0))
      // DEVIATION: lines 51 and 74-76 never record the live inode and seek
      // past the end of a truncated file
      else if stored.offset <= |live.content| then Ok(LiveAt(live, stored.offset))
      else Ok(LiveAt(live, 0))
  }

  /** The state after a Read, the bytes it delivers, and its error. */
  datatype Step = Step(next: TailerState, data: seq<byte>, err: Option<Error>)

  /** What Read (postailer.go:81-110) does with a buffer of length k, as the
      tests require it: the handle's read advances the offset; a short read
      or EOF on the old file closes it, opens the live path afresh at
      {its inode, 0} and fills the rest of the buffer from it. */
  function ReadSpec(filePath: string, s: TailerState, k: nat, fs: FileSystem): (o: Step)
    ensures |o.data| <= k
    ensures ValidState(s) ==> ValidState(o.next)
    ensures !s.oldfile ==> !o.next.oldfile
  {
    var r := HandleRead(s.handle, k);
    var n := |r.data|;
    var s1 := TailerState(s.pos.(offset := s.pos.offset + n), s.oldfile, r.handle);
    // DEVIATION: line 84 switches files only on io.EOF, not on a short read;
    // and the early return of lines 100-102 cannot be taken here
    var exhausted := r.err == Some(EOF) || (r.err.None? && n < k);
    if !exhausted || !s.oldfile then Step(s1, r.data, r.err)
    else if filePath !in fs.files then Step(s1.(handle := r.handle.(open := false)), r.data, Some(NoSuchFile(filePath)))
    else
      var live := fs.files[filePath];
      var r2 := HandleRead(OpenAt(live, 0), k - n);
      Step(TailerState(Position(live.inode, |r2.data|), false, r2.handle), r.data + r2.data, r2.err)
  }

  /** Read's buffer after the splice: the first read's bytes, then the
      live file's, then what the buffer held before. */
  lemma Spliced(before: seq<byte>, mid: seq<byte>, after: seq<byte>, n1: nat, nn: nat, d1: seq<byte>, d2: seq<byte>)
    requires |before| == |mid| == |after| && n1 + nn <= |before|
    requires mid[..n1] == d1 && mid[n1..] == before[n1..]
    requires after[..n1] == mid[..n1] && after[n1..n1 + nn] == d2 && after[n1 + nn..] == mid[n1 + nn..]
    ensures after[..n1 + nn] == d1 + d2 && after[n1 + nn..] == before[n1 + nn..]
  {
    assert after[..n1 + nn] == after[..n1] + after[n1..n1 + nn];
    assert mid[n1 + nn..] == mid[n1..][nn..];
    assert before[n1 + nn..] == before[n1..][nn..];
  }

  /** ReadSpec when the tailer does not switch files: the handle's read
      with the offset advanced. */
  lemma ReadSpecStay(filePath: string, s: TailerState, k: nat, fs: FileSystem)
    requires var r := HandleRead(s.handle, k); !s.oldfile || !(r.err == Some(EOF) || (r.err.None? && |r.data| < k))
    ensures var r := HandleRead(s.handle, k);
            ReadSpec(filePath, s, k, fs) ==
              Step(TailerState(s.pos.(offset := s.pos.offset + |r.data|), s.oldfile, r.handle), r.data, r.err)
  {
  }

  /** ReadSpec when the old file is exhausted and the live path is gone. */
  lemma ReadSpecMissing(filePath: string, s: TailerState, k: nat, fs: FileSystem)
    requires filePath !in fs.files && s.oldfile
    requires var r := HandleRead(s.handle, k); r.err == Some(EOF) || (r.err.None? && |r.data| < k)
    ensures var r := HandleRead(s.handle, k);
            ReadSpec(filePath, s, k, fs) ==
              Step(TailerState(s.pos.(offset := s.pos.offset + |r.data|), true, r.handle.(open := false)),
                   r.data, Some(NoSuchFile(filePath)))
  {
  }

  /** ReadSpec when the old file is exhausted: the old file's bytes
      followed by one read of the live file opened afresh. */
  lemma ReadSpecSwitch(filePath: string, s: TailerState, k: nat, fs: FileSystem)
    requires filePath in fs.files && s.oldfile
    requires var r := HandleRead(s.handle, k); r.err == Some(EOF) || (r.err.None? && |r.data| < k)
    ensures var r := HandleRead(s.handle, k); var live := fs.files[filePath];
            var r2 := HandleRead(OpenAt(live, 0), k - |r.data|);
            ReadSpec(filePath, s, k, fs) ==
              Step(TailerState(Position(live.inode, |r2.data|), false, r2.handle), r.data + r2.data, r2.err)
  {
  }

  // ---------------------------------------------------------------------
  // The Postailer object
  // ---------------------------------------------------------------------

  class Postailer {
    const filePath: string
    const posFile: string

    var pos: Position
    var oldfile: bool
    var handle: Handle

    function State(): (s: TailerState)
      reads this
    {
      TailerState(pos, oldfile, handle)
    }

    ghost predicate Valid()
      reads this
    {
      ValidState(State())
    }

    /** The zero-valued struct literal of postailer.go:29-32. */
    constructor (filePath: string, posFile: string)
      ensures this.filePath == filePath && this.posFile == posFile
      ensures Valid() && !oldfile && !handle.open
      ensures pos == Position(0, 0) && handle == Handle(0, [], 0, false)
    {
      this.filePath := filePath;
      this.posFile := posFile;
      pos := Position(0, 0);
      oldfile := false;
      handle := Handle(0, [], 0, false);
    }

    /** The method Open (postailer.go:40-79), on a struct fresh from the
        constructor. */
    method Open(fs: FileSystem, store: Store) returns (err: Option<Error>)
      requires !oldfile
      modifies this
      ensures var o := OpenSpec(filePath, fs, Load(store.files, posFile));
              if o.Ok? then err.None? && Valid() && State() == o.value
              else err == Some(o.error)
    ensures err.Some? ==> pos == Load(store.files, posFile) && oldfile == old(oldfile) && handle == old(handle)
    {
      // lines 41-49. DEVIATION: line 44 passes the path to ioutil.ReadAll;
      // the file's content is what is meant. Any content that does not
      // parse leaves the zero position.
      pos := Load(store.files, posFile);
      // the live path must exist (lines 52-55 and 70-73)
      if filePath !in fs.files {
        return Some(NoSuchFile(filePath));
      }
      var fi := fs.files[filePath];
      // DEVIATION: line 56 also demands fi.Size() < pt.pos.Pos; the tests
      // (postailer_test.go:92-142) need rotation whenever the inode differs.
      if pos.inode > 0 && fi.inode != pos.inode {
        var found := FindFileByInode(pos.inode, fs);
        // DEVIATION: line 57 tests err != nil; the old file is used when
        // the search succeeds.
        match found {
          case Ok(name) =>
            var oldFile := fs.files[name];
            // DEVIATION: line 62 seeks unconditionally (and names `po`);
            // the old file is drained only when bytes are left past Pos.
            if pos.offset < |oldFile.content| {
              oldfile := true;
              handle := OpenAt(oldFile, pos.offset);
              return None;
            }
          case Err(e) =>
            // DEVIATION: line 67 leaves the error unhandled; a vanished old
            // file is not an error, an unreadable directory is
            if e != FileNotFound {
              return Some(e);
            }
        }
        // nothing to drain: the live file is read from its start
        pos := pos.(offset := 0);
      }
      // DEVIATION: lines 51 and 74-76 never record the live inode and seek
      // past the end of a truncated file; the tests
      // (postailer_test.go:29-47,166-189,235-240) need both fixed.
      pos := pos.(inode := fi.inode);
      if pos.offset > |fi.content| {
        pos := pos.(offset := 0);
      }
      handle := OpenAt(fi, pos.offset);
      return None;
    }

    /** Read (postailer.go:81-110) into the caller's buffer p. */
    method Read(p: array<byte>, fs: FileSystem) returns (n: nat, err: Option<Error>)
      requires Valid()
      modifies this, p
      ensures Valid()
      ensures var o := ReadSpec(filePath, old(State()), p.Length, fs);
              State() == o.next && n == |o.data| && err == o.err
      ensures n <= p.Length && p[..n] == ReadSpec(filePath, old(State()), p.Length, fs).data
      ensures p[n..] == old(p[n..])
    {
      ghost var s0, before := State(), p[..];
      ghost var o := ReadSpec(filePath, s0, p.Length, fs);
      var n1, err1 := ReadCurrent(p);
      // DEVIATION: line 84 switches files only on io.EOF; the tests
      // (postailer_test.go:92-116) need the switch on a short read too.
      var exhausted := err1 == Some(EOF) || (err1.None? && n1 < p.Length);
      if !exhausted || !oldfile {
        ReadSpecStay(filePath, s0, p.Length, fs);
        assert State() == o.next && n1 == |o.data| && err1 == o.err && p[..n1] == o.data;
        return n1, err1;
      }
      n, err := Rotate(p, fs, n1, s0, before);
    }

    /** Lines 86-108 of Read: the old file is exhausted after n1 bytes;
        it is closed and, if the live path exists, the rest of p is
        filled from the live file opened afresh. */
    method Rotate(p: array<byte>, fs: FileSystem, n1: nat, ghost s0: TailerState, ghost before: seq<byte>)
        returns (n: nat, err: Option<Error>)
      requires s0.oldfile && |before| == p.Length
      requires var r := HandleRead(s0.handle, p.Length);
               (r.err == Some(EOF) || (r.err.None? && |r.data| < p.Length)) && n1 == |r.data| &&
               State() == TailerState(s0.pos.(offset := s0.pos.offset + n1), true, r.handle) &&
               p[..n1] == r.data && p[n1..] == before[n1..]
      modifies this, p
      ensures var o := ReadSpec(filePath, s0, p.Length, fs);
              State() == o.next && n == |o.data| && err == o.err && p[..n] == o.data && p[n..] == before[n..]
    {
      ghost var o := ReadSpec(filePath, s0, p.Length, fs);
      handle := handle.(open := false);
      if filePath !in fs.files {
        ReadSpecMissing(filePath, s0, p.Length, fs);
        assert State() == o.next && n1 == |o.data| && p[..n1] == o.data;
        return n1, Some(NoSuchFile(filePath));
      }
      var live := fs.files[filePath];
      // DEVIATION: the early return of lines 100-102 (n == len(p)) is
      // omitted: the switch happens only when fewer than len(p) bytes were
      // read, so it cannot be taken.
      ghost var mid := p[..];
      var nn, err2 := SwitchToLive(p, n1, live);
      ReadSpecSwitch(filePath, s0, p.Length, fs);
      Spliced(before, mid, p[..], n1, nn, HandleRead(s0.handle, p.Length).data,
              HandleRead(OpenAt(live, 0), p.Length - n1).data);
      assert State() == o.next && n1 + nn == |o.data| && err2 == o.err && p[..n1 + nn] == o.data;
      return n1 + nn, err2;
    }

    /** Lines 82-83 of Read: the current handle's read into p, counted
        into the offset. */
    method ReadCurrent(p: array<byte>) returns (n: nat, err: Option<Error>)
      modifies this, p
      ensures var r := HandleRead(old(handle), p.Length);
              State() == TailerState(old(pos).(offset := old(pos).offset + |r.data|), old(oldfile), r.handle) &&
              n == |r.data| && err == r.err
      ensures n <= p.Length && p[..n] == HandleRead(old(handle), p.Length).data && p[n..] == old(p[n..])
    {
      var h, count, e := ReadInto(handle, p);
      handle := h;
      // DEVIATION: line 83 adds an int to an int64; the offset is a count.
      pos := pos.(offset := pos.offset + count);
      return count, e;
    }

    /** Lines 96-108 of Read: the tailer moves to the freshly opened live
        file, records {its inode, 0}, fills p from index n on with one read
        of the live file and counts those bytes only. */
    method SwitchToLive(p: array<byte>, n: nat, live: File) returns (nn: nat, err: Option<Error>)
      requires n <= p.Length
      modifies this, p
      ensures var r2 := HandleRead(OpenAt(live, 0), p.Length - n);
              State() == TailerState(Position(live.inode, |r2.data|), false, r2.handle) &&
              nn == |r2.data| && err == r2.err
      ensures n + nn <= p.Length && p[..n] == old(p[..n])
      ensures p[n..n + nn] == HandleRead(OpenAt(live, 0), p.Length - n).data
      ensures p[n + nn..] == old(p[n + nn..])
    {
      pos := Position(live.inode, 0);
      oldfile := false;
      handle := OpenAt(live, 0);
      var buf := new byte[p.Length - n];
      var h2, count, err2 := ReadInto(handle, buf);
      CopyBuf(p, n, buf, count);
      handle := h2;
      pos := pos.(offset := count);
      return count, err2;
    }

    /** Close (postailer.go:112-116): the handle is closed whatever the save
        does, and the in-memory record is saved wholesale. */
    method Close(store: Store, tempNames: seq<string>, faults: Faults) returns (err: Option<Error>)
      modifies this, store
      ensures pos == old(pos) && oldfile == old(oldfile) && handle == old(handle).(open := false)
      ensures err.None? ==> store.files == old(store.files)[posFile := Some(pos)]
      ensures err.Some? ==> store.files == old(store.files)
      ensures err.None? <==> !faults.createFails && !faults.writeFails && !faults.renameFails &&
                             HasFreshName(tempNames, old(store.files), posFile)
    {
      err := store.WriteAtomically(posFile, pos, tempNames, faults);
      // the deferred pt.rcloser.Close() of line 113
      handle := handle.(open := false);
    }
  }

  /** The loop of postailer.go:105-107: buf[..count] is copied into p
      from index off on; the rest of p is left as it was. */
  method CopyBuf(p: array<byte>, off: nat, buf: array<byte>, count: nat)
    requires count <= buf.Length && off + count <= p.Length && p != buf
    modifies p
    ensures p[..off] == old(p[..off])
    ensures p[off..off + count] == buf[..count]
    ensures p[off + count..] == old(p[off + count..])
  {
    for i := 0 to count
      invariant forall j :: 0 <= j < off ==> p[j] == old(p[j])
      invariant forall j :: 0 <= j < i ==> p[off + j] == buf[j]
      invariant forall j :: off + i <= j < p.Length ==> p[j] == old(p[j])
    {
      p[off + i] := buf[i];
    }
  }

  /** The package-level Open (postailer.go:28-38): a tailer on success,
      none and the error otherwise. */
  method OpenTailer(filePath: string, posFile: string, fs: FileSystem, store: Store)
    returns (pt: Postailer?, err: Option<Error>)
    ensures var o := OpenSpec(filePath, fs, Load(store.files, posFile));
            if o.Ok? then err.None? && pt != null && fresh(pt) && pt.Valid() && pt.State() == o.value &&
                          pt.filePath == filePath && pt.posFile == posFile
            else pt == null && err == Some(o.error)
  {
    var t := new Postailer(filePath, posFile);
    err := t.Open(fs, store);
    if err.Some? {
      return null, err;
    }
    return t, None;
  }
}
