/** What the tailer promises, proved about the transitions OpenSpec and
    ReadSpec that the Postailer object's methods are verified against. */
module TailerProperties {
  import opened Files
  import opened PositionStore
  import opened Postailer

  // ---------------------------------------------------------------------
  // Single reads
  // ---------------------------------------------------------------------

  /** Reading the live file: Read returns exactly what the handle's read
      returns, advances the offset by the count, reports EOF only when
      nothing was left, and does not look at the file system. */
  lemma LiveRead(filePath: string, s: TailerState, k: nat, fs: FileSystem, fs': FileSystem)
    requires ValidState(s) && s.handle.open && !s.oldfile
    ensures var o := ReadSpec(filePath, s, k, fs); var h := HandleRead(s.handle, k);
            o.data == h.data && o.err == h.err && o == ReadSpec(filePath, s, k, fs') &&
            !o.next.oldfile && o.next.handle == h.handle &&
            o.data == Remaining(s.handle)[..Min(k, |Remaining(s.handle)|)] &&
            o.next.pos == Position(s.pos.inode, s.pos.offset + |o.data|) &&
            (o.err == Some(EOF) <==> Remaining(s.handle) == [] && k > 0) &&
            (o.err.Some? ==> o.err == Some(EOF))
  {
  }

  /** Reading the old file when it still has at least k bytes: the buffer
      is filled from the old file alone and the tailer stays on it; the
      switch can only show on a later call. */
  lemma FullOldReadStaysOld(filePath: string, s: TailerState, k: nat, fs: FileSystem)
    requires ValidState(s) && s.handle.open && s.oldfile
    requires k <= |Remaining(s.handle)|
    ensures var o := ReadSpec(filePath, s, k, fs);
            o.next.oldfile && o.err.None? && o.data == Remaining(s.handle)[..k] &&
            o.next.pos == Position(s.pos.inode, s.pos.offset + k) &&
            o.next.handle == s.handle.(cursor := s.handle.cursor + k)
  {
  }

  /** The splice: a short read (EOF included) from the old file closes it,
      opens the live path, resets the record to {live inode, 0} and fills
      the rest of the buffer from the live file, so the bytes delivered
      are the old file's tail followed by the head of the live file and
      the offset counts only the live file's bytes. */
  lemma SpliceOnExhaustion(filePath: string, s: TailerState, k: nat, fs: FileSystem)
    requires ValidState(s) && s.handle.open && s.oldfile
    requires |Remaining(s.handle)| < k
    requires filePath in fs.files
    ensures var o := ReadSpec(filePath, s, k, fs);
            var live := fs.files[filePath];
            var rest := Remaining(s.handle);
            var m := Min(k - |rest|, |live.content|);
            !o.next.oldfile &&
            o.data == rest + live.content[..m] &&
            o.next.pos == Position(live.inode, m) &&
            o.next.handle == Handle(live.inode, live.content, m, true) &&
            (o.err.Some? <==> m == 0) && (o.err.Some? ==> o.err == Some(EOF))
  {
    var live := fs.files[filePath];
    var rest := Remaining(s.handle);
    var r2 := HandleRead(OpenAt(live, 0), k - |rest|);
    assert Remaining(OpenAt(live, 0)) == live.content;
    assert rest[..|rest|] == rest;
  }

  /** The splice when the live path has vanished: the old file is closed,
      its bytes are still delivered, and the error is the one of os.Open. */
  lemma SpliceLiveMissing(filePath: string, s: TailerState, k: nat, fs: FileSystem)
    requires ValidState(s) && s.handle.open && s.oldfile
    requires |Remaining(s.handle)| < k
    requires filePath !in fs.files
    ensures var o := ReadSpec(filePath, s, k, fs);
            o.data == Remaining(s.handle) && o.err == Some(NoSuchFile(filePath)) &&
            o.next.oldfile && !o.next.handle.open &&
            o.next.pos == Position(s.pos.inode, s.pos.offset + |Remaining(s.handle)|)
  {
    assert Remaining(s.handle)[..|Remaining(s.handle)|] == Remaining(s.handle);
  }

  // ---------------------------------------------------------------------
  // The stream across reads
  // ---------------------------------------------------------------------

  /** The tailer is positioned consistently on fs: its one handle is open,
      the live path exists, and once on the live file the handle is that
      file. */
  predicate Tracks(filePath: string, fs: FileSystem, s: TailerState) {
    filePath in fs.files && s.handle.open && ValidState(s) &&
    (!s.oldfile ==> s.handle.inode == fs.files[filePath].inode &&
                    s.handle.content == fs.files[filePath].content)
  }

  /** The bytes still to come: the old file's tail and then the whole live
      file, or the live file's tail. */
  function Pending(filePath: string, fs: FileSystem, s: TailerState): (pending: seq<byte>)
    requires filePath in fs.files
  {
    if s.oldfile then Remaining(s.handle) + fs.files[filePath].content else Remaining(s.handle)
  }

  /** What one Read from s with a buffer of length k promises: the tailer
      stays consistent, the bytes delivered are the front of what was
      pending, as many as the buffer holds, an error is EOF with nothing
      left, and a tailer on the live file stays there. */
  predicate Consumes(filePath: string, fs: FileSystem, s: TailerState, k: nat)
    requires filePath in fs.files
  {
    var o := ReadSpec(filePath, s, k, fs);
    Tracks(filePath, fs, o.next) &&
    o.data + Pending(filePath, fs, o.next) == Pending(filePath, fs, s) &&
    |o.data| == Min(k, |Pending(filePath, fs, s)|) &&
    (o.err.Some? ==> o.err == Some(EOF) && Pending(filePath, fs, o.next) == []) &&
    (!s.oldfile ==> !o.next.oldfile)
  }

  /** One Read delivers the front of what is pending, as much of it as the
      buffer holds (never an empty read while bytes are pending), and
      reports EOF only when nothing is left. */
  lemma ReadStep(filePath: string, fs: FileSystem, s: TailerState, k: nat)
    requires Tracks(filePath, fs, s)
    ensures var o := ReadSpec(filePath, s, k, fs);
            Tracks(filePath, fs, o.next) &&
            o.data + Pending(filePath, fs, o.next) == Pending(filePath, fs, s) &&
            |o.data| == Min(k, |Pending(filePath, fs, s)|) &&
            (o.err.Some? ==> o.err == Some(EOF) && Pending(filePath, fs, o.next) == []) &&
            (!s.oldfile ==> !o.next.oldfile)
  {
    if !s.oldfile {
      ReadStepLive(filePath, fs, s, k);
    } else if k <= |Remaining(s.handle)| {
      ReadStepOld(filePath, fs, s, k);
    } else {
      ReadStepSplice(filePath, fs, s, k);
    }
  }

  lemma ReadStepLive(filePath: string, fs: FileSystem, s: TailerState, k: nat)
    requires Tracks(filePath, fs, s) && !s.oldfile
    ensures Consumes(filePath, fs, s, k)
  {
    LiveRead(filePath, s, k, fs, fs);
  }

  lemma ReadStepOld(filePath: string, fs: FileSystem, s: TailerState, k: nat)
    requires Tracks(filePath, fs, s) && s.oldfile && k <= |Remaining(s.handle)|
    ensures Consumes(filePath, fs, s, k)
  {
    var o := ReadSpec(filePath, s, k, fs);
    var rest := Remaining(s.handle);
    FullOldReadStaysOld(filePath, s, k, fs);
    assert rest == rest[..k] + rest[k..];
    assert Remaining(o.next.handle) == rest[k..];
  }

  lemma ReadStepSplice(filePath: string, fs: FileSystem, s: TailerState, k: nat)
    requires Tracks(filePath, fs, s) && s.oldfile && k > |Remaining(s.handle)|
    ensures Consumes(filePath, fs, s, k)
  {
    var o := ReadSpec(filePath, s, k, fs);
    var rest := Remaining(s.handle);
    SpliceOnExhaustion(filePath, s, k, fs);
    var live := fs.files[filePath];
    var m := Min(k - |rest|, |live.content|);
    assert Remaining(o.next.handle) == live.content[m..];
    assert live.content == live.content[..m] + live.content[m..];
  }

  function Sum(ks: seq<nat>): (total: nat) {
    if ks == [] then 0 else ks[0] + Sum(ks[1..])
  }

  /** A caller's sequence of reads, with buffer lengths ks. */
  datatype Session = Session(final: TailerState, delivered: seq<byte>)

  function Reads(filePath: string, fs: FileSystem, s: TailerState, ks: seq<nat>): (r: Session)
    decreases |ks|
  {
    if ks == [] then Session(s, [])
    else
      var o := ReadSpec(filePath, s, ks[0], fs);
      var rest := Reads(filePath, fs, o.next, ks[1..]);
      Session(rest.final, o.data + rest.delivered)
  }

  /** Any sequence of reads delivers a prefix of the pending stream, as
      long a prefix as the buffers hold; the rest stays pending. */
  lemma {:induction false} ReadsStream(filePath: string, fs: FileSystem, s: TailerState, ks: seq<nat>)
    requires Tracks(filePath, fs, s)
    ensures var r := Reads(filePath, fs, s, ks);
            Tracks(filePath, fs, r.final) &&
            r.delivered + Pending(filePath, fs, r.final) == Pending(filePath, fs, s) &&
            |r.delivered| == Min(Sum(ks), |Pending(filePath, fs, s)|) &&
            (!s.oldfile ==> !r.final.oldfile)
    decreases |ks|
  {
    if ks != [] {
      var o := ReadSpec(filePath, s, ks[0], fs);
      var rest := Reads(filePath, fs, o.next, ks[1..]);
      assert Reads(filePath, fs, s, ks) == Session(rest.final, o.data + rest.delivered);
      ReadStep(filePath, fs, s, ks[0]);
      ReadsStream(filePath, fs, o.next, ks[1..]);
      StreamStep(o.data, rest.delivered, Pending(filePath, fs, s), Pending(filePath, fs, o.next),
                 Pending(filePath, fs, rest.final), ks[0], Sum(ks[1..]));
    }
  }

  /** Two deliveries from the front of a stream, each as long as its
      buffer allows, are one delivery as long as both buffers allow. */
  lemma StreamStep(d1: seq<byte>, d2: seq<byte>, p0: seq<byte>, p1: seq<byte>, p2: seq<byte>, k: nat, m: nat)
    requires d1 + p1 == p0 && |d1| == Min(k, |p0|)
    requires d2 + p2 == p1 && |d2| == Min(m, |p1|)
    ensures (d1 + d2) + p2 == p0 && |d1 + d2| == Min(k + m, |p0|)
  {
    assert (d1 + d2) + p2 == d1 + (d2 + p2);
  }

  /** A front part d of z: it is z's prefix of its own length. */
  lemma PrefixOf(d: seq<byte>, rest: seq<byte>, z: seq<byte>)
    requires d + rest == z
    ensures |d| <= |z| && d == z[..|d|]
  {
    assert (d + rest)[..|d|] == d;
  }

  lemma PrefixOfJoin(x: seq<byte>, y: seq<byte>, m: nat)
    requires m <= |x| + |y|
    ensures m <= |x| ==> (x + y)[..m] == x[..m]
    ensures m > |x| ==> (x + y)[..m] == x + y[..m - |x|]
  {
    if m > |x| {
      assert (x + y)[..m] == x + y[..m - |x|];
    }
  }

  /** The bytes delivered while the tailer is positioned at the offset
      recorded in its state: on the old file they are the old file's bytes
      from the starting offset up to the recorded one; on the live file
      they are the old tail followed by the live file up to the recorded
      offset, which counts live-file bytes only. */
  lemma DeliveredUpToOffset(filePath: string, fs: FileSystem, s: TailerState, old0: seq<byte>, p: nat, ks: seq<nat>)
    requires Tracks(filePath, fs, s)
    requires p <= |old0|
    requires Pending(filePath, fs, s) == old0[p..] + fs.files[filePath].content
    requires s.oldfile ==> s.handle.content == old0 && s.handle.cursor == p
    ensures Tracks(filePath, fs, Reads(filePath, fs, s, ks).final)
    ensures var r := Reads(filePath, fs, s, ks); var live := fs.files[filePath];
            (r.final.oldfile ==> r.final.pos.inode == s.pos.inode && p <= r.final.pos.offset <= |old0| &&
                                 r.delivered == old0[p..r.final.pos.offset]) &&
            (!r.final.oldfile ==> r.final.pos.inode == live.inode &&
                                  r.delivered == old0[p..] + live.content[..r.final.pos.offset])
  {
    var r := Reads(filePath, fs, s, ks);
    var live := fs.files[filePath];
    ReadsStream(filePath, fs, s, ks);
    ReadsKeepOldFile(filePath, fs, s, ks);
    var c := r.final.handle.cursor;
    if r.final.oldfile {
      assert Pending(filePath, fs, r.final) == old0[c..] + live.content;
      FrontOfOld(r.delivered, old0, live.content, p, c);
    } else {
      assert Pending(filePath, fs, r.final) == live.content[c..];
      FrontOfLive(r.delivered, old0[p..], live.content, c);
    }
  }

  /** What lies in front of old[c..] + live within old[p..] + live. */
  lemma FrontOfOld(d: seq<byte>, old0: seq<byte>, live: seq<byte>, p: nat, c: nat)
    requires p <= c <= |old0|
    requires d + (old0[c..] + live) == old0[p..] + live
    ensures d == old0[p..c]
  {
    PrefixOf(d, old0[c..] + live, old0[p..] + live);
    assert |d| == c - p;
    PrefixOfJoin(old0[p..], live, |d|);
    assert old0[p..][..c - p] == old0[p..c];
  }

  /** What lies in front of live[c..] within tail + live. */
  lemma FrontOfLive(d: seq<byte>, tail: seq<byte>, live: seq<byte>, c: nat)
    requires c <= |live|
    requires d + live[c..] == tail + live
    ensures d == tail + live[..c]
  {
    PrefixOf(d, live[c..], tail + live);
    assert |d| == |tail| + c;
    PrefixOfJoin(tail, live, |d|);
  }

  /** While the tailer stays on the old file, its handle is the one it
      opened and its record keeps the old file's inode. */
  lemma {:induction false} ReadsKeepOldFile(filePath: string, fs: FileSystem, s: TailerState, ks: seq<nat>)
    requires Tracks(filePath, fs, s)
    ensures var r := Reads(filePath, fs, s, ks);
            r.final.oldfile ==> s.oldfile && r.final.handle.content == s.handle.content &&
                                r.final.handle.inode == s.handle.inode && r.final.pos.inode == s.pos.inode &&
                                s.handle.cursor <= r.final.handle.cursor
    decreases |ks|
  {
    if ks != [] {
      var o := ReadSpec(filePath, s, ks[0], fs);
      ReadStep(filePath, fs, s, ks[0]);
      ReadsKeepOldFile(filePath, fs, o.next, ks[1..]);
    }
  }

  // ---------------------------------------------------------------------
  // Open
  // ---------------------------------------------------------------------

  /** A successful Open leaves the tailer positioned consistently; on the
      live file its record carries the live file's inode, so Close
      persists it; on the old file it is the stored record. */
  lemma OpenTracks(filePath: string, fs: FileSystem, stored: Position)
    requires OpenSpec(filePath, fs, stored).Ok?
    ensures var s := OpenSpec(filePath, fs, stored).value;
            Tracks(filePath, fs, s) &&
            (!s.oldfile ==> s.pos.inode == fs.files[filePath].inode) &&
            (s.oldfile ==> s.pos == stored && s.handle.inode == stored.inode)
  {
  }

  /** Open fails exactly when the live path is missing or, with rotation
      suspected, the directory cannot be listed. */
  lemma OpenFails(filePath: string, fs: FileSystem, stored: Position)
    ensures OpenSpec(filePath, fs, stored).Err? <==>
              filePath !in fs.files ||
              (stored.inode > 0 && stored.inode != fs.files[filePath].inode && fs.listing.None?)
    ensures filePath !in fs.files ==> OpenSpec(filePath, fs, stored) == Err(NoSuchFile(filePath))
    ensures OpenSpec(filePath, fs, stored).Err? && filePath in fs.files ==>
              OpenSpec(filePath, fs, stored) == Err(ReadDirFailed)
  {
    FindByInodeOutcomes(stored.inode, fs);
  }

  /** A stored inode that is unknown (0, as a missing or unreadable
      position file gives) or equal to the live file's never starts a
      rotation search: the directory listing plays no part. */
  lemma OpenWithoutRotation(filePath: string, fs: FileSystem, stored: Position, listing: Option<seq<string>>)
    requires filePath in fs.files
    requires stored.inode == 0 || stored.inode == fs.files[filePath].inode
    ensures OpenSpec(filePath, fs, stored) == OpenSpec(filePath, fs.(listing := listing), stored)
    ensures var live := fs.files[filePath];
            OpenSpec(filePath, fs, stored) ==
              Ok(LiveAt(live, if stored.offset <= |live.content| then stored.offset else 0))
  {
  }

  /** On the live file, any sequence of reads delivers the file's bytes
      from the recorded offset on, the record advancing with them. */
  lemma LiveDelivers(filePath: string, fs: FileSystem, s: TailerState, ks: seq<nat>)
    requires Tracks(filePath, fs, s) && !s.oldfile
    ensures var live := fs.files[filePath]; var r := Reads(filePath, fs, s, ks);
            s.pos.offset + |r.delivered| <= |live.content| &&
            |r.delivered| == Min(Sum(ks), |live.content| - s.pos.offset)
    ensures var live := fs.files[filePath]; var r := Reads(filePath, fs, s, ks);
            !r.final.oldfile &&
            r.final.pos == Position(live.inode, s.pos.offset + |r.delivered|) &&
            r.delivered == live.content[s.pos.offset..s.pos.offset + |r.delivered|]
  {
    var r := Reads(filePath, fs, s, ks);
    ReadsStream(filePath, fs, s, ks);
    OnLiveFile(fs.files[filePath], s, r.final, r.delivered, Sum(ks));
  }

  /** Two tailer states on the live file, d the bytes between them. */
  lemma OnLiveFile(live: File, s: TailerState, t: TailerState, d: seq<byte>, total: nat)
    requires ValidState(s) && ValidState(t) && !s.oldfile && !t.oldfile
    requires s.handle.inode == live.inode && s.handle.content == live.content
    requires t.handle.inode == live.inode && t.handle.content == live.content
    requires d + Remaining(t.handle) == Remaining(s.handle)
    requires |d| == Min(total, |Remaining(s.handle)|)
    ensures s.pos.offset + |d| <= |live.content| &&
            |d| == Min(total, |live.content| - s.pos.offset)
    ensures t.pos == Position(live.inode, s.pos.offset + |d|) &&
            d == live.content[s.pos.offset..s.pos.offset + |d|]
  {
    FrontOfTail(d, live.content, s.pos.offset, t.pos.offset);
  }

  /** What lies in front of content[c..] within content[a..]. */
  lemma FrontOfTail(d: seq<byte>, content: seq<byte>, a: nat, c: nat)
    requires a <= |content| && c <= |content|
    requires d + content[c..] == content[a..]
    ensures c == a + |d| && d == content[a..c]
  {
    PrefixOf(d, content[c..], content[a..]);
    assert content[a..][..|d|] == content[a..a + |d|];
  }

  /** Resuming: an offset within the live file continues there, and every
      later sequence of reads delivers the live file's bytes from that
      offset on, the record advancing with them. */
  lemma ResumeDelivers(filePath: string, fs: FileSystem, stored: Position, ks: seq<nat>)
    requires filePath in fs.files
    requires stored.inode == 0 || stored.inode == fs.files[filePath].inode
    requires stored.offset <= |fs.files[filePath].content|
    ensures OpenSpec(filePath, fs, stored) == Ok(LiveAt(fs.files[filePath], stored.offset))
    ensures var live := fs.files[filePath]; var r := Reads(filePath, fs, LiveAt(live, stored.offset), ks);
            |r.delivered| == Min(Sum(ks), |live.content| - stored.offset)
    ensures var live := fs.files[filePath]; var r := Reads(filePath, fs, LiveAt(live, stored.offset), ks);
            !r.final.oldfile &&
            r.final.pos == Position(live.inode, stored.offset + |r.delivered|) &&
            r.delivered == live.content[stored.offset..stored.offset + |r.delivered|]
  {
    var s := LiveAt(fs.files[filePath], stored.offset);
    OpenWithoutRotation(filePath, fs, stored, fs.listing);
    assert Tracks(filePath, fs, s);
    LiveDelivers(filePath, fs, s, ks);
  }

  /** An offset past the end of a file with the same identity (the file was
      truncated) is reset: the live file is read from its start. */
  lemma OpenTruncated(filePath: string, fs: FileSystem, stored: Position)
    requires filePath in fs.files
    requires stored.inode == 0 || stored.inode == fs.files[filePath].inode
    requires stored.offset > |fs.files[filePath].content|
    ensures OpenSpec(filePath, fs, stored) == Ok(LiveAt(fs.files[filePath], 0))
  {
  }

  /** Rotation with the old file gone from the directory: Open does not
      fail, it reads the live file from offset 0. */
  lemma OpenRotatedOldMissing(filePath: string, fs: FileSystem, stored: Position)
    requires filePath in fs.files
    requires stored.inode > 0 && stored.inode != fs.files[filePath].inode
    requires fs.listing.Some?
    requires forall e :: e in EntriesOf(fs.files, fs.listing.value) ==> e.inode != stored.inode
    ensures OpenSpec(filePath, fs, stored) == Ok(LiveAt(fs.files[filePath], 0))
  {
    FindByInodeOutcomes(stored.inode, fs);
  }

  /** Rotation with an old file that has nothing past the stored offset:
      nothing to drain, the live file is read from offset 0. */
  lemma OpenRotatedOldDrained(filePath: string, fs: FileSystem, stored: Position, name: string)
    requires filePath in fs.files
    requires stored.inode > 0 && stored.inode != fs.files[filePath].inode
    requires FindByInode(stored.inode, fs) == Ok(name)
    requires stored.offset >= |fs.files[name].content|
    ensures OpenSpec(filePath, fs, stored) == Ok(LiveAt(fs.files[filePath], 0))
  {
  }

  /** Rotation with unread bytes in the old file: Open positions the tailer
      on the old file found by inode, at the stored offset, with the stored
      record. */
  lemma OpenRotatedDrainsOld(filePath: string, fs: FileSystem, stored: Position, name: string)
    requires filePath in fs.files
    requires stored.inode > 0 && stored.inode != fs.files[filePath].inode
    requires FindByInode(stored.inode, fs) == Ok(name)
    requires stored.offset < |fs.files[name].content|
    ensures OpenSpec(filePath, fs, stored) == Ok(TailerState(stored, true, OpenAt(fs.files[name], stored.offset)))
  {
  }

  /** Rotation with unread bytes in the old file: Open positions the tailer
      on the old file at the stored offset, and any sequence of reads
      then delivers a prefix of the old file's tail followed by the whole
      new file. The record counts old-file bytes while on the old file and
      new-file bytes only, against the new file's inode, after the switch. */
  lemma RotationSplice(filePath: string, fs: FileSystem, stored: Position, name: string, ks: seq<nat>)
    requires filePath in fs.files
    requires stored.inode > 0 && stored.inode != fs.files[filePath].inode
    requires FindByInode(stored.inode, fs) == Ok(name)
    requires stored.offset < |fs.files[name].content|
    ensures OpenSpec(filePath, fs, stored).Ok? && OpenSpec(filePath, fs, stored).value.oldfile
    ensures var r := Reads(filePath, fs, OpenSpec(filePath, fs, stored).value, ks);
            Tracks(filePath, fs, r.final) &&
            (r.final.oldfile ==> stored.offset <= r.final.pos.offset <= |fs.files[name].content|)
    ensures var oldC := fs.files[name].content; var live := fs.files[filePath];
            var r := Reads(filePath, fs, OpenSpec(filePath, fs, stored).value, ks);
            r.delivered + Pending(filePath, fs, r.final) == oldC[stored.offset..] + live.content &&
            |r.delivered| == Min(Sum(ks), |oldC| - stored.offset + |live.content|) &&
            (r.final.oldfile ==> r.final.pos.inode == stored.inode &&
                                 r.delivered == oldC[stored.offset..r.final.pos.offset]) &&
            (!r.final.oldfile ==> r.final.pos.inode == live.inode &&
                                  r.delivered == oldC[stored.offset..] + live.content[..r.final.pos.offset])
  {
    var oldC := fs.files[name].content;
    OpenRotatedDrainsOld(filePath, fs, stored, name);
    var s := TailerState(stored, true, OpenAt(fs.files[name], stored.offset));
    assert Pending(filePath, fs, s) == oldC[stored.offset..] + fs.files[filePath].content;
    ReadsStream(filePath, fs, s, ks);
    DeliveredUpToOffset(filePath, fs, s, oldC, stored.offset, ks);
  }
}
