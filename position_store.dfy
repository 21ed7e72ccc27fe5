/** The position file: a durable {inode, offset} record, loaded at Open and
    saved at Close through an atomic create, write, close, rename protocol.
    The JSON encoding is not modelled: a stored file holds either a whole
    record or bytes that do not parse (None). */
module PositionStore {
  import opened Files

  /** The source's `position`: Inode and Pos. */
  datatype Position = Position(inode: nat, offset: nat)

  /** The I/O failures the save may meet, one flag per step of the protocol. */
  datatype Faults = Faults(createFails: bool, writeFails: bool, renameFails: bool)

  /** Open's loading of the record (postailer.go:41-49): an absent file or
      one that does not parse gives the zero position. */
  function Load(files: map<string, Option<Position>>, path: string): (p: Position)
    ensures path in files && files[path].Some? ==> p == files[path].value
    ensures p != Position(0, 0) ==> path in files && files[path] == Some(p)
  {
    if path in files && files[path].Some? then files[path].value else Position(0, 0)
  }

  /** The position files of one directory, by path. */
  class Store {
    var files: map<string, Option<Position>>

    constructor (files: map<string, Option<Position>>)
      ensures this.files == files
    {
      this.files := files;
    }

    /** writeFileAtomically (postailer.go:140-155). The temporary names
        ioutil.TempFile would try are given: it takes the first one that
        does not exist. On success the target holds the whole new record;
        on any failure the map is exactly as before, the temporary file
        included. DEVIATION: line 142 lets ioutil.TempFile pick any absent
        name in the directory; a temporary name equal to the target is never
        taken here (see SelfRenameLosesRecord). */
    method WriteAtomically(f: string, contents: Position, tempNames: seq<string>, faults: Faults)
      returns (err: Option<Error>)
      modifies this
      ensures err.None? ==> files == old(files)[f := Some(contents)]
      ensures err.Some? ==> files == old(files)
      ensures err == Some(CreateTempFailed) <==>
                faults.createFails || !HasFreshName(tempNames, old(files), f)
      ensures err == Some(WriteFailed) <==>
                !faults.createFails && HasFreshName(tempNames, old(files), f) && faults.writeFails
      ensures err == Some(RenameFailed) <==>
                !faults.createFails && HasFreshName(tempNames, old(files), f) && !faults.writeFails && faults.renameFails
      ensures err.None? || err == Some(CreateTempFailed) || err == Some(WriteFailed) || err == Some(RenameFailed)
    {
      // ioutil.TempFile: the first candidate that does not exist yet
      // (DEVIATION, line 142: and that is not the target itself)
      var i := 0;
      while i < |tempNames| && (tempNames[i] in files || tempNames[i] == f)
        invariant 0 <= i <= |tempNames|
        invariant forall j :: 0 <= j < i ==> tempNames[j] in files || tempNames[j] == f
      {
        i := i + 1;
      }
      if faults.createFails || i == |tempNames| {
        return Some(CreateTempFailed);
      }
      var tmp := tempNames[i];
      files := files[tmp := None];
      if faults.writeFails {
        // the deferred os.Remove deletes the partly written temporary file
        files := files - {tmp};
        return Some(WriteFailed);
      }
      files := files[tmp := Some(contents)];
      // tmpf.Close() leaves the map as it is
      if faults.renameFails {
        files := files - {tmp};
        return Some(RenameFailed);
      }
      files := (files - {tmp})[f := files[tmp]];
      // the deferred os.Remove finds no file under the temporary name
      files := files - {tmp};
      return None;
    }
  }

  /** ioutil.TempFile can find a name: some candidate does not exist and is
      not the target itself. */
  predicate HasFreshName(tempNames: seq<string>, files: map<string, Option<Position>>, f: string) {
    exists i :: 0 <= i < |tempNames| && tempNames[i] !in files && tempNames[i] != f
  }

  /** The protocol of postailer.go:142-154 exactly as written, for the
      temporary name tmp that ioutil.TempFile picked (one that does not
      exist). The deferred os.Remove(tmp) runs on every path after the
      creation. */
  function WriteAsWritten(files: map<string, Option<Position>>, f: string, contents: Position,
                          tmp: string, faults: Faults): (r: (map<string, Option<Position>>, Option<Error>))
    requires tmp !in files
    ensures r.1 == Some(CreateTempFailed) <==> faults.createFails
    ensures r.1 == Some(WriteFailed) <==> !faults.createFails && faults.writeFails
    ensures r.1 == Some(RenameFailed) <==> !faults.createFails && !faults.writeFails && faults.renameFails
    ensures r.1.Some? ==> r.0 == files
    ensures r.1.None? ==> r.0 == files[f := Some(contents)] - {tmp}
  {
    if faults.createFails then (files, Some(CreateTempFailed))
    else
      var created := files[tmp := None];
      if faults.writeFails then (created - {tmp}, Some(WriteFailed))
      else
        var written := created[tmp := Some(contents)];
        if faults.renameFails then (written - {tmp}, Some(RenameFailed))
        else
          var renamed := (written - {tmp})[f := written[tmp]];
          (renamed - {tmp}, None)
  }

  /** When the temporary name differs from the target, the protocol as
      written keeps the promise of postailer.go:141,146-147: replaced
      wholesale on success, unchanged on failure. */
  lemma WriteAsWrittenAtomic(files: map<string, Option<Position>>, f: string, contents: Position,
                             tmp: string, faults: Faults)
    requires tmp !in files && tmp != f
    ensures var (after, err) := WriteAsWritten(files, f, contents, tmp, faults);
            (err.None? ==> after == files[f := Some(contents)] && Load(after, f) == contents) &&
            (err.Some? ==> after == files)
  {
    var (after, err) := WriteAsWritten(files, f, contents, tmp, faults);
    if err.None? {
      var written := files[tmp := Some(contents)];
      assert after == ((written - {tmp})[f := Some(contents)]) - {tmp};
      assert after == files[f := Some(contents)];
    }
  }

  /** A position file that does not exist yet, named like a temporary file
      ("tmp" followed by digits): when ioutil.TempFile picks exactly that
      name, os.Rename(tmp, f) renames the file onto itself and the deferred
      os.Remove then deletes the record that was just written. The save
      reports success and the next Open loads the zero position. */
  lemma SelfRenameLosesRecord(files: map<string, Option<Position>>, f: string, contents: Position)
    requires f !in files
    ensures var (after, err) := WriteAsWritten(files, f, contents, f, Faults(false, false, false));
            err.None? && after == files && Load(after, f) == Position(0, 0)
  {
    assert files[f := Some(contents)] - {f} == files;
  }

  /** The smallest instance: no files, and the position file "tmp123". */
  lemma SelfRenameExample()
    ensures var (after, err) := WriteAsWritten(map[], "tmp123", Position(7, 42), "tmp123", Faults(false, false, false));
            err.None? && after == map[] && Load(after, "tmp123") == Position(0, 0)
  {
    SelfRenameLosesRecord(map[], "tmp123", Position(7, 42));
  }

  /** Loading a record that was saved gives that record back; saving one
      path leaves the others as they were. */
  lemma LoadAfterSave(files: map<string, Option<Position>>, f: string, g: string, contents: Position)
    ensures Load(files[f := Some(contents)], f) == contents
    ensures g != f ==> Load(files[f := Some(contents)], g) == Load(files, g)
  {
  }
}
