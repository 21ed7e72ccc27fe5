/** The operating-system side the tailer relies on, reduced to values: files
    with an inode and a content, one directory listing, and open handles with
    the read semantics of Go's os.File. Paths are names inside the directory
    of the tailed file. */
module Files {

  newtype byte = b: int | 0 <= b < 256

  datatype Option<+T> = None | Some(value: T)

  /** The failures the tailer can observe. EOF is Go's io.EOF. */
  datatype Error =
    | EOF
    | NoSuchFile(path: string)  // os.Stat or os.Open on a path that does not exist
    | ReadDirFailed             // ioutil.ReadDir on a directory that cannot be listed
    | FileNotFound              // findFileByInode: no entry carries the inode
    | Closed                    // a read from a handle that was already closed
    | CreateTempFailed          // ioutil.TempFile
    | WriteFailed               // (*os.File).Write on the temporary file
    | RenameFailed              // os.Rename of the temporary file

  datatype Result<+T> = Ok(value: T) | Err(error: Error)

  function Min(a: nat, b: nat): (m: nat) { if a <= b then a else b }

  /** A file. Inode 0 means that its identity could not be determined. */
  datatype File = File(inode: nat, content: seq<byte>)

  /** One directory entry as ioutil.ReadDir reports it. */
  datatype Entry = Entry(name: string, inode: nat)

  /** The files by name, and the names the directory lists in ReadDir's
      order; None when the directory cannot be read. */
  datatype FileSystem = FileSystem(files: map<string, File>, listing: Option<seq<string>>)

  /** The entries for the listed names; a name whose file has vanished is skipped. */
  function EntriesOf(files: map<string, File>, names: seq<string>): (es: seq<Entry>)
    ensures |es| <= |names|
    ensures forall i :: 0 <= i < |es| ==> es[i].name in files && files[es[i].name].inode == es[i].inode
    ensures forall i :: 0 <= i < |es| ==> es[i].name in names
  {
    if names == [] then []
    else
      var rest := EntriesOf(files, names[1..]);
      if names[0] in files then [Entry(names[0], files[names[0]].inode)] + rest else rest
  }

  /** Every listed name whose file exists has its entry, placed after the
      entries of the names listed before it. */
  lemma {:induction false} EntriesOfComplete(files: map<string, File>, names: seq<string>, i: nat)
    requires i < |names| && names[i] in files
    ensures exists j :: 0 <= j < |EntriesOf(files, names)| &&
                        EntriesOf(files, names)[j] == Entry(names[i], files[names[i]].inode) &&
                        j == |EntriesOf(files, names[..i])|
    decreases i
  {
    if i == 0 {
      assert EntriesOf(files, names)[0] == Entry(names[0], files[names[0]].inode);
      assert names[..0] == [];
    } else {
      EntriesOfComplete(files, names[1..], i - 1);
      var rest := EntriesOf(files, names[1..]);
      var j :| 0 <= j < |rest| && rest[j] == Entry(names[i], files[names[i]].inode) &&
               j == |EntriesOf(files, names[1..][..i - 1])|;
      assert names[..i][1..] == names[1..][..i - 1];
      var d := if names[0] in files then 1 else 0;
      assert EntriesOf(files, names)[j + d] == rest[j];
    }
  }

  /** ioutil.ReadDir on the tailed file's directory. */
  function ReadDir(fs: FileSystem): (r: Result<seq<Entry>>)
    ensures r.Err? <==> fs.listing.None?
    ensures r.Err? ==> r.error == ReadDirFailed
  {
    match fs.listing
    case None => Err(ReadDirFailed)
    case Some(names) => Ok(EntriesOf(fs.files, names))
  }

  /** An open file (Go's *os.File): the identity and content of the file it
      was opened on, the read cursor, and whether it is still open. */
  datatype Handle = Handle(inode: nat, content: seq<byte>, cursor: nat, open: bool)

  /** os.Open followed by a Seek to the given offset. */
  function OpenAt(f: File, cursor: nat): (h: Handle)
    ensures h.open && h.inode == f.inode
    ensures cursor <= |f.content| ==> Remaining(h) == f.content[cursor..]
    ensures cursor > |f.content| ==> Remaining(h) == []
  {
    Handle(f.inode, f.content, cursor, true)
  }

  /** The bytes a handle has not yet delivered. */
  function Remaining(h: Handle): (rest: seq<byte>) {
    if h.cursor <= |h.content| then h.content[h.cursor..] else []
  }

  datatype ReadOutcome = ReadOutcome(handle: Handle, data: seq<byte>, err: Option<Error>)

  /** (*os.File).Read into a buffer of length k: it delivers
      min(k, bytes left) bytes, and reports EOF only when it delivers nothing
      into a non-empty buffer. */
  function HandleRead(h: Handle, k: nat): (r: ReadOutcome)
    ensures !h.open ==> r == ReadOutcome(h, [], Some(Closed))
    ensures h.open ==> |r.data| == Min(k, |Remaining(h)|)
    ensures h.open ==> r.data + Remaining(r.handle) == Remaining(h)
    ensures h.open ==> (r.err == Some(EOF) <==> r.data == [] && k > 0)
    ensures h.open ==> (r.err.Some? ==> r.err == Some(EOF))
    ensures r.handle.inode == h.inode && r.handle.content == h.content && r.handle.open == h.open
    ensures h.cursor <= |h.content| ==> r.handle.cursor == h.cursor + |r.data| <= |h.content|
  {
    if !h.open then ReadOutcome(h, [], Some(Closed))
    else
      var n := Min(k, |Remaining(h)|);
      ReadOutcome(h.(cursor := h.cursor + n), Remaining(h)[..n], if n == 0 && k > 0 then Some(EOF) else None)
  }

  /** (*os.File).Read on the buffer p: p[..n] receives the bytes read and the
      rest of p is left as it was. */
  method ReadInto(h: Handle, p: array<byte>) returns (h': Handle, n: nat, err: Option<Error>)
    modifies p
    ensures var r := HandleRead(h, p.Length); h' == r.handle && n == |r.data| && err == r.err
    ensures n <= p.Length && p[..n] == HandleRead(h, p.Length).data && p[n..] == old(p[n..])
  {
    var r := HandleRead(h, p.Length);
    h', n, err := r.handle, |r.data|, r.err;
    for i := 0 to n
      invariant forall j :: 0 <= j < i ==> p[j] == r.data[j]
      invariant forall j :: i <= j < p.Length ==> p[j] == old(p[j])
    {
      p[i] := r.data[i];
    }
    assert p[..n] == r.data;
  }
}
