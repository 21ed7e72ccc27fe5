/** The package's table-driven tests (postailer_test.go:18-190) and its
    example (postailer_example_test.go:15-67), stated about the model: open
    the tailer, read into a 5-byte and then a 3-byte buffer, close, and load
    the saved record. "log.log" has inode 11 and a file created in its
    place after a rename has inode 12. */
module Scenarios {
  import opened Files
  import opened PositionStore
  import opened Postailer
  import opened TailerProperties

  /** The bytes of an ASCII string. */
  function Bytes(s: string): (bs: seq<byte>) {
    seq(|s|, i requires 0 <= i < |s| => (s[i] as int % 256) as byte)
  }

  const LogFile: string := "log.log"
  const BakFile: string := "log.log.bak"
  const PosFile: string := "log.log.json"

  /** What one test case observes. */
  datatype Observed = Observed(data1: seq<byte>, err1: Option<Error>, data2: seq<byte>, err2: Option<Error>, saved: Position)

  /** Open, Read(5), Read(3), Close, loadPos (postailer_test.go:192-244). */
  function RunCase(fs: FileSystem, store: map<string, Option<Position>>): (r: Result<Observed>) {
    match OpenSpec(LogFile, fs, Load(store, PosFile))
    case Err(e) => Err(e)
    case Ok(s) =>
      var o1 := ReadSpec(LogFile, s, 5, fs);
      var o2 := ReadSpec(LogFile, o1.next, 3, fs);
      var after := store[PosFile := Some(o2.next.pos)];
      Ok(Observed(o1.data, o1.err, o2.data, o2.err, Load(after, PosFile)))
  }

  function OneFile(content: string): (fs: FileSystem) {
    FileSystem(map[LogFile := File(11, Bytes(content))], Some([LogFile]))
  }

  function Rotated(oldContent: string, newContent: string): (fs: FileSystem) {
    FileSystem(map[LogFile := File(12, Bytes(newContent)), BakFile := File(11, Bytes(oldContent))],
               Some([LogFile, BakFile]))
  }

  /** "New": no position file. */
  lemma CaseNew()
    ensures RunCase(OneFile("abcdf13579"), map[]) ==
            Ok(Observed(Bytes("abcdf"), None, Bytes("135"), None, Position(11, 8)))
  {
    assert Bytes("abcdf13579")[..5] == Bytes("abcdf");
    assert Bytes("abcdf13579")[5..][..3] == Bytes("135");
  }

  /** "Simple": resume at the stored offset 6. */
  lemma CaseSimple()
    ensures RunCase(OneFile("-skip-abcdf13579"), map[PosFile := Some(Position(11, 6))]) ==
            Ok(Observed(Bytes("abcdf"), None, Bytes("135"), None, Position(11, 14)))
  {
    assert Bytes("-skip-abcdf13579")[6..][..5] == Bytes("abcdf");
    assert Bytes("-skip-abcdf13579")[11..][..3] == Bytes("135");
  }

  /** "EOF": a short read, then EOF with nothing read. */
  lemma CaseEOF()
    ensures RunCase(OneFile("abcd"), map[]) ==
            Ok(Observed(Bytes("abcd"), None, [], Some(EOF), Position(11, 4)))
  {
    assert Bytes("abcd")[..4] == Bytes("abcd");
  }

  /** "Roteted": the old file's last four bytes and the new file's first
      byte arrive in one read; the saved offset counts the new file only. */
  lemma CaseRotated()
    ensures RunCase(Rotated("-skip-abcd", "f135999"), map[PosFile := Some(Position(11, 6))]) ==
            Ok(Observed(Bytes("abcdf"), None, Bytes("135"), None, Position(12, 4)))
  {
    var fs := Rotated("-skip-abcd", "f135999");
    assert EntriesOf(fs.files, [LogFile, BakFile]) == [Entry(LogFile, 12), Entry(BakFile, 11)];
    assert FindByInode(11, fs) == Ok(BakFile);
    assert Bytes("-skip-abcd")[6..][..4] + Bytes("f135999")[..1] == Bytes("abcdf");
    assert Bytes("f135999")[1..][..3] == Bytes("135");
  }

  /** "Just Roteted": the first read empties the old file exactly and stays
      on it; the switch happens on the second read. */
  lemma CaseJustRotated()
    ensures RunCase(Rotated("-skip-abcdf", "135999"), map[PosFile := Some(Position(11, 6))]) ==
            Ok(Observed(Bytes("abcdf"), None, Bytes("135"), None, Position(12, 3)))
  {
    var fs := Rotated("-skip-abcdf", "135999");
    assert EntriesOf(fs.files, [LogFile, BakFile]) == [Entry(LogFile, 12), Entry(BakFile, 11)];
    assert FindByInode(11, fs) == Ok(BakFile);
    var s := TailerState(Position(11, 6), true, OpenAt(File(11, Bytes("-skip-abcdf")), 6));
    assert OpenSpec(LogFile, fs, Position(11, 6)) == Ok(s);
    var o1 := ReadSpec(LogFile, s, 5, fs);
    assert Bytes("-skip-abcdf")[6..][..5] == Bytes("abcdf");
    assert o1.next == TailerState(Position(11, 11), true, Handle(11, Bytes("-skip-abcdf"), 11, true));
    assert o1.data == Bytes("abcdf") && o1.err.None?;
    var o2 := ReadSpec(LogFile, o1.next, 3, fs);
    assert HandleRead(o1.next.handle, 3).err == Some(EOF);
    assert Bytes("135999")[..3] == Bytes("135");
    assert o2.data == [] + Bytes("135999")[..3];
    assert o2.next.pos == Position(12, 3);
    assert o2.err == None;
    assert o2.data == Bytes("135");
    assert Load(map[PosFile := Some(Position(11, 6))], PosFile) == Position(11, 6);
    assert RunCase(fs, map[PosFile := Some(Position(11, 6))]) == Ok(Observed(o1.data, o1.err, o2.data, o2.err, Position(12, 3)));
  }

  /** "Roteted but missing": no file carries the stored inode; the live file
      is read from the start. */
  lemma CaseRotatedButMissing()
    ensures RunCase(OneFile("abcdf13579"), map[PosFile := Some(Position(0x1_0000_0000_0000_0000 - 11, 6))]) ==
            Ok(Observed(Bytes("abcdf"), None, Bytes("135"), None, Position(11, 8)))
  {
    var fs := OneFile("abcdf13579");
    assert EntriesOf(fs.files, [LogFile]) == [Entry(LogFile, 11)];
    assert FindByInode(0x1_0000_0000_0000_0000 - 11, fs) == Err(FileNotFound);
    assert Bytes("abcdf13579")[..5] == Bytes("abcdf");
    assert Bytes("abcdf13579")[5..][..3] == Bytes("135");
  }

  /** "Same inode, but Truncated": an offset past the end is reset to 0. */
  lemma CaseTruncated()
    ensures RunCase(OneFile("abcdf13579"), map[PosFile := Some(Position(11, 10000))]) ==
            Ok(Observed(Bytes("abcdf"), None, Bytes("135"), None, Position(11, 8)))
  {
    assert Bytes("abcdf13579")[..5] == Bytes("abcdf");
    assert Bytes("abcdf13579")[5..][..3] == Bytes("135");
  }

  /** The example (postailer_example_test.go:15-67): three sessions over
      one log, with appends in between and a rotation before the third;
      each session reads to EOF. Together they deliver the whole history
      once, in order. First session: no position file. */
  lemma ExampleFirstSession()
    ensures var fs := OneFile("1\n22\n");
            OpenSpec(LogFile, fs, Load(map[], PosFile)).Ok? &&
            Reads(LogFile, fs, OpenSpec(LogFile, fs, Load(map[], PosFile)).value, [4096, 4096]) ==
              Session(LiveAt(File(11, Bytes("1\n22\n")), 5), Bytes("1\n22\n"))
  {
    assert Bytes("1\n22\n")[..5] == Bytes("1\n22\n");
  }

  /** Second session: "333\n" was appended; the tailer resumes at 5. */
  lemma ExampleSecondSession()
    ensures var fs := OneFile("1\n22\n333\n");
            OpenSpec(LogFile, fs, Position(11, 5)).Ok? &&
            Reads(LogFile, fs, OpenSpec(LogFile, fs, Position(11, 5)).value, [4096, 4096]) ==
              Session(LiveAt(File(11, Bytes("1\n22\n333\n")), 9), Bytes("333\n"))
  {
    assert Bytes("1\n22\n333\n")[5..][..4] == Bytes("333\n");
  }

  lemma BytesSlice(s: string, i: nat, j: nat)
    requires i <= j <= |s|
    ensures Bytes(s)[i..j] == Bytes(s[i..j])
  {
  }

  lemma BytesJoin(a: string, b: string)
    ensures Bytes(a + b) == Bytes(a) + Bytes(b)
  {
  }

  lemma ThirdSessionBytes()
    ensures |Bytes("1\n22\n333\n4444\n")| == 14 && |Bytes("newfile:1\nnewfile:22")| == 20
    ensures Bytes("1\n22\n333\n4444\n")[9..][..5] + Bytes("newfile:1\nnewfile:22")[..20]
         == Bytes("4444\nnewfile:1\nnewfile:22")
  {
    var oldS, newS := "1\n22\n333\n4444\n", "newfile:1\nnewfile:22";
    assert Bytes(oldS)[9..][..5] == Bytes(oldS)[9..14];
    BytesSlice(oldS, 9, 14);
    assert oldS[9..14] == "4444\n";
    assert Bytes(newS)[..20] == Bytes(newS);
    BytesJoin("4444\n", newS);
    assert "4444\n" + newS == "4444\nnewfile:1\nnewfile:22";
  }

  /** Third session: "4444\n" was appended, the log renamed to log.log.bak
      and a new log.log written; the old tail and the new file arrive in
      one read, and the saved record is {12, 20}. */
  lemma ExampleThirdSession()
    ensures var fs := Rotated("1\n22\n333\n4444\n", "newfile:1\nnewfile:22");
            OpenSpec(LogFile, fs, Position(11, 9)).Ok? &&
            Reads(LogFile, fs, OpenSpec(LogFile, fs, Position(11, 9)).value, [4096, 4096]) ==
              Session(LiveAt(File(12, Bytes("newfile:1\nnewfile:22")), 20), Bytes("4444\nnewfile:1\nnewfile:22"))
  {
    var fs := Rotated("1\n22\n333\n4444\n", "newfile:1\nnewfile:22");
    var oldC, newC := Bytes("1\n22\n333\n4444\n"), Bytes("newfile:1\nnewfile:22");
    assert EntriesOf(fs.files, [LogFile, BakFile]) == [Entry(LogFile, 12), Entry(BakFile, 11)];
    assert FindByInode(11, fs) == Ok(BakFile);
    var s := TailerState(Position(11, 9), true, OpenAt(File(11, oldC), 9));
    assert OpenSpec(LogFile, fs, Position(11, 9)) == Ok(s);
    var o1 := ReadSpec(LogFile, s, 4096, fs);
    assert |Remaining(s.handle)| == 5;
    assert o1.data == oldC[9..][..5] + newC[..20];
    ThirdSessionBytes();
    assert o1.next == LiveAt(File(12, newC), 20);
    var o2 := ReadSpec(LogFile, o1.next, 4096, fs);
    assert o2.data == [] && o2.next == o1.next;
    assert Reads(LogFile, fs, o1.next, [4096]) == Session(o1.next, []);
  }

  /** TestReadClose (postailer_test.go:192-244) run through the Postailer
      object: Open, Read into a 5-byte and a 3-byte buffer, Close, and load
      the saved record. When a temporary name is free the save succeeds, and
      the session observes exactly what RunCase describes. */
  method RunSession(fs: FileSystem, store: Store, tempNames: seq<string>) returns (r: Result<Observed>)
    requires HasFreshName(tempNames, store.files, PosFile)
    modifies store
    ensures r == RunCase(fs, old(store.files))
    ensures r.Ok? ==> store.files == old(store.files)[PosFile := Some(r.value.saved)]
    ensures r.Err? ==> store.files == old(store.files)
  {
    ghost var files0 := store.files;
    var pt, err := OpenTailer(LogFile, PosFile, fs, store);
    if err.Some? {
      return Err(err.value);
    }
    ghost var s0 := pt.State();
    RunCaseOk(fs, files0, s0);
    var d1, err1, d2, err2 := ReadFiveThenThree(pt, fs);
    var errClose := pt.Close(store, tempNames, Faults(false, false, false));
    assert errClose.None?;
    LoadAfterSave(files0, PosFile, PosFile, pt.pos);
    return Ok(Observed(d1, err1, d2, err2, Load(store.files, PosFile)));
  }

  /** The test's two reads, into a 5-byte and then a 3-byte buffer. */
  method ReadFiveThenThree(pt: Postailer, fs: FileSystem) returns (d1: seq<byte>, err1: Option<Error>, d2: seq<byte>, err2: Option<Error>)
    requires pt.Valid()
    modifies pt
    ensures var o1 := ReadSpec(pt.filePath, old(pt.State()), 5, fs);
            var o2 := ReadSpec(pt.filePath, o1.next, 3, fs);
            d1 == o1.data && err1 == o1.err && d2 == o2.data && err2 == o2.err && pt.State() == o2.next
  {
    var p1 := new byte[5];
    var n1, e1 := pt.Read(p1, fs);
    var p2 := new byte[3];
    var n2, e2 := pt.Read(p2, fs);
    return p1[..n1], e1, p2[..n2], e2;
  }

  /** RunCase once Open has succeeded with the state s. */
  lemma RunCaseOk(fs: FileSystem, store: map<string, Option<Position>>, s: TailerState)
    requires OpenSpec(LogFile, fs, Load(store, PosFile)) == Ok(s)
    ensures var o1 := ReadSpec(LogFile, s, 5, fs); var o2 := ReadSpec(LogFile, o1.next, 3, fs);
            RunCase(fs, store) == Ok(Observed(o1.data, o1.err, o2.data, o2.err, o2.next.pos))
  {
    var o2 := ReadSpec(LogFile, ReadSpec(LogFile, s, 5, fs).next, 3, fs);
    LoadAfterSave(store, PosFile, PosFile, o2.next.pos);
  }

  /** The "Roteted" case as a session on a store that holds {11, 6}. */
  method RunRotatedCase() returns (r: Result<Observed>)
    ensures r == Ok(Observed(Bytes("abcdf"), None, Bytes("135"), None, Position(12, 4)))
  {
    var fs := Rotated("-skip-abcd", "f135999");
    var store := new Store(map[PosFile := Some(Position(11, 6))]);
    assert "tmp1" != PosFile by { assert "tmp1"[0] != PosFile[0]; }
    assert ["tmp1"][0] !in store.files;
    r := RunSession(fs, store, ["tmp1"]);
    CaseRotated();
  }
}
