/** The functional edits of an archive, and the derived test image that adds the
    FFT streamer to a released root filesystem. */
module ArchiveEdits {
  import opened Bytes
  import Elf32Arm
  import opened Newc
  import opened NewcArchive
  import opened NewcRoundTrip
  import opened Symlinks
  import opened Text
  import opened Wrappers

  // Edits ----------------------------------------------------------------------

  function Substitute(entries: seq<CpioEntry>, name: seq<byte>, replacement: CpioEntry): (r: seq<CpioEntry>)
    ensures |r| == |entries|
    ensures forall i :: 0 <= i < |r| ==> r[i] == if entries[i].name == name then replacement else entries[i]
  {
    seq(|entries|, i requires 0 <= i < |entries| => if entries[i].name == name then replacement else entries[i])
  }

  /** `replaced`: new data and, if given, a new mode for one existing entry. */
  function Replaced(a: Archive, path: seq<byte>, data: seq<byte>, mode: Option<int>): Result<Archive, ArchiveError> {
    match LookupName(path)
    case Err(error) => Err(Lookup(error))
    case Ok(name) =>
      if name !in a.byName then Err(Lookup(Missing))
      else
        var original := a.byName[name];
        var replacement := original.(data := data, mode := if mode.Some? then mode.value else original.mode);
        match NewArchive(Substitute(a.entries, name, replacement))
        case Err(error) => Err(Format(error))
        case Ok(archive) => Ok(archive)
  }

  /** `added`: one entry appended under a new name. */
  function Added(a: Archive, entry: CpioEntry): Result<Archive, ArchiveError> {
    if !ValidName(entry.name) then Err(Format(UnsafeName))
    else if entry.name in a.byName then Err(Format(DuplicateName))
    else
      match NewArchive(a.entries + [entry])
      case Err(error) => Err(Format(error))
      case Ok(archive) => Ok(archive)
  }

  /** The entries with new data and mode under one name, and everything else kept. */
  function Edited(entries: seq<CpioEntry>, name: seq<byte>, data: seq<byte>, mode: Option<int>): (r: seq<CpioEntry>)
    ensures |r| == |entries|
    ensures forall i :: 0 <= i < |r| ==>
      r[i] == if entries[i].name != name then entries[i]
              else entries[i].(data := data, mode := if mode.Some? then mode.value else entries[i].mode)
  {
    seq(|entries|, i requires 0 <= i < |entries| =>
      if entries[i].name != name then entries[i]
      else entries[i].(data := data, mode := if mode.Some? then mode.value else entries[i].mode))
  }

  lemma EditedKeepsNames(entries: seq<CpioEntry>, name: seq<byte>, data: seq<byte>, mode: Option<int>)
    ensures NameSet(Edited(entries, name, data, mode)) == NameSet(entries)
    ensures ValidNames(entries) ==> ValidNames(Edited(entries, name, data, mode))
    ensures DistinctNames(entries) ==> DistinctNames(Edited(entries, name, data, mode))
  {
    SameNames(entries, Edited(entries, name, data, mode));
  }

  lemma SameNames(a: seq<CpioEntry>, b: seq<CpioEntry>)
    requires |a| == |b| && forall i :: 0 <= i < |a| ==> a[i].name == b[i].name
    ensures NameSet(a) == NameSet(b)
  {
    forall n | n in NameSet(a) ensures n in NameSet(b) {
      var e :| e in a && e.name == n;
      var i :| 0 <= i < |a| && a[i] == e;
      assert b[i] in b;
    }
    forall n | n in NameSet(b) ensures n in NameSet(a) {
      var e :| e in b && e.name == n;
      var i :| 0 <= i < |b| && b[i] == e;
      assert a[i] in a;
    }
  }

  lemma IndexedEntry(entries: seq<CpioEntry>, name: seq<byte>) returns (k: nat)
    requires DistinctNames(entries) && name in Index(entries)
    ensures k < |entries| && entries[k].name == name && Index(entries)[name] == entries[k]
    ensures forall i :: 0 <= i < |entries| && entries[i].name == name ==> i == k
  {
    IndexKeys(entries);
    var e :| e in entries && e.name == name;
    k :| 0 <= k < |entries| && entries[k] == e;
    IndexOfDistinct(entries, k);
  }

  lemma SubstituteIsEdited(entries: seq<CpioEntry>, name: seq<byte>, data: seq<byte>, mode: Option<int>)
    requires DistinctNames(entries) && name in Index(entries)
    ensures var original := Index(entries)[name];
      Substitute(entries, name, original.(data := data, mode := if mode.Some? then mode.value else original.mode))
      == Edited(entries, name, data, mode)
  {
    var k := IndexedEntry(entries, name);
  }

  /** Replacing succeeds exactly when the path names an entry, and changes that
      entry's data and mode and nothing else. */
  lemma ReplacedMeaning(a: Archive, path: seq<byte>, data: seq<byte>, mode: Option<int>)
    requires WellFormed(a)
    ensures Replaced(a, path, data, mode).Ok? <==> LookupName(path).Ok? && LookupName(path).value in NameSet(a.entries)
    ensures Replaced(a, path, data, mode).Ok? ==>
      var r := Replaced(a, path, data, mode).value;
      WellFormed(r) && r.entries == Edited(a.entries, LookupName(path).value, data, mode)
  {
    IndexKeys(a.entries);
    if LookupName(path).Ok? && LookupName(path).value in a.byName {
      var name := LookupName(path).value;
      SubstituteIsEdited(a.entries, name, data, mode);
      EditedKeepsNames(a.entries, name, data, mode);
      ConstructedIff(Edited(a.entries, name, data, mode));
    }
  }

  lemma AppendedNames(entries: seq<CpioEntry>, entry: CpioEntry)
    ensures NameSet(entries + [entry]) == NameSet(entries) + {entry.name}
    ensures DistinctNames(entries + [entry]) <==> DistinctNames(entries) && entry.name !in NameSet(entries)
  {
    assert (entries + [entry])[..|entries|] == entries;
    NameSetGrows(entries + [entry], |entries|);
    DistinctGrows(entries + [entry], |entries|);
  }

  /** Adding succeeds exactly on a valid new name, and appends. */
  lemma AddedMeaning(a: Archive, entry: CpioEntry)
    requires WellFormed(a)
    ensures Added(a, entry).Ok? <==> ValidName(entry.name) && entry.name !in NameSet(a.entries)
    ensures Added(a, entry).Ok? ==>
              WellFormed(Added(a, entry).value) && Added(a, entry).value.entries == a.entries + [entry]
  {
    IndexKeys(a.entries);
    AppendedNames(a.entries, entry);
    ConstructedIff(a.entries + [entry]);
  }

  function AddThenReplace(a: Archive, entry: CpioEntry, path: seq<byte>, data: seq<byte>, mode: Option<int>)
    : Result<Archive, ArchiveError>
  {
    var b :- Added(a, entry);
    Replaced(b, path, data, mode)
  }

  function ReplaceThenAdd(a: Archive, entry: CpioEntry, path: seq<byte>, data: seq<byte>, mode: Option<int>)
    : Result<Archive, ArchiveError>
  {
    var b :- Replaced(a, path, data, mode);
    Added(b, entry)
  }

  /** Both edits of different names succeed: a valid new name, and an existing one. */
  predicate EditsApply(a: Archive, entry: CpioEntry, path: seq<byte>) {
    && ValidName(entry.name) && entry.name !in NameSet(a.entries)
    && LookupName(path).Ok? && LookupName(path).value in NameSet(a.entries)
  }

  lemma EditedAppended(entries: seq<CpioEntry>, entry: CpioEntry, name: seq<byte>, data: seq<byte>, mode: Option<int>)
    requires entry.name != name
    ensures Edited(entries + [entry], name, data, mode) == Edited(entries, name, data, mode) + [entry]
  {
  }

  /** Replacing in an archive that already has the added entry. */
  lemma ReplacedAfterAdding(a: Archive, b: Archive, entry: CpioEntry, path: seq<byte>, data: seq<byte>,
                            mode: Option<int>)
    requires WellFormed(b) && b.entries == a.entries + [entry] && LookupName(path) != Ok(entry.name)
    ensures Replaced(b, path, data, mode).Ok? <==> LookupName(path).Ok? && LookupName(path).value in NameSet(a.entries)
    ensures Replaced(b, path, data, mode).Ok? ==>
      var r := Replaced(b, path, data, mode).value;
      WellFormed(r) && r.entries == Edited(a.entries, LookupName(path).value, data, mode) + [entry]
  {
    ReplacedMeaning(b, path, data, mode);
    AppendedNames(a.entries, entry);
    if LookupName(path).Ok? {
      EditedAppended(a.entries, entry, LookupName(path).value, data, mode);
    }
  }

  lemma AddThenReplaceMeaning(a: Archive, entry: CpioEntry, path: seq<byte>, data: seq<byte>, mode: Option<int>)
    requires WellFormed(a) && LookupName(path) != Ok(entry.name)
    ensures AddThenReplace(a, entry, path, data, mode).Ok? <==> EditsApply(a, entry, path)
    ensures EditsApply(a, entry, path) ==>
      var r := AddThenReplace(a, entry, path, data, mode).value;
      WellFormed(r) && r.entries == Edited(a.entries, LookupName(path).value, data, mode) + [entry]
  {
    hide Added, Replaced, WellFormed, ValidName, LookupName, Edited;
    AddedMeaning(a, entry);
    if Added(a, entry).Ok? {
      ReplacedAfterAdding(a, Added(a, entry).value, entry, path, data, mode);
    }
  }

  lemma ReplaceThenAddMeaning(a: Archive, entry: CpioEntry, path: seq<byte>, data: seq<byte>, mode: Option<int>)
    requires WellFormed(a)
    ensures ReplaceThenAdd(a, entry, path, data, mode).Ok? <==> EditsApply(a, entry, path)
    ensures EditsApply(a, entry, path) ==>
      var r := ReplaceThenAdd(a, entry, path, data, mode).value;
      WellFormed(r) && r.entries == Edited(a.entries, LookupName(path).value, data, mode) + [entry]
  {
    hide Added, Replaced, ValidName, LookupName, WellFormed;
    ReplacedMeaning(a, path, data, mode);
    if Replaced(a, path, data, mode).Ok? {
      EditedKeepsNames(a.entries, LookupName(path).value, data, mode);
      AddedMeaning(Replaced(a, path, data, mode).value, entry);
    }
  }

  /** Adding one name and replacing another give the same archive in either order,
      and one order succeeds exactly when the other does. */
  lemma EditsCommute(a: Archive, entry: CpioEntry, path: seq<byte>, data: seq<byte>, mode: Option<int>)
    requires WellFormed(a) && LookupName(path) != Ok(entry.name)
    ensures AddThenReplace(a, entry, path, data, mode).Ok? <==> ReplaceThenAdd(a, entry, path, data, mode).Ok?
    ensures AddThenReplace(a, entry, path, data, mode).Ok? ==>
              AddThenReplace(a, entry, path, data, mode) == ReplaceThenAdd(a, entry, path, data, mode)
  {
    AddThenReplaceMeaning(a, entry, path, data, mode);
    ReplaceThenAddMeaning(a, entry, path, data, mode);
  }

  // The derived image ----------------------------------------------------------

  const USR: seq<byte> := [0x75, 0x73, 0x72]
  const BIN: seq<byte> := [0x62, 0x69, 0x6e]
  const STREAMER: seq<byte> :=
    [0x6e, 0x65, 0x70, 0x74, 0x75, 0x6e, 0x65, 0x2d, 0x66, 0x66, 0x74, 0x2d,
     0x73, 0x74, 0x72, 0x65, 0x61, 0x6d, 0x65, 0x72]
  const STREAMER_NAME: seq<byte> := USR + [SLASH] + (BIN + [SLASH] + STREAMER)
  const INIT_NAME: seq<byte> := [0x69, 0x6e, 0x69, 0x74]
  const PROGRAM_MODE: int := 0x81ed

  datatype BuildError =
    | BadExecutable | NotHardFloat | NotStatic | BadImage(error: NewcError) | AlreadyContains
    | EditFailed(cause: ArchiveError) | CannotWrite

  /** `mode | 0x49`: the three execute bits set, the rest kept. */
  function Executable(mode: int): int {
    mode / 128 * 128 + 64 + mode / 16 % 4 * 16 + 8 + mode / 2 % 4 * 2 + 1
  }

  function Program(entries: seq<CpioEntry>, executable: seq<byte>): CpioEntry {
    CpioEntry(STREAMER_NAME, MaxInode(entries) + 1, PROGRAM_MODE, 0, 0, 1, 0, executable, 0, 0, 0, 0)
  }

  /** The executable must be a static ARM EABI5 hard-float ELF. */
  function CheckExecutable(executable: seq<byte>): Option<BuildError> {
    match Elf32Arm.Loaded(executable)
    case Err(_) => Some(BadExecutable)
    case Ok(elf) =>
      if Elf32Arm.EabiVersion(elf) != 5 || !Elf32Arm.HardFloat(elf) then Some(NotHardFloat)
      else if Elf32Arm.HasInterpreter(elf) then Some(NotStatic)
      else
        match Elf32Arm.NeededOf(elf)
        case Err(_) => Some(BadExecutable)
        case Ok(names) => if names != [] then Some(NotStatic) else None
  }

  /** The edits to a source archive, before writing. */
  function EditForFft(a: Archive, executable: seq<byte>, script: seq<byte>): Result<Archive, BuildError> {
    if Contains(a, STREAMER_NAME) then Err(AlreadyContains)
    else
      match EntryAt(a, INIT_NAME)
      case Err(error) => Err(EditFailed(Lookup(error)))
      case Ok(init) =>
        var mode := Some(Executable(init.mode));
        match AddThenReplace(a, Program(a.entries, executable), INIT_NAME, script, mode)
        case Err(error) => Err(EditFailed(error))
        case Ok(edited) => Ok(edited)
  }

  /** Editing and writing an archive. */
  function DerivedImage(a: Archive, executable: seq<byte>, script: seq<byte>): Result<seq<byte>, BuildError> {
    var edited :- EditForFft(a, executable, script);
    if Writable(edited.entries) then Ok(ImageBytes(edited.entries)) else Err(CannotWrite)
  }

  /** The derived image: source and result are the inflated archives. */
  function BuildFftImage(source: seq<byte>, executable: seq<byte>, script: seq<byte>): Result<seq<byte>, BuildError> {
    match CheckExecutable(executable)
    case Some(error) => Err(error)
    case None =>
      match Parse(source)
      case Err(error) => Err(BadImage(error))
      case Ok(a) => DerivedImage(a, executable, script)
  }

  /** The entries of the derived image: `init` with the new script and execute bits,
      every other source entry as it was, and the program at the end. */
  function DerivedEntries(a: Archive, executable: seq<byte>, script: seq<byte>): (r: seq<CpioEntry>)
    requires INIT_NAME in a.byName
    ensures |r| == |a.entries| + 1
  {
    Edited(a.entries, INIT_NAME, script, Some(Executable(a.byName[INIT_NAME].mode))) + [Program(a.entries, executable)]
  }

  lemma ThreeParts(name: seq<byte>, a: seq<byte>, b: seq<byte>, c: seq<byte>)
    requires name == a + [SLASH] + (b + [SLASH] + c) && SLASH !in a && SLASH !in b && SLASH !in c
    ensures Split(name, SLASH) == [a, b, c]
  {
    SplitWhole(c, SLASH);
    SplitAtSeparator(b, c, SLASH);
    SplitAtSeparator(a, b + [SLASH] + c, SLASH);
  }

  predicate PlainBytes(s: seq<byte>) {
    s != [] && forall i :: 0 <= i < |s| ==> 0x2d <= s[i] < 0x7b && s[i] != DOT && s[i] != BACKSLASH
  }

  predicate PlainPart(p: seq<byte>) {
    PlainBytes(p) && SLASH !in p
  }

  /** A path of plain parts is safe and stands for itself. */
  lemma PlainPath(name: seq<byte>)
    requires name != [] && name[0] != SLASH && PlainBytes(name) && forall p :: p in Split(name, SLASH) ==> PlainPart(p)
    ensures ValidName(name) && LookupName(name) == Ok(name) && Utf8(name)
  {
    AsciiIsText(name);
    forall p | p in Split(name, SLASH) ensures p != [DOT] && p != [DOT, DOT] {
      assert PlainPart(p);
    }
  }

  lemma ThreePlainParts(name: seq<byte>, a: seq<byte>, b: seq<byte>, c: seq<byte>)
    requires name == a + [SLASH] + (b + [SLASH] + c) && PlainPart(a) && PlainPart(b) && PlainPart(c)
    ensures ValidName(name) && LookupName(name) == Ok(name) && Utf8(name)
  {
    ThreeParts(name, a, b, c);
    PlainPath(name);
  }

  lemma InitPath()
    ensures ValidName(INIT_NAME) && LookupName(INIT_NAME) == Ok(INIT_NAME)
  {
    SplitWhole(INIT_NAME, SLASH);
    PlainPath(INIT_NAME);
  }

  lemma StreamerPath()
    ensures ValidName(STREAMER_NAME) && LookupName(STREAMER_NAME) == Ok(STREAMER_NAME) && Utf8(STREAMER_NAME)
  {
    ThreePlainParts(STREAMER_NAME, USR, BIN, STREAMER);
  }

  lemma ContainsMeansPresent(a: Archive, name: seq<byte>)
    requires LookupName(name) == Ok(name) && name !in a.byName
    ensures !Contains(a, name)
  {
    assert HopFrom(a, name) == Hops(a)(name);
  }

  /** The edits apply exactly when there is an `init` entry and no streamer entry,
      even one that is a dangling link. */
  lemma EditForFftMeaning(a: Archive, executable: seq<byte>, script: seq<byte>)
    requires WellFormed(a)
    ensures EditForFft(a, executable, script).Ok? <==>
              INIT_NAME in a.byName && STREAMER_NAME !in a.byName
    ensures EditForFft(a, executable, script).Ok? ==>
      var r := EditForFft(a, executable, script).value;
      WellFormed(r) && r.entries == DerivedEntries(a, executable, script)
  {
    InitPath();
    StreamerPath();
    IndexKeys(a.entries);
    if STREAMER_NAME !in a.byName {
      ContainsMeansPresent(a, STREAMER_NAME);
    }
    if INIT_NAME in a.byName {
      var mode := Some(Executable(a.byName[INIT_NAME].mode));
      AddThenReplaceMeaning(a, Program(a.entries, executable), INIT_NAME, script, mode);
    }
  }

  /** The largest inode after the edits is the program's, and no source entry has it. */
  lemma ProgramInodeIsFresh(a: Archive, executable: seq<byte>, script: seq<byte>)
    requires INIT_NAME in a.byName && a.entries != []
    ensures MaxInode(DerivedEntries(a, executable, script)) == Program(a.entries, executable).inode
    ensures forall i :: 0 <= i < |a.entries| ==> a.entries[i].inode < Program(a.entries, executable).inode
  {
    var derived := DerivedEntries(a, executable, script);
    var edited := derived[..|a.entries|];
    MaxInodeIsGreatest(a.entries);
    MaxInodeIsGreatest(edited);
    var top :| 0 <= top < |edited| && edited[top].inode == MaxInode(edited);
    assert edited[top].inode == a.entries[top].inode;
  }

  /** The execute bits leave the sign alone. */
  lemma ExecutableFits(mode: int)
    requires mode < U32
    ensures Executable(mode) < U32 && (Fits(Executable(mode)) <==> 0 <= mode)
  {
  }

  /** What the derived image needs of a source entry: no negative field and, unless it
      is `init`, whose data is replaced, a payload of 32-bit size. */
  predicate Keepable(e: CpioEntry) {
    NonNegative(e) && (e.name != INIT_NAME ==> Fits(|e.data|))
  }

  predicate AllKeepable(entries: seq<CpioEntry>) {
    forall i :: 0 <= i < |entries| ==> Keepable(entries[i])
  }

  lemma EditedEncodable(e: CpioEntry, script: seq<byte>, edited: CpioEntry)
    requires WellRead(e)
    requires edited == if e.name != INIT_NAME then e else e.(data := script, mode := Executable(e.mode))
    ensures Encodable(edited) <==> Keepable(e) && (e.name == INIT_NAME ==> Fits(|script|))
  {
    hide Utf8, Executable;
    ExecutableFits(e.mode);
    EncodableIff(edited);
  }

  lemma ProgramEncodable(entries: seq<CpioEntry>, executable: seq<byte>)
    ensures Encodable(Program(entries, executable)) <==> Fits(|executable|) && Fits(MaxInode(entries) + 1)
  {
    hide MaxInode;
    assert |STREAMER_NAME| == 28;
  }

  lemma DerivedEncodable(a: Archive, executable: seq<byte>, script: seq<byte>)
    requires WellFormed(a) && INIT_NAME in a.byName && AllWellRead(a.entries)
    ensures AllEncodable(DerivedEntries(a, executable, script)) <==>
              && AllKeepable(a.entries) && Fits(|script|) && Fits(|executable|) && Fits(MaxInode(a.entries) + 1)
  {
    hide Encodable, Keepable, WellRead, Program, MaxInode, AllEncodable, AllKeepable, Executable, Fits, DerivedEntries;
    var (derived, n) := (DerivedEntries(a, executable, script), |a.entries|);
    var k := IndexedEntry(a.entries, INIT_NAME);
    ProgramEncodable(a.entries, executable);
    forall i | 0 <= i < n
      ensures Encodable(derived[i]) <==> Keepable(a.entries[i]) && (i == k ==> Fits(|script|))
    {
      DerivedAt(a, executable, script, i);
      EditedEncodable(a.entries[i], script, derived[i]);
    }
    DerivedLast(a, executable, script);
    AllEncodableIff(a.entries, derived, k, script);
  }

  lemma DerivedAt(a: Archive, executable: seq<byte>, script: seq<byte>, i: nat)
    requires WellFormed(a) && INIT_NAME in a.byName && i < |a.entries|
    ensures var e := a.entries[i];
      DerivedEntries(a, executable, script)[i] ==
      if e.name != INIT_NAME then e else e.(data := script, mode := Executable(e.mode))
  {
    hide Executable, Program;
    var k := IndexedEntry(a.entries, INIT_NAME);
  }

  lemma DerivedLast(a: Archive, executable: seq<byte>, script: seq<byte>)
    requires INIT_NAME in a.byName
    ensures DerivedEntries(a, executable, script)[|a.entries|] == Program(a.entries, executable)
  {
    hide Executable, Program;
  }

  lemma AllEncodableIff(entries: seq<CpioEntry>, derived: seq<CpioEntry>, k: nat, script: seq<byte>)
    requires k < |entries| && |derived| == |entries| + 1
    requires forall i :: 0 <= i < |entries| ==>
               (Encodable(derived[i]) <==> Keepable(entries[i]) && (i == k ==> Fits(|script|)))
    ensures AllEncodable(derived) <==> AllKeepable(entries) && Fits(|script|) && Encodable(derived[|entries|])
  {
    hide Encodable, Keepable, Fits;
    if AllEncodable(derived) {
      assert Encodable(derived[k]) && Encodable(derived[|entries|]);
      forall i | 0 <= i < |entries| ensures Keepable(entries[i]) {
        assert Encodable(derived[i]);
      }
    }
  }

  lemma DerivedReadable(a: Archive, executable: seq<byte>, script: seq<byte>)
    requires INIT_NAME in a.byName && AllReadable(a.entries)
    ensures AllReadable(DerivedEntries(a, executable, script))
  {
    StreamerPath();
    var (derived, n) := (DerivedEntries(a, executable, script), |a.entries|);
    assert derived[n].name == STREAMER_NAME && STREAMER_NAME[0] != TRAILER[0];
    forall i | 0 <= i < |derived| ensures Readable(derived[i]) {
      assert i < n ==> derived[i].name == a.entries[i].name && Readable(a.entries[i]);
    }
  }

  lemma WritableMeans(entries: seq<CpioEntry>)
    ensures Writable(entries) <==> AllEncodable(entries) && Fits(MaxInode(entries) + 1)
  {
    TrailerFits(MaxInode(entries) + 1);
  }

  lemma LargestInodeFits(a: Archive)
    requires WellFormed(a) && INIT_NAME in a.byName
    ensures a.entries != [] && (AllKeepable(a.entries) ==> MaxInode(a.entries) >= 0)
  {
    var k := IndexedEntry(a.entries, INIT_NAME);
    hide MaxInode;
    MaxInodeIsGreatest(a.entries);
    if AllKeepable(a.entries) {
      assert Keepable(a.entries[k]);
    }
  }

  lemma DerivedWritable(a: Archive, executable: seq<byte>, script: seq<byte>)
    requires WellFormed(a) && INIT_NAME in a.byName && AllWellRead(a.entries)
    ensures Writable(DerivedEntries(a, executable, script)) <==>
              AllKeepable(a.entries) && MaxInode(a.entries) + 2 < U32 && Fits(|executable|) && Fits(|script|)
  {
    hide DerivedEntries, AllEncodable, Writable, MaxInode, WellFormed, AllKeepable, AllWellRead;
    LargestInodeFits(a);
    ProgramInodeIsFresh(a, executable, script);
    DerivedEncodable(a, executable, script);
    WritableMeans(DerivedEntries(a, executable, script));
  }

  /** Building succeeds exactly when there is an `init` entry, no streamer entry, room
      for two more inode numbers, everything kept can be written, and both payloads fit
      their size field. */
  lemma DerivedImageIff(a: Archive, executable: seq<byte>, script: seq<byte>)
    requires WellFormed(a) && AllWellRead(a.entries)
    ensures DerivedImage(a, executable, script).Ok? <==>
            && INIT_NAME in a.byName && STREAMER_NAME !in a.byName && AllKeepable(a.entries)
            && MaxInode(a.entries) + 2 < U32 && Fits(|executable|) && Fits(|script|)
    ensures DerivedImage(a, executable, script).Ok? ==>
              && Writable(DerivedEntries(a, executable, script))
              && DerivedImage(a, executable, script).value == ImageBytes(DerivedEntries(a, executable, script))
  {
    hide AllKeepable, AllWellRead, Writable, DerivedEntries, WellFormed, ImageBytes;
    EditForFftMeaning(a, executable, script);
    if EditForFft(a, executable, script).Ok? {
      DerivedWritable(a, executable, script);
    }
  }

  /** Reading the derived image back gives the source's entries in order, with only
      the data and mode of `init` changed, and one more whose inode none of them has.
      It can be read back exactly when the source had room for that entry. */
  lemma DerivedImageReadsBack(source: seq<byte>, executable: seq<byte>, script: seq<byte>)
    requires BuildFftImage(source, executable, script).Ok?
    ensures Parse(source).Ok? && INIT_NAME in Parse(source).value.byName
    ensures var a := Parse(source).value;
      var result := Parse(BuildFftImage(source, executable, script).value);
      && (result.Ok? <==> |a.entries| + 1 < MAX_ENTRIES)
      && (result.Ok? ==> result.value.entries == DerivedEntries(a, executable, script))
      && (forall i :: 0 <= i < |a.entries| ==> a.entries[i].inode != Program(a.entries, executable).inode)
  {
    hide CheckExecutable, ParseRecords, EditForFft, DerivedEntries, AllEncodable, AllReadable, ImageBytes, Writable;
    var a := Parse(source).value;
    ParseGuarantees(source);
    ConstructedIff(a.entries);
    DerivedImageIff(a, executable, script);
    EditForFftMeaning(a, executable, script);
    DerivedReadable(a, executable, script);
    var k := IndexedEntry(a.entries, INIT_NAME);
    ProgramInodeIsFresh(a, executable, script);
    var edited := EditForFft(a, executable, script).value;
    ArchiveRoundTrip(edited);
  }

  /** The build succeeds exactly when the executable passes, the source parses, and
      the edited archive can be written. */
  lemma BuildFftImageIff(source: seq<byte>, executable: seq<byte>, script: seq<byte>)
    ensures BuildFftImage(source, executable, script).Ok? <==>
            && CheckExecutable(executable).None? && Parse(source).Ok?
            && INIT_NAME in Parse(source).value.byName && STREAMER_NAME !in Parse(source).value.byName
            && AllKeepable(Parse(source).value.entries)
            && MaxInode(Parse(source).value.entries) + 2 < U32 && Fits(|executable|) && Fits(|script|)
  {
    hide AllKeepable, AllWellRead, CheckExecutable, DerivedImage, MaxInode, AllReadable;
    if Parse(source).Ok? {
      var a := Parse(source).value;
      ParseGuarantees(source);
      ConstructedIff(a.entries);
      DerivedImageIff(a, executable, script);
    }
  }
}
