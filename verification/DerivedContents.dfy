/** What the derived test image holds and which executables it takes, told without the
    functions that build it. */
module DerivedContents {
  import opened ArchiveEdits
  import opened Bytes
  import opened Elf32Arm
  import ElfImages
  import opened Newc
  import opened NewcArchive
  import opened NewcRoundTrip
  import opened Text
  import opened Wrappers

  // Modes ------------------------------------------------------------------------------

  lemma HalfOf(v: int, h: int, b: int)
    requires v == 2 * h + b && 0 <= b < 2
    ensures v / 2 == h && (v % 2 == 1 <==> b == 1)
  {
  }

  /** Bit `i` of a number given by its half and its lowest bit. */
  lemma BitOfHalf(v: int, h: int, b: int, i: nat)
    requires v == 2 * h + b && 0 <= b < 2
    ensures Bit(v, i) <==> if i == 0 then b == 1 else Bit(h, i - 1)
  {
    HalfOf(v, h, b);
  }

  /** Executing is allowed to the owner, the group and the others: bits 6, 3 and 0 are set,
      and every other bit is kept. */
  lemma ExecutableBits(mode: int, i: nat)
    ensures Bit(Executable(mode), i) <==> Bit(mode, i) || i == 0 || i == 3 || i == 6
  {
    var (h, c6, c3, c0) := (mode / 128, mode / 64 % 2, mode / 8 % 2, mode % 2);
    var (m6, m4, m3, m1) := (mode / 64, mode / 16, mode / 8, mode / 2);
    var (q, r) := (m4 % 4, m1 % 4);
    ModeParts(mode);
    SevenBits(mode, h, c6, q / 2, q % 2, c3, r / 2, r % 2, c0, i);
    SevenBits(Executable(mode), h, 1, q / 2, q % 2, 1, r / 2, r % 2, 1, i);
  }

  lemma ModeParts(mode: int)
    ensures var (q, r) := (mode / 16 % 4, mode / 2 % 4);
      && mode == 128 * (mode / 128) + 64 * (mode / 64 % 2) + 32 * (q / 2) + 16 * (q % 2) + 8 * (mode / 8 % 2)
                 + 4 * (r / 2) + 2 * (r % 2) + mode % 2
      && Executable(mode) == 128 * (mode / 128) + 64 + 32 * (q / 2) + 16 * (q % 2) + 8 + 4 * (r / 2) + 2 * (r % 2) + 1
  {
    var (q, r) := (mode / 16 % 4, mode / 2 % 4);
    TwoBits(q);
    TwoBits(r);
    ModeQuotients(mode, q, r);
  }

  lemma TwoBits(q: int)
    ensures q == 2 * (q / 2) + q % 2
  {
  }

  lemma ModeQuotients(mode: int, q: int, r: int)
    requires q == mode / 16 % 4 && r == mode / 2 % 4
    ensures mode == 128 * (mode / 128) + 64 * (mode / 64 % 2) + 16 * q + 8 * (mode / 8 % 2) + 2 * r + mode % 2
  {
    Twice(mode);
    Fourfold(mode);
    var (m1, m3, m4, m6) := (mode / 2, mode / 8, mode / 16, mode / 64);
    assert m1 == 4 * (m1 / 4) + r && m3 == 2 * (m3 / 2) + m3 % 2;
    assert m4 == 4 * (m4 / 4) + q && m6 == 2 * (m6 / 2) + m6 % 2;
  }

  lemma Twice(v: int)
    ensures v / 8 / 2 == v / 16 && v / 64 / 2 == v / 128
  {
  }

  lemma Fourfold(v: int)
    ensures v / 2 / 4 == v / 8 && v / 16 / 4 == v / 64
  {
  }

  lemma SevenBits(v: int, h: int, b6: int, b5: int, b4: int, b3: int, b2: int, b1: int, b0: int, i: nat)
    requires v == 128 * h + 64 * b6 + 32 * b5 + 16 * b4 + 8 * b3 + 4 * b2 + 2 * b1 + b0
    requires 0 <= b6 < 2 && 0 <= b5 < 2 && 0 <= b4 < 2 && 0 <= b3 < 2 && 0 <= b2 < 2 && 0 <= b1 < 2 && 0 <= b0 < 2
    ensures Bit(v, i) <==>
            if i >= 7 then Bit(h, i - 7) else [b0, b1, b2, b3, b4, b5, b6][i] == 1
  {
    hide Bit;
    var h6 := 2 * h + b6;
    var h5 := 2 * h6 + b5;
    var h4 := 2 * h5 + b4;
    var h3 := 2 * h4 + b3;
    var h2 := 2 * h3 + b2;
    var h1 := 2 * h2 + b1;
    BitOfHalf(v, h1, b0, i);
    if i >= 1 { BitOfHalf(h1, h2, b1, i - 1); }
    if i >= 2 { BitOfHalf(h2, h3, b2, i - 2); }
    if i >= 3 { BitOfHalf(h3, h4, b3, i - 3); }
    if i >= 4 { BitOfHalf(h4, h5, b4, i - 4); }
    if i >= 5 { BitOfHalf(h5, h6, b5, i - 5); }
    if i >= 6 { BitOfHalf(h6, h, b6, i - 6); }
  }

  // Entries ------------------------------------------------------------------------------

  /** The program as it is added: a regular file of mode 0755 that belongs to the
      superuser, with one link and no time. */
  ghost predicate AddedProgram(e: CpioEntry, executable: seq<byte>) {
    && e.name == [0x75, 0x73, 0x72, 0x2f, 0x62, 0x69, 0x6e, 0x2f]
                 + [0x6e, 0x65, 0x70, 0x74, 0x75, 0x6e, 0x65, 0x2d, 0x66, 0x66, 0x74, 0x2d, 0x73, 0x74, 0x72, 0x65,
                    0x61, 0x6d, 0x65, 0x72]
    && e.mode == 0x81ed && e.uid == e.gid == e.mtime == 0 && e.nlink == 1 && e.data == executable
    && e.devMajor == e.devMinor == e.rdevMajor == e.rdevMinor == 0
  }

  /** The start script takes the place of the old one, and can be executed. */
  ghost predicate ReplacedScript(was: CpioEntry, e: CpioEntry, script: seq<byte>) {
    && e == was.(data := script, mode := e.mode)
    && forall i: nat :: Bit(e.mode, i) <==> Bit(was.mode, i) || i == 0 || i == 3 || i == 6
  }

  /** The inode number after the largest one. */
  ghost predicate NextInode(entries: seq<CpioEntry>, inode: int) {
    && (forall i :: 0 <= i < |entries| ==> entries[i].inode < inode)
    && exists i :: 0 <= i < |entries| && entries[i].inode + 1 == inode
  }

  ghost predicate Derives(was: seq<CpioEntry>, entries: seq<CpioEntry>, executable: seq<byte>, script: seq<byte>) {
    && |entries| == |was| + 1 && (forall i :: 0 <= i < |was| ==> Kept(was[i], entries[i], script))
    && AddedProgram(entries[|was|], executable) && NextInode(was, entries[|was|].inode)
  }

  ghost predicate Kept(was: CpioEntry, e: CpioEntry, script: seq<byte>) {
    if was.name == [0x69, 0x6e, 0x69, 0x74] then ReplacedScript(was, e, script) else e == was
  }

  lemma DerivedIs(a: Archive, executable: seq<byte>, script: seq<byte>)
    requires NewcArchive.WellFormed(a) && INIT_NAME in a.byName
    ensures Derives(a.entries, DerivedEntries(a, executable, script), executable, script)
  {
    hide DerivedEntries, Executable, MaxInode, NewcArchive.WellFormed, ReplacedScript;
    var (n, derived) := (|a.entries|, DerivedEntries(a, executable, script));
    assert INIT_NAME == [0x69, 0x6e, 0x69, 0x74];
    forall i | 0 <= i < n ensures Kept(a.entries[i], derived[i], script) {
      DerivedAt(a, executable, script, i);
      ScriptReplaced(a.entries[i], script);
    }
    DerivedLast(a, executable, script);
    ProgramIs(a.entries, executable);
    LargestInodeFits(a);
    MaxInodeIsGreatest(a.entries);
  }

  lemma ScriptReplaced(e: CpioEntry, script: seq<byte>)
    ensures ReplacedScript(e, e.(data := script, mode := Executable(e.mode)), script)
  {
    hide Executable;
    forall i: nat ensures Bit(Executable(e.mode), i) <==> Bit(e.mode, i) || i == 0 || i == 3 || i == 6 {
      ExecutableBits(e.mode, i);
    }
  }

  lemma ProgramIs(entries: seq<CpioEntry>, executable: seq<byte>)
    ensures AddedProgram(Program(entries, executable), executable)
    ensures Program(entries, executable).inode == MaxInode(entries) + 1
  {
    StreamerNameIs();
    hide MaxInode;
  }

  lemma StreamerNameIs()
    ensures STREAMER_NAME == [0x75, 0x73, 0x72, 0x2f, 0x62, 0x69, 0x6e, 0x2f]
                             + [0x6e, 0x65, 0x70, 0x74, 0x75, 0x6e, 0x65, 0x2d, 0x66, 0x66, 0x74, 0x2d, 0x73, 0x74,
                                0x72, 0x65, 0x61, 0x6d, 0x65, 0x72]
  {
    var path := [0x75, 0x73, 0x72, 0x2f, 0x62, 0x69, 0x6e, 0x2f];
    assert USR + [SLASH] + (BIN + [SLASH]) == path;
    var streamer := STREAMER;
    hide STREAMER;
    assert USR + [SLASH] + (BIN + [SLASH] + streamer) == USR + [SLASH] + (BIN + [SLASH]) + streamer;
  }

  /** Whatever is built and can be read again holds the source's entries with only the
      start script changed, and the program under the next inode number. */
  lemma DerivedImageHolds(source: seq<byte>, executable: seq<byte>, script: seq<byte>)
    requires BuildFftImage(source, executable, script).Ok?
    requires Parse(BuildFftImage(source, executable, script).value).Ok?
    ensures Parse(source).Ok?
    ensures Derives(Parse(source).value.entries, Parse(BuildFftImage(source, executable, script).value).value.entries,
                    executable, script)
  {
    hide BuildFftImage, Derives, DerivedEntries, ParseRecords;
    DerivedImageReadsBack(source, executable, script);
    ParseGuarantees(source);
    ConstructedIff(Parse(source).value.entries);
    DerivedIs(Parse(source).value, executable, script);
  }

  // Executables ----------------------------------------------------------------------------

  /** An executable is taken exactly when it is a hard-float EABI 5 image without an
      interpreter that needs no names. */
  lemma TakenIff(executable: seq<byte>)
    ensures CheckExecutable(executable) == None <==>
            && Loaded(executable).Ok? && executable[39] == 5 && Bit(executable[37], 2) && !Bit(executable[37], 1)
            && ElfImages.NoneOfKind(Loaded(executable).value.headers, 3)
            && ElfImages.Needs(Loaded(executable).value, [])
  {
    hide Loaded, ElfImages.Needs, ElfImages.NoneOfKind, NeededOf, EabiVersion, HardFloat, HasInterpreter, Bit;
    if Loaded(executable).Ok? {
      var e := Loaded(executable).value;
      ElfImages.AbiIs(executable, e);
      ElfImages.InterpreterIff(e);
      ElfImages.NeededIff(e, []);
    }
  }

  /** The images of `ElfImages` are taken exactly when they need nothing. */
  lemma NeedingRefused(names: seq<seq<byte>>)
    requires |ElfImages.NeedingImage(names)| + 0x1_0000 < U32
    requires forall k :: 0 <= k < |names| ==> 0 !in names[k] && Utf8(names[k])
    ensures CheckExecutable(ElfImages.NeedingImage(names)) == if names == [] then None else Some(NotStatic)
  {
    hide Loaded, ElfImages.NeedingImage, NeededOf, EabiVersion, HardFloat, HasInterpreter, Utf8;
    ElfImages.AnyNamesNeeded(names);
  }
}
