/** The largest source archive: it is accepted and the test image is built from it,
    but the result has one entry too many to be read again. */
module FullArchive {
  import opened ArchiveEdits
  import opened Bytes
  import Elf32Arm
  import opened Hexadecimal
  import opened Newc
  import opened NewcArchive
  import opened NewcRoundTrip
  import opened Symlinks
  import opened Text
  import opened Wrappers

  // A static executable ------------------------------------------------------------

  /** A hard-float EABI5 executable of one header and no program headers. */
  function StaticElf(): (e: seq<byte>)
    ensures |e| == 52
  {
    [0x7f, 0x45, 0x4c, 0x46, 1, 1] + Zeros(12) + [40, 0] + Zeros(16) + [0, 4, 0, 5] + Zeros(2) + [32, 0] + Zeros(8)
  }

  lemma StaticElfBytes(e: seq<byte>)
    requires e == StaticElf()
    ensures |e| == 52 && e[..4] == [0x7f, 0x45, 0x4c, 0x46] && e[4] == e[5] == 1 && e[18] == 40 && e[19] == 0
    ensures e[28] == e[29] == e[30] == e[31] == e[36] == e[38] == 0 && e[37] == 4 && e[39] == 5
    ensures e[42] == 32 && e[43] == e[44] == e[45] == 0
  {
  }

  lemma StaticElfLoads(e: seq<byte>)
    requires e == StaticElf()
    ensures Elf32Arm.Loaded(e) == Ok(Elf32Arm.Elf(e, 40, 0x0500_0400, []))
  {
    hide StaticElf;
    StaticElfBytes(e);
    assert ReadLe16(e, 18) == 40 && ReadLe16(e, 42) == 32 && ReadLe16(e, 44) == 0;
    assert ReadLe32(e, 28) == 0 && ReadLe32(e, 36) == 0x0500_0400;
  }

  lemma StaticElfPasses(e: seq<byte>)
    requires e == StaticElf()
    ensures CheckExecutable(e).None?
  {
    StaticElfLoads(e);
    hide Elf32Arm.Loaded, StaticElf;
    assert Elf32Arm.OfKind([], Elf32Arm.PT_DYNAMIC) == [];
  }

  // 65535 entries ------------------------------------------------------------------

  /** `init`, and then entries named by their numbers in hexadecimal. */
  function EntryName(i: nat): seq<byte> {
    if i == 0 then INIT_NAME else Hex(i, 8)
  }

  function NumberedEntry(i: nat): CpioEntry {
    CpioEntry(EntryName(i), 1, 0x81a4, 0, 0, 1, 0, [], 0, 0, 0, 0)
  }

  function NumberedEntries(n: nat): (entries: seq<CpioEntry>)
    ensures |entries| == n && forall i :: 0 <= i < n ==> entries[i] == NumberedEntry(i)
  {
    seq(n, i requires 0 <= i < n => NumberedEntry(i))
  }

  lemma HexIsPlain(name: seq<byte>)
    requires |name| == 8 && AllHex(name)
    ensures ValidName(name) && Utf8(name)
  {
    assert forall i :: 0 <= i < 8 ==> IsHexDigit(name[i]);
    hide ValidName, Utf8, Split, LookupName;
    SplitWhole(name, SLASH);
    PlainPath(name);
  }

  lemma NamesAreReadable(i: nat)
    ensures Readable(NumberedEntry(i)) && EntryName(i) != STREAMER_NAME
  {
    hide ValidName, Utf8, LookupName, Hex;
    if i == 0 {
      InitPath();
      InitIsText();
    } else {
      HexIsPlain(Hex(i, 8));
    }
  }

  lemma InitIsText()
    ensures Utf8(INIT_NAME) && |INIT_NAME| == 4
  {
    hide Utf8;
    AsciiIsText(INIT_NAME);
  }

  lemma NamesDiffer(i: nat, j: nat)
    requires i < j < U32
    ensures EntryName(i) != EntryName(j)
  {
    hide Hex;
    HexCapacityOf8();
    if i > 0 && Hex(i, 8) == Hex(j, 8) {
      HexRoundTrip(i, 8);
      HexRoundTrip(j, 8);
    }
  }

  lemma NumberedAreReadable(n: nat, entries: seq<CpioEntry>)
    requires entries == NumberedEntries(n)
    ensures AllReadable(entries) && ValidNames(entries)
    ensures forall i :: 0 <= i < n ==> entries[i].name != STREAMER_NAME
  {
    hide ValidName, Utf8, EntryName;
    forall i | 0 <= i < n ensures Readable(entries[i]) && entries[i].name != STREAMER_NAME {
      NamesAreReadable(i);
    }
  }

  lemma NumberedAreDistinct(n: nat, entries: seq<CpioEntry>)
    requires n < U32 && entries == NumberedEntries(n)
    ensures DistinctNames(entries)
  {
    hide EntryName;
    forall i, j | 0 <= i < j < n ensures entries[i].name != entries[j].name {
      NamesDiffer(i, j);
    }
  }

  lemma NumberedAreWritable(n: nat, entries: seq<CpioEntry>)
    requires 0 < n && entries == NumberedEntries(n)
    ensures Writable(entries) && MaxInode(entries) == 1
  {
    hide MaxInode;
    MaxInodeIsGreatest(entries);
    forall i | 0 <= i < n ensures Encodable(entries[i]) {
      assert |entries[i].name| <= 8;
    }
    WritableMeans(entries);
  }

  lemma NumberedAreKeepable(n: nat, entries: seq<CpioEntry>)
    requires entries == NumberedEntries(n)
    ensures AllKeepable(entries)
  {
    hide EntryName;
  }

  lemma NumberedNames(n: nat, entries: seq<CpioEntry>)
    requires 0 < n && entries == NumberedEntries(n)
    ensures INIT_NAME in NameSet(entries) && STREAMER_NAME !in NameSet(entries)
  {
    NumberedAreReadable(n, entries);
    hide AllReadable, ValidNames, Hex;
    assert entries[0].name == INIT_NAME && entries[0] in entries;
  }

  /** The archive of `n` numbered entries. */
  lemma NumberedArchive(n: nat, entries: seq<CpioEntry>) returns (a: Archive)
    requires 0 < n < MAX_ENTRIES && entries == NumberedEntries(n)
    ensures WellFormed(a) && a.entries == entries && Writable(entries) && Parse(ImageBytes(entries)) == Ok(a)
    ensures INIT_NAME in a.byName && STREAMER_NAME !in a.byName
  {
    NumberedAreReadable(n, entries);
    NumberedAreDistinct(n, entries);
    NumberedAreWritable(n, entries);
    NumberedNames(n, entries);
    hide AllReadable, Writable, ValidNames, DistinctNames, Index, NumberedEntries, ImageBytes, Parse, NameSet;
    a := Archive(entries, Index(entries));
    IndexKeys(entries);
    ArchiveRoundTrip(a);
  }

  /** A source of 65535 entries, the most an archive may have, is accepted, and the
      test image is built from it with any start script that fits, but that image is refused: it has one entry more. */
  lemma FullSourceGivesUnreadableImage(source: seq<byte>, entries: seq<CpioEntry>, script: seq<byte>)
    requires Fits(|script|)
    requires entries == NumberedEntries(MAX_ENTRIES - 1) && Writable(entries) && source == ImageBytes(entries)
    ensures Parse(source).Ok? && BuildFftImage(source, StaticElf(), script).Ok?
    ensures Parse(BuildFftImage(source, StaticElf(), script).value).Err?
  {
    var a := NumberedArchive(MAX_ENTRIES - 1, entries);
    NumberedAreWritable(MAX_ENTRIES - 1, entries);
    NumberedAreKeepable(MAX_ENTRIES - 1, entries);
    StaticElfPasses(StaticElf());
    hide Writable, ImageBytes, NumberedEntries, CheckExecutable, MaxInode, BuildFftImage, Parse, StaticElf,
         AllKeepable;
    BuildFftImageIff(source, StaticElf(), script);
    DerivedImageReadsBack(source, StaticElf(), script);
  }

  /** Such a source exists. */
  lemma FullSourceExists(script: seq<byte>) returns (source: seq<byte>)
    requires Fits(|script|)
    ensures Parse(source).Ok? && BuildFftImage(source, StaticElf(), script).Ok?
    ensures Parse(BuildFftImage(source, StaticElf(), script).value).Err?
  {
    hide Writable, ImageBytes, NumberedEntries, BuildFftImage, Parse, StaticElf;
    var entries := NumberedEntries(MAX_ENTRIES - 1);
    NumberedAreWritable(MAX_ENTRIES - 1, entries);
    source := ImageBytes(entries);
    FullSourceGivesUnreadableImage(source, entries, script);
  }
}
