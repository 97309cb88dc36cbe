/** The minimal ARM ELF reader: program headers, the file mapping of virtual
    addresses, and the needed libraries of the dynamic table (chapter 5, Dynamic
    Section, of the System V gABI). */
module Elf32Arm {
  import opened Bytes
  import opened Text
  import opened Wrappers

  const EM_ARM: nat := 40
  const PT_LOAD: nat := 1
  const PT_DYNAMIC: nat := 2
  const PT_INTERP: nat := 3
  const DT_NULL: nat := 0
  const DT_NEEDED: nat := 1
  const DT_STRTAB: nat := 5
  const DT_STRSZ: nat := 10

  datatype ProgramHeader = ProgramHeader(
    kind: nat, offset: nat, virtualAddress: nat, fileSize: nat, memorySize: nat)

  datatype Elf = Elf(data: seq<byte>, machine: nat, flags: nat, headers: seq<ProgramHeader>)

  datatype ElfError =
    | NotElf | WrongClass | WrongMachine | BadProgramHeaders | TruncatedSegment | MalformedDynamic
    | NoStringTable | Unmapped | BadNameOffset | UnterminatedName | NotUtf8 | ManyInterpreters

  // Loading --------------------------------------------------------------------

  function HeaderAt(data: seq<byte>, at: nat): ProgramHeader
    requires at + 32 <= |data|
  {
    ProgramHeader(ReadLe32(data, at), ReadLe32(data, at + 4), ReadLe32(data, at + 8),
                  ReadLe32(data, at + 16), ReadLe32(data, at + 20))
  }

  predicate InFile(data: seq<byte>, h: ProgramHeader) {
    h.offset + h.fileSize <= |data|
  }

  ghost predicate WellFormed(e: Elf) {
    forall i :: 0 <= i < |e.headers| ==> InFile(e.data, e.headers[i])
  }

  /** The identification and table checks, in order. */
  function CheckIdentity(data: seq<byte>): Option<ElfError> {
    if |data| < 52 || data[..4] != [0x7f, 0x45, 0x4c, 0x46] then Some(NotElf)
    else if data[4] != 1 || data[5] != 1 then Some(WrongClass)
    else if ReadLe16(data, 18) != EM_ARM then Some(WrongMachine)
    else if ReadLe16(data, 42) < 32 || ReadLe16(data, 44) > 256
         || ReadLe32(data, 28) + ReadLe16(data, 42) * ReadLe16(data, 44) > |data| then Some(BadProgramHeaders)
    else None
  }

  lemma EntryInTable(index: nat, count: nat, size: nat)
    requires index < count
    ensures index * size + size <= size * count
  {
    assert (index + 1) * size <= count * size;
  }

  /** A header table of `count` entries of `size` bytes lies inside the file. */
  predicate TableInFile(data: seq<byte>, at: nat, size: nat, count: nat) {
    32 <= size && at + size * count <= |data|
  }

  /** The first `n` program headers, or the first segment that leaves the file. */
  function Headers(data: seq<byte>, at: nat, size: nat, count: nat, n: nat): (r: Result<seq<ProgramHeader>, ElfError>)
    requires TableInFile(data, at, size, count) && n <= count
    ensures r.Ok? ==> |r.value| == n && forall i :: 0 <= i < n ==> InFile(data, r.value[i])
  {
    if n == 0 then Ok([])
    else
      var before :- Headers(data, at, size, count, n - 1);
      EntryInTable(n - 1, count, size);
      var h := HeaderAt(data, at + (n - 1) * size);
      if InFile(data, h) then Ok(before + [h]) else Err(TruncatedSegment)
  }

  function Loaded(data: seq<byte>): (r: Result<Elf, ElfError>)
    ensures r.Ok? ==> r.value.data == data && WellFormed(r.value)
  {
    match CheckIdentity(data)
    case Some(error) => Err(error)
    case None =>
      var (phoff, phentsize, phnum) := (ReadLe32(data, 28), ReadLe16(data, 42), ReadLe16(data, 44));
      var headers :- Headers(data, phoff, phentsize, phnum, phnum);
      Ok(Elf(data, ReadLe16(data, 18), ReadLe32(data, 36), headers))
  }

  lemma {:induction false} HeadersFailEarly(data: seq<byte>, at: nat, size: nat, count: nat, m: nat, n: nat)
    requires TableInFile(data, at, size, count) && m <= n <= count && Headers(data, at, size, count, m).Err?
    ensures Headers(data, at, size, count, n) == Headers(data, at, size, count, m)
    decreases n
  {
    hide HeaderAt;
    if m < n {
      HeadersFailEarly(data, at, size, count, m, n - 1);
    }
  }

  /** The loop over the table. */
  method ReadHeaders(data: seq<byte>, at: nat, size: nat, count: nat)
    returns (result: Result<seq<ProgramHeader>, ElfError>)
    requires TableInFile(data, at, size, count)
    ensures result == Headers(data, at, size, count, count)
  {
    hide HeaderAt, TableInFile;
    var headers: seq<ProgramHeader> := [];
    var index := 0;
    while index < count
      invariant 0 <= index <= count
      invariant Headers(data, at, size, count, index) == Ok(headers)
    {
      HeaderInside(data, at, size, count, index);
      var h := HeaderAt(data, at + index * size);
      if h.offset + h.fileSize > |data| {
        assert Headers(data, at, size, count, index + 1) == Err(TruncatedSegment);
        HeadersFailEarly(data, at, size, count, index + 1, count);
        return Err(TruncatedSegment);
      }
      headers := headers + [h];
      index := index + 1;
    }
    return Ok(headers);
  }

  lemma HeaderInside(data: seq<byte>, at: nat, size: nat, count: nat, index: nat)
    requires TableInFile(data, at, size, count) && index < count
    ensures at + index * size + 32 <= |data|
  {
    EntryInTable(index, count, size);
  }

  method Load(data: seq<byte>) returns (result: Result<Elf, ElfError>)
    ensures result == Loaded(data)
  {
    var problem := CheckIdentity(data);
    if problem.Some? {
      return Err(problem.value);
    }
    var (phoff, phentsize, phnum) := (ReadLe32(data, 28), ReadLe16(data, 42), ReadLe16(data, 44));
    var headers := ReadHeaders(data, phoff, phentsize, phnum);
    if headers.Err? {
      return Err(headers.error);
    }
    return Ok(Elf(data, ReadLe16(data, 18), ReadLe32(data, 36), headers.value));
  }

  // ABI queries ----------------------------------------------------------------

  function EabiVersion(e: Elf): nat {
    e.flags / 0x100_0000 % 0x100
  }

  predicate HardFloat(e: Elf) {
    e.flags / 0x400 % 2 == 1 && e.flags / 0x200 % 2 == 0
  }

  function OfKind(headers: seq<ProgramHeader>, kind: nat): (r: seq<ProgramHeader>)
    ensures forall h :: h in r <==> h in headers && h.kind == kind
  {
    if headers == [] then []
    else (if headers[0].kind == kind then [headers[0]] else []) + OfKind(headers[1..], kind)
  }

  predicate HasInterpreter(e: Elf) {
    OfKind(e.headers, PT_INTERP) != []
  }

  // Virtual addresses ----------------------------------------------------------

  predicate Maps(h: ProgramHeader, address: nat, length: nat) {
    h.kind == PT_LOAD && h.virtualAddress <= address && address - h.virtualAddress + length <= h.fileSize
  }

  /** The first PT_LOAD segment whose file part holds the whole range. */
  method VirtualToOffset(e: Elf, address: nat, length: nat) returns (r: Result<nat, ElfError>)
    ensures r == Mapped(e.headers, address, length)
  {
    var i := 0;
    while i < |e.headers|
      invariant 0 <= i <= |e.headers|
      invariant Mapped(e.headers[i..], address, length) == Mapped(e.headers, address, length)
    {
      assert e.headers[i..][1..] == e.headers[i + 1..];
      if Maps(e.headers[i], address, length) {
        return Ok(e.headers[i].offset + (address - e.headers[i].virtualAddress));
      }
      i := i + 1;
    }
    return Err(Unmapped);
  }

  function Mapped(headers: seq<ProgramHeader>, address: nat, length: nat): Result<nat, ElfError> {
    if headers == [] then Err(Unmapped)
    else if Maps(headers[0], address, length) then
      Ok(headers[0].offset + (address - headers[0].virtualAddress))
    else Mapped(headers[1..], address, length)
  }

  /** Segment `k` holds the range, and no segment before it does. */
  ghost predicate FirstMapping(headers: seq<ProgramHeader>, address: nat, length: nat, k: nat) {
    k < |headers| && Maps(headers[k], address, length)
    && forall i :: 0 <= i < k ==> !Maps(headers[i], address, length)
  }

  /** Mapping succeeds exactly when some segment holds the range, and then gives the
      place of the range in the file part of the first such segment. */
  lemma {:induction false} MappedIff(headers: seq<ProgramHeader>, address: nat, length: nat)
    ensures Mapped(headers, address, length).Ok? <==> exists k: nat :: FirstMapping(headers, address, length, k)
    ensures Mapped(headers, address, length).Err? <==>
              forall i :: 0 <= i < |headers| ==> !Maps(headers[i], address, length)
    ensures forall k: nat :: FirstMapping(headers, address, length, k) ==>
      Mapped(headers, address, length) == Ok(headers[k].offset + (address - headers[k].virtualAddress))
    decreases |headers|
  {
    hide Maps, FirstMapping;
    if headers == [] {
      forall k: nat ensures !FirstMapping(headers, address, length, k) {
        FirstMaps(headers, address, length, k);
      }
    } else {
      var tail := headers[1..];
      MappedIff(tail, address, length);
      assert forall i :: 0 < i < |headers| ==> headers[i] == tail[i - 1];
      forall k: nat | FirstMapping(headers, address, length, k)
        ensures k < |headers| && headers[k].virtualAddress <= address
        ensures Mapped(headers, address, length) == Ok(headers[k].offset + (address - headers[k].virtualAddress))
      {
        FirstMaps(headers, address, length, k);
        if k > 0 {
          FirstInTail(headers, address, length, k - 1);
        }
      }
      if Maps(headers[0], address, length) {
        FirstAtFront(headers, address, length);
      } else if Mapped(tail, address, length).Ok? {
        var k: nat :| FirstMapping(tail, address, length, k);
        FirstInTail(headers, address, length, k);
      }
    }
  }

  lemma FirstMaps(headers: seq<ProgramHeader>, address: nat, length: nat, k: nat)
    ensures FirstMapping(headers, address, length, k) ==>
              k < |headers| && Maps(headers[k], address, length) && headers[k].virtualAddress <= address
  {
  }

  lemma FirstAtFront(headers: seq<ProgramHeader>, address: nat, length: nat)
    requires headers != [] && Maps(headers[0], address, length)
    ensures FirstMapping(headers, address, length, 0)
  {
  }

  lemma FirstInTail(headers: seq<ProgramHeader>, address: nat, length: nat, k: nat)
    requires headers != []
    ensures FirstMapping(headers[1..], address, length, k) && !Maps(headers[0], address, length)
       <==> FirstMapping(headers, address, length, k + 1)
  {
    hide Maps;
    assert forall i :: 0 < i < |headers| ==> headers[i] == headers[1..][i - 1];
  }

  // The dynamic table ----------------------------------------------------------

  datatype Dynamic = Dynamic(tag: nat, value: nat)

  function EntryAt(data: seq<byte>, start: nat, k: nat): Dynamic
    requires start + 8 * k + 8 <= |data|
  {
    Dynamic(ReadLe32(data, start + 8 * k), ReadLe32(data, start + 8 * k + 4))
  }

  function Table(data: seq<byte>, h: ProgramHeader): (t: seq<Dynamic>)
    requires InFile(data, h) && h.fileSize % 8 == 0
    ensures |t| == h.fileSize / 8
  {
    seq(h.fileSize / 8, k requires 0 <= k < h.fileSize / 8 => EntryAt(data, h.offset, k))
  }

  /** The entries before the first DT_NULL. */
  function Live(t: seq<Dynamic>): (live: seq<Dynamic>)
    ensures live <= t
    ensures forall d :: d in live ==> d.tag != DT_NULL
    ensures |live| < |t| ==> t[|live|].tag == DT_NULL
  {
    if t == [] || t[0].tag == DT_NULL then [] else [t[0]] + Live(t[1..])
  }

  /** The values of a tag, in order. */
  function Values(t: seq<Dynamic>, tag: nat): seq<nat> {
    if t == [] then []
    else
      var n := |t| - 1;
      Values(t[..n], tag) + if t[n].tag == tag then [t[n].value] else []
  }

  function LastValue(t: seq<Dynamic>, tag: nat): Option<nat> {
    var v := Values(t, tag);
    if v == [] then None else Some(v[|v| - 1])
  }

  lemma NoValues(t: seq<Dynamic>)
    ensures forall tag: nat :: Values(t[..0], tag) == [] && LastValue(t[..0], tag) == None
  {
  }

  lemma OneMoreValue(t: seq<Dynamic>, k: nat, tag: nat)
    requires k < |t|
    ensures Values(t[..k + 1], tag) == Values(t[..k], tag) + (if t[k].tag == tag then [t[k].value] else [])
    ensures LastValue(t[..k + 1], tag) == if t[k].tag == tag then Some(t[k].value) else LastValue(t[..k], tag)
  {
    assert t[..k + 1][..k] == t[..k];
  }

  method ScanTable(data: seq<byte>, h: ProgramHeader)
    returns (needed: seq<nat>, strtab: Option<nat>, strsz: Option<nat>)
    requires InFile(data, h) && h.fileSize % 8 == 0
    ensures var live := Live(Table(data, h));
      needed == Values(live, DT_NEEDED) && strtab == LastValue(live, DT_STRTAB) && strsz == LastValue(live, DT_STRSZ)
  {
    hide Values, LastValue, ReadLe32, Live;
    ghost var t := Table(data, h);
    needed, strtab, strsz := [], None, None;
    NoValues(t);
    var offset := h.offset;
    ghost var k := 0;
    while offset < h.offset + h.fileSize
      invariant 0 <= k <= |t| && offset == h.offset + 8 * k
      invariant forall i :: 0 <= i < k ==> t[i].tag != DT_NULL
      invariant needed == Values(t[..k], DT_NEEDED)
      invariant strtab == LastValue(t[..k], DT_STRTAB)
      invariant strsz == LastValue(t[..k], DT_STRSZ)
    {
      var tag := ReadLe32(data, offset);
      var value := ReadLe32(data, offset + 4);
      assert t[k] == Dynamic(tag, value);
      if tag == DT_NULL {
        break;
      }
      OneMoreValue(t, k, DT_NEEDED);
      OneMoreValue(t, k, DT_STRTAB);
      OneMoreValue(t, k, DT_STRSZ);
      if tag == DT_NEEDED {
        needed := needed + [value];
      } else if tag == DT_STRTAB {
        strtab := Some(value);
      } else if tag == DT_STRSZ {
        strsz := Some(value);
      }
      offset := offset + 8;
      k := k + 1;
    }
    LiveIs(t, k);
  }

  lemma {:induction false} LiveIs(t: seq<Dynamic>, k: nat)
    requires k <= |t| && forall i :: 0 <= i < k ==> t[i].tag != DT_NULL
    requires k < |t| ==> t[k].tag == DT_NULL
    ensures Live(t) == t[..k]
    decreases |t|
  {
    if k > 0 {
      LiveIs(t[1..], k - 1);
      assert t[..k] == [t[0]] + t[1..][..k - 1];
    }
  }

  // Names ----------------------------------------------------------------------

  function NameAt(table: seq<byte>, offset: nat): Result<seq<byte>, ElfError> {
    if offset >= |table| then Err(BadNameOffset)
    else
      match FindNul(table, offset)
      case None => Err(UnterminatedName)
      case Some(end) => if Utf8(table[offset..end]) then Ok(table[offset..end]) else Err(NotUtf8)
  }

  function NamesAt(table: seq<byte>, offsets: seq<nat>): (r: Result<seq<seq<byte>>, ElfError>)
    ensures r.Ok? ==> |r.value| == |offsets|
  {
    if offsets == [] then Ok([])
    else
      var first :- NameAt(table, offsets[0]);
      var rest :- NamesAt(table, offsets[1..]);
      Ok([first] + rest)
  }

  /** The libraries an image needs. */
  function NeededOf(e: Elf): Result<seq<seq<byte>>, ElfError>
    requires WellFormed(e)
  {
    var dynamic := OfKind(e.headers, PT_DYNAMIC);
    if dynamic == [] then Ok([])
    else if |dynamic| != 1 || dynamic[0].fileSize % 8 != 0 then Err(MalformedDynamic)
    else
      assert dynamic[0] in e.headers;
      var live := Live(Table(e.data, dynamic[0]));
      NeededNames(e, Values(live, DT_NEEDED), LastValue(live, DT_STRTAB), LastValue(live, DT_STRSZ))
  }

  function NeededNames(e: Elf, needed: seq<nat>, strtab: Option<nat>, strsz: Option<nat>)
    : Result<seq<seq<byte>>, ElfError>
    requires WellFormed(e)
  {
    if strtab.None? || strsz.None? then
      if needed == [] then Ok([]) else Err(NoStringTable)
    else
      var start :- Mapped(e.headers, strtab.value, strsz.value);
      MappedInFile(e, strtab.value, strsz.value);
      NamesAt(e.data[start..start + strsz.value], needed)
  }

  lemma MappedInFile(e: Elf, address: nat, length: nat)
    requires WellFormed(e) && Mapped(e.headers, address, length).Ok?
    ensures Mapped(e.headers, address, length).value + length <= |e.data|
  {
    MappedIff(e.headers, address, length);
  }

  method ReadNames(table: seq<byte>, needed: seq<nat>) returns (result: Result<seq<seq<byte>>, ElfError>)
    ensures result == NamesAt(table, needed)
  {
    var names: seq<seq<byte>> := [];
    var i := 0;
    ghost var all := NamesAt(table, needed);
    assert needed[0..] == needed && (all.Ok? ==> [] + all.value == all.value);
    while i < |needed|
      invariant 0 <= i <= |needed|
      invariant match NamesAt(table, needed[i..])
                case Ok(rest) => NamesAt(table, needed) == Ok(names + rest)
                case Err(error) => NamesAt(table, needed) == Err(error)
    {
      assert needed[i..][1..] == needed[i + 1..];
      var name := NameAt(table, needed[i]);
      if name.Err? {
        return Err(name.error);
      }
      ghost var rest := NamesAt(table, needed[i + 1..]);
      assert rest.Ok? ==> names + ([name.value] + rest.value) == names + [name.value] + rest.value;
      names := names + [name.value];
      i := i + 1;
    }
    assert names + [] == names;
    return Ok(names);
  }

  method Needed(e: Elf) returns (result: Result<seq<seq<byte>>, ElfError>)
    requires WellFormed(e)
    ensures result == NeededOf(e)
  {
    var dynamic := OfKind(e.headers, PT_DYNAMIC);
    if dynamic == [] {
      return Ok([]);
    }
    if |dynamic| != 1 || dynamic[0].fileSize % 8 != 0 {
      return Err(MalformedDynamic);
    }
    assert dynamic[0] in e.headers;
    var needed, strtab, strsz := ScanTable(e.data, dynamic[0]);
    if needed != [] && (strtab.None? || strsz.None?) {
      return Err(NoStringTable);
    }
    if strtab.None? || strsz.None? {
      return Ok([]);
    }
    var start := VirtualToOffset(e, strtab.value, strsz.value);
    if start.Err? {
      return Err(start.error);
    }
    MappedInFile(e, strtab.value, strsz.value);
    var table := e.data[start.value..start.value + strsz.value];
    result := ReadNames(table, needed);
  }

  // What the result means ------------------------------------------------------

  /** A NUL-terminated string stands at `at`, inside `[start, start + size)`. */
  ghost predicate StringAt(data: seq<byte>, start: nat, size: nat, at: nat, name: seq<byte>) {
    && start <= at && at + |name| < start + size <= |data|
    && data[at..at + |name|] == name && data[at + |name|] == 0 && 0 !in name
  }

  lemma NameMeaning(data: seq<byte>, start: nat, size: nat, table: seq<byte>, offset: nat)
    requires start + size <= |data| && table == data[start..start + size] && NameAt(table, offset).Ok?
    ensures StringAt(data, start, size, start + offset, NameAt(table, offset).value)
  {
    hide Utf8, FindNul;
    var (name, end) := (NameAt(table, offset).value, FindNul(table, offset).value);
    SliceOfSlice(data, start, start + size, offset, end);
    assert name == table[offset..end] == data[start + offset..start + end];
    assert data[start + end] == table[end];
  }

  lemma {:induction false} NamesMeaning(data: seq<byte>, start: nat, size: nat, table: seq<byte>, offsets: seq<nat>,
                                        k: nat)
    requires start + size <= |data| && table == data[start..start + size]
    requires NamesAt(table, offsets).Ok? && k < |offsets|
    ensures StringAt(data, start, size, start + offsets[k], NamesAt(table, offsets).value[k])
    decreases |offsets|
  {
    hide NameAt, StringAt;
    if k == 0 {
      NameMeaning(data, start, size, table, offsets[0]);
    } else {
      NamesMeaning(data, start, size, table, offsets[1..], k - 1);
    }
  }

  /** The string table of `size` bytes at `address` lies at `start` in the file,
      wholly inside the file part of the PT_LOAD segment `h`. */
  ghost predicate TableInSegment(e: Elf, h: ProgramHeader, start: nat, address: nat, size: nat) {
    && h in e.headers && h.kind == PT_LOAD
    && h.offset <= start && start + size <= h.offset + h.fileSize <= |e.data|
    && start - h.offset == address - h.virtualAddress
  }

  ghost predicate NamesInTable(e: Elf, start: nat, size: nat, offsets: seq<nat>, names: seq<seq<byte>>) {
    && |names| == |offsets|
    && forall k :: 0 <= k < |names| ==> StringAt(e.data, start, size, start + offsets[k], names[k])
  }

  /** The names stand, terminated, in a table that lies wholly in the file part of one
      PT_LOAD segment. */
  ghost predicate NamesFound(e: Elf, address: nat, size: nat, offsets: seq<nat>, names: seq<seq<byte>>) {
    exists h, start: nat ::
      TableInSegment(e, h, start, address, size) && NamesInTable(e, start, size, offsets, names)
  }

  lemma TableIsPlaced(e: Elf, address: nat, size: nat) returns (h: ProgramHeader)
    requires WellFormed(e) && Mapped(e.headers, address, size).Ok?
    ensures TableInSegment(e, h, Mapped(e.headers, address, size).value, address, size)
  {
    hide Mapped;
    MappedIff(e.headers, address, size);
    var k: nat :| FirstMapping(e.headers, address, size, k);
    h := e.headers[k];
  }

  lemma NamesAreInTable(e: Elf, offsets: seq<nat>, address: nat, size: nat, names: seq<seq<byte>>)
    requires WellFormed(e) && NeededNames(e, offsets, Some(address), Some(size)) == Ok(names)
    ensures NamesFound(e, address, size, offsets, names)
  {
    hide NamesAt, StringAt, Mapped;
    var h := TableIsPlaced(e, address, size);
    var start := Mapped(e.headers, address, size).value;
    var table := e.data[start..start + size];
    forall k | 0 <= k < |names| ensures StringAt(e.data, start, size, start + offsets[k], names[k]) {
      NamesMeaning(e.data, start, size, table, offsets, k);
    }
    hide WellFormed, TableInSegment;
    assert NamesInTable(e, start, size, offsets, names);
  }

  /** For every accepted image: the result is empty without a dynamic segment, and
      otherwise lists, in order, the terminated strings named by the DT_NEEDED entries
      before the first DT_NULL, in the table placed by the last DT_STRTAB and DT_STRSZ. */
  lemma NeededMeaning(e: Elf)
    requires WellFormed(e) && NeededOf(e).Ok?
    ensures var (dynamic, names) := (OfKind(e.headers, PT_DYNAMIC), NeededOf(e).value);
      if dynamic == [] then names == []
      else
        && |dynamic| == 1 && dynamic[0] in e.headers && dynamic[0].fileSize % 8 == 0
        && var live := Live(Table(e.data, dynamic[0]));
        var (offsets, strtab, strsz) :=
          (Values(live, DT_NEEDED), LastValue(live, DT_STRTAB), LastValue(live, DT_STRSZ));
        && |names| == |offsets|
        && (offsets != [] ==>
              strtab.Some? && strsz.Some? && NamesFound(e, strtab.value, strsz.value, offsets, names))
  {
    hide NamesFound, Values, LastValue, Live, Table, NamesAt, Mapped;
    var dynamic := OfKind(e.headers, PT_DYNAMIC);
    if dynamic != [] {
      assert dynamic[0] in e.headers;
      var live := Live(Table(e.data, dynamic[0]));
      var (offsets, strtab, strsz) :=
        (Values(live, DT_NEEDED), LastValue(live, DT_STRTAB), LastValue(live, DT_STRSZ));
      assert NeededOf(e) == NeededNames(e, offsets, strtab, strsz);
      if strtab.Some? && strsz.Some? {
        NamesAreInTable(e, offsets, strtab.value, strsz.value, NeededOf(e).value);
      }
    }
  }

  /** `Values` lists exactly the entries of the tag, in table order. */
  lemma {:induction false} ValuesMeaning(t: seq<Dynamic>, tag: nat) returns (positions: seq<nat>)
    ensures |positions| == |Values(t, tag)|
    ensures forall k :: 0 <= k < |positions| ==>
              positions[k] < |t| && t[positions[k]] == Dynamic(tag, Values(t, tag)[k])
    ensures forall j, k :: 0 <= j < k < |positions| ==> positions[j] < positions[k]
    ensures forall i :: 0 <= i < |t| && t[i].tag == tag ==> i in positions
    decreases |t|
  {
    if t == [] {
      positions := [];
    } else {
      var n := |t| - 1;
      positions := ValuesMeaning(t[..n], tag);
      if t[n].tag == tag {
        positions := positions + [n];
      }
    }
  }
}
