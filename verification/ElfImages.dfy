/** ELF images by their bytes: which are accepted and what they need, in both directions,
    and an image for every list of needed names. Field offsets are those of chapters 4 and 5
    of the System V gABI. */
module ElfImages {
  import opened Bytes
  import opened Elf32Arm
  import opened StoredNumbers
  import opened Text
  import opened Wrappers

  // Loading ----------------------------------------------------------------------------

  /** A program header: kind, offset, address, and the sizes in file and memory, in a
      segment that the file holds. */
  ghost predicate HeaderStands(data: seq<byte>, at: nat, h: ProgramHeader) {
    && WordAt(data, at, h.kind) && WordAt(data, at + 4, h.offset) && WordAt(data, at + 8, h.virtualAddress)
    && WordAt(data, at + 16, h.fileSize) && WordAt(data, at + 20, h.memorySize) && h.offset + h.fileSize <= |data|
  }

  ghost predicate HeadersStand(data: seq<byte>, at: nat, size: nat, headers: seq<ProgramHeader>) {
    forall k :: 0 <= k < |headers| ==> HeaderStands(data, at + k * size, headers[k])
  }

  lemma HeaderIff(data: seq<byte>, at: nat, h: ProgramHeader)
    requires at + 32 <= |data|
    ensures HeaderAt(data, at) == h && InFile(data, h) <==> HeaderStands(data, at, h)
  {
    hide WordAt, ReadLe32;
    WordIff(data, at, h.kind);
    WordIff(data, at + 4, h.offset);
    WordIff(data, at + 8, h.virtualAddress);
    WordIff(data, at + 16, h.fileSize);
    WordIff(data, at + 20, h.memorySize);
  }

  lemma {:induction false} HeadersIff(data: seq<byte>, at: nat, size: nat, count: nat, n: nat,
                                      headers: seq<ProgramHeader>)
    requires TableInFile(data, at, size, count) && n <= count
    ensures Headers(data, at, size, count, n) == Ok(headers) <==>
            |headers| == n && HeadersStand(data, at, size, headers)
    decreases n
  {
    hide HeaderAt, HeaderStands, TableInFile, InFile;
    if n > 0 && headers != [] {
      var (before, last) := (headers[..|headers| - 1], headers[|headers| - 1]);
      HeadersIff(data, at, size, count, n - 1, before);
      HeaderInside(data, at, size, count, n - 1);
      HeaderIff(data, at + (n - 1) * size, last);
      assert headers == before + [last];
      StandBefore(data, at, size, headers);
    }
  }

  lemma StandBefore(data: seq<byte>, at: nat, size: nat, headers: seq<ProgramHeader>)
    requires headers != []
    ensures var n := |headers| - 1;
      HeadersStand(data, at, size, headers) <==>
      HeadersStand(data, at, size, headers[..n]) && HeaderStands(data, at + n * size, headers[n])
  {
    hide HeaderStands;
  }

  /** The identification of a 32-bit little-endian ELF file for ARM. */
  ghost predicate Identified(data: seq<byte>) {
    && |data| >= 52 && data[0] == 0x7f && data[1] == 0x45 && data[2] == 0x4c && data[3] == 0x46
    && data[4] == 1 && data[5] == 1 && data[18] == 40 && data[19] == 0
  }

  /** The header table: offset at 28, entry size at 42 and count at 44. */
  ghost predicate TableIs(data: seq<byte>, at: nat, size: nat, headers: seq<ProgramHeader>) {
    && WordAt(data, 28, at) && HalfAt(data, 42, size) && HalfAt(data, 44, |headers|)
    && size >= 32 && |headers| <= 256 && at + size * |headers| <= |data| && HeadersStand(data, at, size, headers)
  }

  /** Exactly which files are accepted, and as what. */
  lemma LoadedIff(data: seq<byte>, e: Elf)
    ensures Loaded(data) == Ok(e) <==>
            && Identified(data) && e.data == data && e.machine == 40 && WordAt(data, 36, e.flags)
            && exists at, size :: TableIs(data, at, size, e.headers)
  {
    hide Headers, HeadersStand;
    if |data| >= 52 {
      assert data[..4] == [data[0], data[1], data[2], data[3]];
      HalfIff(data, 18, 40);
      WordIff(data, 36, e.flags);
      var (at, size, count) := (ReadLe32(data, 28), ReadLe16(data, 42), ReadLe16(data, 44));
      WordIff(data, 28, at);
      HalfIff(data, 42, size);
      HalfIff(data, 44, count);
      hide WordAt, HalfAt, ReadLe16, ReadLe32;
      if size >= 32 && at + size * count <= |data| {
        HeadersIff(data, at, size, count, count, e.headers);
      }
      TableIsOnly(data, at, size, count, e.headers);
    }
  }

  lemma TableIsOnly(data: seq<byte>, at: nat, size: nat, count: nat, headers: seq<ProgramHeader>)
    requires WordAt(data, 28, at) && HalfAt(data, 42, size) && HalfAt(data, 44, count)
    ensures (exists a, s :: TableIs(data, a, s, headers)) <==> |headers| == count && TableIs(data, at, size, headers)
  {
    hide HeadersStand;
  }

  /** The ABI version is byte 39 of the file; hard floats are bit 10 of the flags, and
      soft ones bit 9. */
  lemma AbiIs(data: seq<byte>, e: Elf)
    requires Loaded(data) == Ok(e)
    ensures |data| >= 52 && EabiVersion(e) == data[39]
    ensures HardFloat(e) <==> Bit(e.flags, 10) && !Bit(e.flags, 9)
    ensures HardFloat(e) <==> Bit(data[37], 2) && !Bit(data[37], 1)
  {
    LoadedIff(data, e);
    FlagBits(e.flags, data[36], data[37], data[38], data[39]);
  }

  lemma FlagBits(v: nat, a: byte, b: byte, c: byte, d: byte)
    requires v == a as nat + 0x100 * b as nat + 0x1_0000 * c as nat + 0x100_0000 * d as nat
    ensures v / 0x100_0000 % 0x100 == d
    ensures v / 0x400 % 2 == 1 <==> Bit(v, 10)
    ensures v / 0x200 % 2 == 1 <==> Bit(v, 9)
    ensures Bit(v, 10) == Bit(b, 2) && Bit(v, 9) == Bit(b, 1)
  {
    hide Bit;
    var high := v / 0x100;
    ByteParts(v, a, b, c, d);
    BitAfterEight(v, 10);
    BitAfterEight(v, 9);
    LowBits(high);
    LowBits(b);
  }

  lemma ByteParts(v: nat, a: nat, b: nat, c: nat, d: nat)
    requires v == a + 0x100 * b + 0x1_0000 * c + 0x100_0000 * d && a < 0x100 && b < 0x100 && c < 0x100 && d < 0x100
    ensures v / 0x100_0000 % 0x100 == d
    ensures v / 0x400 == v / 0x100 / 4 && v / 0x200 == v / 0x100 / 2
    ensures v / 0x100 / 2 % 2 == b / 2 % 2 && v / 0x100 / 4 % 2 == b / 4 % 2
  {
    BaseDigits(v, d, c, b, a);
    LowQuarters(v / 0x100, d * 0x100 + c, b);
    TwiceDivided(v);
  }

  lemma LowQuarters(v: nat, high: nat, b: nat)
    requires v == 0x100 * high + b
    ensures v / 2 % 2 == b / 2 % 2 && v / 4 % 2 == b / 4 % 2
  {
    Quotients(v, high, b);
    EvenAdded(v / 4, 32 * high, b / 4);
    EvenAdded(v / 2, 64 * high, b / 2);
  }

  lemma Quotients(v: nat, high: nat, b: nat)
    requires v == 0x100 * high + b
    ensures v / 4 == 64 * high + b / 4 && v / 2 == 128 * high + b / 2
  {
  }

  lemma EvenAdded(v: nat, k: nat, q: nat)
    requires v == 2 * k + q
    ensures v % 2 == q % 2
  {
  }

  lemma TwiceDivided(v: nat)
    ensures v / 0x400 == v / 0x100 / 4 && v / 0x200 == v / 0x100 / 2
  {
  }

  lemma BitAfterEight(v: int, i: nat)
    requires i >= 8
    ensures Bit(v, i) == Bit(v / 0x100, i - 8)
  {
    BitAfterTwo(v, i);
    BitAfterTwo(v / 4, i - 2);
    BitAfterTwo(v / 16, i - 4);
    BitAfterTwo(v / 64, i - 6);
    hide Bit;
    assert v / 4 / 4 == v / 16 && v / 16 / 4 == v / 64 && v / 64 / 4 == v / 0x100;
  }

  lemma LowBits(v: nat)
    ensures Bit(v, 2) <==> v / 4 % 2 == 1
    ensures Bit(v, 1) <==> v / 2 % 2 == 1
  {
    BitAfterTwo(v, 2);
    assert Bit(v, 1) == Bit(v / 2, 0);
  }

  // Segments of a kind -------------------------------------------------------------------

  ghost predicate NoneOfKind(headers: seq<ProgramHeader>, kind: nat) {
    forall i :: 0 <= i < |headers| ==> headers[i].kind != kind
  }

  ghost predicate OnlyOfKind(headers: seq<ProgramHeader>, kind: nat, d: nat) {
    d < |headers| && forall i :: 0 <= i < |headers| ==> (headers[i].kind == kind <==> i == d)
  }

  lemma {:induction false} KindsIff(headers: seq<ProgramHeader>, kind: nat)
    ensures OfKind(headers, kind) == [] <==> NoneOfKind(headers, kind)
    ensures |OfKind(headers, kind)| == 1 <==> exists d: nat :: OnlyOfKind(headers, kind, d)
    ensures forall d: nat :: OnlyOfKind(headers, kind, d) ==> OfKind(headers, kind) == [headers[d]]
    decreases |headers|
  {
    if headers != [] {
      var rest := headers[1..];
      KindsIff(rest, kind);
      assert forall i :: 0 < i < |headers| ==> headers[i] == rest[i - 1];
      if headers[0].kind == kind {
        OnlyFirst(headers, kind);
        assert NoneOfKind(rest, kind) ==> OnlyOfKind(headers, kind, 0);
      } else {
        forall d: nat ensures OnlyOfKind(headers, kind, d) <==> d > 0 && OnlyOfKind(rest, kind, d - 1) {
          OnlyInRest(headers, kind, d);
        }
        if |OfKind(rest, kind)| == 1 {
          var d: nat :| OnlyOfKind(rest, kind, d);
          assert OnlyOfKind(headers, kind, d + 1);
        }
      }
    }
  }

  lemma OnlyFirst(headers: seq<ProgramHeader>, kind: nat)
    requires headers != [] && headers[0].kind == kind
    ensures forall d: nat :: OnlyOfKind(headers, kind, d) <==> d == 0 && NoneOfKind(headers[1..], kind)
  {
    assert forall i :: 0 < i < |headers| ==> headers[i] == headers[1..][i - 1];
    forall d: nat ensures OnlyOfKind(headers, kind, d) <==> d == 0 && NoneOfKind(headers[1..], kind) {
      if OnlyOfKind(headers, kind, d) {
        forall i | 0 <= i < |headers[1..]| ensures headers[1..][i].kind != kind {
          assert headers[i + 1].kind == kind <==> i + 1 == d;
        }
      }
    }
  }

  lemma OnlyInRest(headers: seq<ProgramHeader>, kind: nat, d: nat)
    requires headers != [] && headers[0].kind != kind
    ensures OnlyOfKind(headers, kind, d) <==> d > 0 && OnlyOfKind(headers[1..], kind, d - 1)
  {
    var rest := headers[1..];
    assert forall i :: 0 < i < |headers| ==> headers[i] == rest[i - 1];
    if OnlyOfKind(headers, kind, d) && d > 0 {
      forall i | 0 <= i < |rest| ensures rest[i].kind == kind <==> i == d - 1 {
        assert rest[i] == headers[i + 1];
      }
    }
    if d > 0 && OnlyOfKind(rest, kind, d - 1) {
      forall i | 0 <= i < |headers| ensures headers[i].kind == kind <==> i == d {
        assert i > 0 ==> headers[i] == rest[i - 1];
      }
    }
  }

  /** An interpreter is a segment of kind 3. */
  lemma InterpreterIff(e: Elf)
    ensures HasInterpreter(e) <==> !NoneOfKind(e.headers, 3)
  {
    KindsIff(e.headers, 3);
  }

  // The dynamic table ----------------------------------------------------------------------

  /** Entry `k` of a dynamic table is two words. */
  lemma TableWords(data: seq<byte>, h: ProgramHeader, k: nat)
    requires InFile(data, h) && h.fileSize % 8 == 0 && 8 * k < h.fileSize
    ensures |Table(data, h)| == h.fileSize / 8 && k < |Table(data, h)|
    ensures WordAt(data, h.offset + 8 * k, Table(data, h)[k].tag)
    ensures WordAt(data, h.offset + 8 * k + 4, Table(data, h)[k].value)
  {
  }

  /** The entries before the first one of tag zero. */
  ghost predicate EndsAt(t: seq<Dynamic>, n: nat) {
    n <= |t| && (forall i :: 0 <= i < n ==> t[i].tag != 0) && (n < |t| ==> t[n].tag == 0)
  }

  lemma LiveIff(t: seq<Dynamic>, n: nat)
    ensures EndsAt(t, n) <==> n == |Live(t)|
    ensures EndsAt(t, n) ==> Live(t) == t[..n]
  {
    if EndsAt(t, n) {
      LiveIs(t, n);
    }
    if n == |Live(t)| {
      forall i | 0 <= i < n ensures t[i].tag != 0 {
        assert Live(t)[i] in Live(t);
      }
    }
  }

  /** The entries of a tag stand at exactly these positions, in order. */
  ghost predicate Positions(t: seq<Dynamic>, tag: nat, positions: seq<nat>) {
    && (forall k :: 0 <= k < |positions| ==> positions[k] < |t| && t[positions[k]].tag == tag)
    && (forall j, k :: 0 <= j < k < |positions| ==> positions[j] < positions[k])
    && forall i :: 0 <= i < |t| && t[i].tag == tag ==> i in positions
  }

  ghost predicate ValuesAt(t: seq<Dynamic>, positions: seq<nat>, values: seq<nat>) {
    && |values| == |positions|
    && forall k :: 0 <= k < |positions| ==> positions[k] < |t| && t[positions[k]].value == values[k]
  }

  lemma {:induction false} ValuesIff(t: seq<Dynamic>, tag: nat, positions: seq<nat>)
    requires Positions(t, tag, positions)
    ensures ValuesAt(t, positions, Values(t, tag))
    decreases |t|
  {
    hide Positions, ValuesAt;
    if t == [] {
      NoPositions(t, tag, positions);
    } else {
      var (n, m) := (|t| - 1, |positions| - 1);
      if t[n].tag == tag {
        LastPosition(t, tag, positions);
        ValuesIff(t[..n], tag, positions[..m]);
        ValuesAppended(t, positions, Values(t[..n], tag));
      } else {
        PositionsBefore(t, tag, positions);
        ValuesIff(t[..n], tag, positions);
        ValuesKept(t, positions, Values(t[..n], tag));
        assert Values(t[..n], tag) + [] == Values(t[..n], tag);
      }
    }
  }

  lemma ValuesAppended(t: seq<Dynamic>, positions: seq<nat>, values: seq<nat>)
    requires t != [] && positions != [] && positions[|positions| - 1] == |t| - 1
    requires ValuesAt(t[..|t| - 1], positions[..|positions| - 1], values)
    ensures ValuesAt(t, positions, values + [t[|t| - 1].value])
  {
    var (n, m) := (|t| - 1, |positions| - 1);
    forall k | 0 <= k < m ensures positions[k] < n && t[positions[k]].value == values[k] {
      assert positions[..m][k] == positions[k] && t[..n][positions[k]] == t[positions[k]];
    }
  }

  lemma ValuesKept(t: seq<Dynamic>, positions: seq<nat>, values: seq<nat>)
    requires t != [] && ValuesAt(t[..|t| - 1], positions, values)
    ensures ValuesAt(t, positions, values)
  {
    forall k | 0 <= k < |positions| ensures positions[k] < |t| && t[positions[k]].value == values[k] {
      assert t[..|t| - 1][positions[k]] == t[positions[k]];
    }
  }

  lemma PositionInside(t: seq<Dynamic>, tag: nat, positions: seq<nat>, k: nat)
    requires Positions(t, tag, positions) && k < |positions|
    ensures positions[k] < |t|
  {
  }

  lemma NoPositions(t: seq<Dynamic>, tag: nat, positions: seq<nat>)
    requires Positions(t, tag, positions)
    ensures positions != [] ==> t != []
    ensures t == [] ==> ValuesAt(t, positions, [])
  {
    if positions != [] {
      assert positions[0] < |t|;
    }
  }

  lemma LastPosition(t: seq<Dynamic>, tag: nat, positions: seq<nat>)
    requires t != [] && Positions(t, tag, positions) && t[|t| - 1].tag == tag
    ensures positions != [] && positions[|positions| - 1] == |t| - 1
    ensures Positions(t[..|t| - 1], tag, positions[..|positions| - 1])
  {
    var (n, m) := (|t| - 1, |positions| - 1);
    var k :| 0 <= k < |positions| && positions[k] == n;
    PositionInside(t, tag, positions, m);
    assert k == m;
    forall i | 0 <= i < n && t[..n][i].tag == tag ensures i in positions[..m] {
      assert t[i].tag == tag;
      var j :| 0 <= j < |positions| && positions[j] == i;
      assert positions[..m][j] == i;
    }
  }

  lemma PositionsBefore(t: seq<Dynamic>, tag: nat, positions: seq<nat>)
    requires t != [] && Positions(t, tag, positions) && t[|t| - 1].tag != tag
    ensures Positions(t[..|t| - 1], tag, positions)
  {
    var n := |t| - 1;
    forall k | 0 <= k < |positions| ensures positions[k] < n {
      assert t[positions[k]].tag == tag;
    }
    forall i | 0 <= i < n && t[..n][i].tag == tag ensures i in positions {
      assert t[i].tag == tag;
    }
  }

  lemma PositionsExist(t: seq<Dynamic>, tag: nat) returns (positions: seq<nat>)
    ensures Positions(t, tag, positions)
  {
    positions := ValuesMeaning(t, tag);
  }

  /** The last entry of a tag has this value. */
  ghost predicate Last(t: seq<Dynamic>, tag: nat, value: nat) {
    exists i :: LastAt(t, tag, value, i)
  }

  ghost predicate LastAt(t: seq<Dynamic>, tag: nat, value: nat, i: nat) {
    i < |t| && t[i] == Dynamic(tag, value) && forall j :: i < j < |t| ==> t[j].tag != tag
  }

  ghost predicate NoTag(t: seq<Dynamic>, tag: nat) {
    forall i :: 0 <= i < |t| ==> t[i].tag != tag
  }

  lemma {:induction false} LastIff(t: seq<Dynamic>, tag: nat, value: nat)
    ensures LastValue(t, tag) == Some(value) <==> Last(t, tag, value)
    ensures LastValue(t, tag) == None <==> NoTag(t, tag)
    decreases |t|
  {
    if t != [] {
      var n := |t| - 1;
      LastIff(t[..n], tag, value);
      OneMoreValue(t, n, tag);
      assert t[..n + 1] == t;
      hide Values, LastValue;
      if t[n].tag == tag {
        assert t[n].value == value ==> LastAt(t, tag, value, n);
      } else {
        forall i: nat ensures LastAt(t, tag, value, i) <==> LastAt(t[..n], tag, value, i) {
        }
      }
    }
  }

  // Names ----------------------------------------------------------------------------------

  /** A terminated text stands at an offset of the table. */
  ghost predicate TextAt(table: seq<byte>, offset: nat, name: seq<byte>) {
    && offset + |name| < |table| && table[offset..offset + |name|] == name && table[offset + |name|] == 0
    && 0 !in name && Utf8(name)
  }

  lemma NameIff(table: seq<byte>, offset: nat, name: seq<byte>)
    ensures NameAt(table, offset) == Ok(name) <==> TextAt(table, offset, name)
  {
    hide Utf8, FindNul;
    if TextAt(table, offset, name) {
      var end := offset + |name|;
      forall i | offset <= i < end ensures table[i] != 0 {
        assert table[i] == name[i - offset];
      }
      FirstNul(table, offset, end);
    }
    if NameAt(table, offset) == Ok(name) {
      NameMeaning(table, 0, |table|, table, offset);
    }
  }

  ghost predicate TextsAt(table: seq<byte>, offsets: seq<nat>, names: seq<seq<byte>>) {
    |names| == |offsets| && forall k :: 0 <= k < |names| ==> TextAt(table, offsets[k], names[k])
  }

  lemma {:induction false} NamesIff(table: seq<byte>, offsets: seq<nat>, names: seq<seq<byte>>)
    ensures NamesAt(table, offsets) == Ok(names) <==> TextsAt(table, offsets, names)
    decreases |offsets|
  {
    hide NameAt, TextAt;
    if offsets != [] && names != [] {
      NameIff(table, offsets[0], names[0]);
      NamesIff(table, offsets[1..], names[1..]);
      assert names == [names[0]] + names[1..];
      assert TextsAt(table, offsets, names) <==>
             TextAt(table, offsets[0], names[0]) && TextsAt(table, offsets[1..], names[1..]) by {
        assert forall k :: 0 < k < |names| ==> names[k] == names[1..][k - 1];
        assert forall k :: 0 < k < |offsets| ==> offsets[k] == offsets[1..][k - 1];
      }
    }
  }

  // What an image needs ----------------------------------------------------------------------

  /** Segment `k` is the first loaded one whose file part holds these addresses, and the
      bytes there are the table. */
  ghost predicate TableHeld(e: Elf, address: nat, size: nat, k: nat, table: seq<byte>) {
    && HoldsRange(e.headers, address, size, k) && (forall i: nat :: i < k ==> !HoldsRange(e.headers, address, size, i))
    && |table| == size && At(e.data, e.headers[k].offset + (address - e.headers[k].virtualAddress), table)
  }

  ghost predicate HoldsRange(headers: seq<ProgramHeader>, address: nat, size: nat, k: nat) {
    && k < |headers| && headers[k].kind == 1 && headers[k].virtualAddress <= address
    && address + size <= headers[k].virtualAddress + headers[k].fileSize
  }

  lemma HeldIff(e: Elf, address: nat, size: nat, table: seq<byte>)
    requires WellFormed(e)
    ensures (exists k: nat :: TableHeld(e, address, size, k, table)) <==>
            && Mapped(e.headers, address, size).Ok?
            && |table| == size && At(e.data, Mapped(e.headers, address, size).value, table)
  {
    hide Mapped, At;
    MappedIff(e.headers, address, size);
    forall k: nat ensures FirstMapping(e.headers, address, size, k) <==>
                            && HoldsRange(e.headers, address, size, k)
                            && forall i: nat :: i < k ==> !HoldsRange(e.headers, address, size, i)
    {
      FirstIff(e.headers, address, size, k);
    }
    hide FirstMapping;
    if Mapped(e.headers, address, size).Ok? {
      var k: nat :| FirstMapping(e.headers, address, size, k);
      var start := Mapped(e.headers, address, size).value;
      assert TableHeld(e, address, size, k, table) <==> |table| == size && At(e.data, start, table);
    }
  }

  lemma FirstIff(headers: seq<ProgramHeader>, address: nat, size: nat, k: nat)
    ensures FirstMapping(headers, address, size, k) <==>
            HoldsRange(headers, address, size, k) && forall i: nat :: i < k ==> !HoldsRange(headers, address, size, i)
  {
    if k < |headers| {
      forall i: nat | i <= k ensures HoldsRange(headers, address, size, i) <==> Maps(headers[i], address, size) {
      }
    }
  }

  /** The names that these entries of a dynamic table give: none without the place or the
      size of a string table, and otherwise the text at each offset of tag 1. */
  ghost predicate LiveNames(e: Elf, live: seq<Dynamic>, names: seq<seq<byte>>) {
    exists positions, offsets ::
      && Positions(live, 1, positions) && ValuesAt(live, positions, offsets)
      && if NoTag(live, 5) || NoTag(live, 10) then offsets == [] && names == [] else TableNames(e, live, offsets, names)
  }

  ghost predicate TableNames(e: Elf, live: seq<Dynamic>, offsets: seq<nat>, names: seq<seq<byte>>) {
    exists address, size, k: nat, table ::
      && Last(live, 5, address) && Last(live, 10, size) && TableHeld(e, address, size, k, table)
      && TextsAt(table, offsets, names)
  }

  /** No dynamic segment and no names, or one of whole entries and the names that it gives
      up to its first entry of tag zero. */
  ghost predicate Needs(e: Elf, names: seq<seq<byte>>)
    requires WellFormed(e)
  {
    if NoneOfKind(e.headers, 2) then names == []
    else
      exists d: nat, n: nat ::
        && OnlyOfKind(e.headers, 2, d) && e.headers[d].fileSize % 8 == 0
        && EndsAt(Table(e.data, e.headers[d]), n) && LiveNames(e, Table(e.data, e.headers[d])[..n], names)
  }

  lemma TableNamesIff(e: Elf, live: seq<Dynamic>, offsets: seq<nat>, names: seq<seq<byte>>, address: nat, size: nat)
    requires WellFormed(e) && Last(live, 5, address) && Last(live, 10, size)
    ensures TableNames(e, live, offsets, names) <==> NeededNames(e, offsets, Some(address), Some(size)) == Ok(names)
  {
    hide Mapped, NamesAt, Last, LastValue, TextsAt, TableHeld, WellFormed;
    OnlyLast(live, 5, address);
    OnlyLast(live, 10, size);
    assert TableNames(e, live, offsets, names) <==>
           exists k: nat, table :: TableHeld(e, address, size, k, table) && TextsAt(table, offsets, names);
    hide TableNames;
    HeldNames(e, offsets, names, address, size);
  }

  lemma OnlyLast(live: seq<Dynamic>, tag: nat, value: nat)
    requires Last(live, tag, value)
    ensures forall v :: Last(live, tag, v) ==> v == value
  {
    hide Last, LastValue;
    forall v ensures Last(live, tag, v) ==> v == value {
      LastIff(live, tag, v);
      LastIff(live, tag, value);
    }
  }

  lemma HeldNames(e: Elf, offsets: seq<nat>, names: seq<seq<byte>>, address: nat, size: nat)
    requires WellFormed(e)
    ensures (exists k: nat, table :: TableHeld(e, address, size, k, table) && TextsAt(table, offsets, names)) <==>
            NeededNames(e, offsets, Some(address), Some(size)) == Ok(names)
  {
    hide Mapped, NamesAt, TextsAt, TableHeld, WellFormed;
    forall table
      ensures (exists k: nat :: TableHeld(e, address, size, k, table)) <==>
              && Mapped(e.headers, address, size).Ok?
              && |table| == size && At(e.data, Mapped(e.headers, address, size).value, table)
      ensures NamesAt(table, offsets) == Ok(names) <==> TextsAt(table, offsets, names)
    {
      HeldIff(e, address, size, table);
      NamesIff(table, offsets, names);
    }
    if Mapped(e.headers, address, size).Ok? {
      MappedInFile(e, address, size);
      var start := Mapped(e.headers, address, size).value;
      var table := e.data[start..start + size];
      assert At(e.data, start, table);
      assert exists k: nat :: TableHeld(e, address, size, k, table);
    }
  }

  lemma LiveNamesIff(e: Elf, live: seq<Dynamic>, names: seq<seq<byte>>)
    requires WellFormed(e)
    ensures LiveNames(e, live, names) <==>
            NeededNames(e, Values(live, 1), LastValue(live, 5), LastValue(live, 10)) == Ok(names)
  {
    hide Values, LastValue, Last, TableNames, Positions, NamesAt, Mapped, WellFormed, NoTag, ValuesAt;
    var values := Values(live, 1);
    var p := PositionsExist(live, 1);
    ValuesIff(live, 1, p);
    forall positions, offsets | Positions(live, 1, positions) && ValuesAt(live, positions, offsets)
      ensures offsets == values
    {
      ValuesIff(live, 1, positions);
      SameValues(live, positions, offsets, values);
    }
    LastIff(live, 5, LastOr(live, 5));
    LastIff(live, 10, LastOr(live, 10));
    if !NoTag(live, 5) && !NoTag(live, 10) {
      TableNamesIff(e, live, values, names, LastOr(live, 5), LastOr(live, 10));
    }
  }

  function LastOr(live: seq<Dynamic>, tag: nat): nat {
    if LastValue(live, tag).Some? then LastValue(live, tag).value else 0
  }

  lemma SameValues(t: seq<Dynamic>, positions: seq<nat>, a: seq<nat>, b: seq<nat>)
    requires ValuesAt(t, positions, a) && ValuesAt(t, positions, b)
    ensures a == b
  {
  }

  /** The names that an image is said to need are exactly those that its segments and its
      dynamic table give. */
  lemma NeededIff(e: Elf, names: seq<seq<byte>>)
    requires WellFormed(e)
    ensures NeededOf(e) == Ok(names) <==> Needs(e, names)
  {
    hide Live, Values, LastValue, LiveNames, NeededNames, OfKind, Table, NoneOfKind, OnlyOfKind, EndsAt;
    KindsIff(e.headers, 2);
    if |OfKind(e.headers, 2)| == 1 {
      var d: nat :| OnlyOfKind(e.headers, 2, d);
      OnlyOne(e.headers, 2, d);
      if e.headers[d].fileSize % 8 == 0 {
        var t := Table(e.data, e.headers[d]);
        var n := |Live(t)|;
        forall m ensures EndsAt(t, m) <==> m == n {
          LiveIff(t, m);
        }
        LiveIff(t, n);
        LiveNamesIff(e, t[..n], names);
      }
    }
  }

  lemma OnlyOne(headers: seq<ProgramHeader>, kind: nat, d: nat)
    requires OnlyOfKind(headers, kind, d)
    ensures d < |headers| && forall c: nat :: OnlyOfKind(headers, kind, c) ==> c == d
  {
    forall c: nat | OnlyOfKind(headers, kind, c) ensures c == d {
      assert headers[c].kind == kind;
    }
  }

  // An image for any names -------------------------------------------------------------------

  /** The names, each with its NUL. */
  function NameTable(names: seq<seq<byte>>): seq<byte> {
    if names == [] then [] else names[0] + [0] + NameTable(names[1..])
  }

  /** Where each name starts, after `from` bytes. */
  function NameOffsets(names: seq<seq<byte>>, from: nat): (offsets: seq<nat>)
    ensures |offsets| == |names|
    decreases |names|
  {
    if names == [] then [] else [from] + NameOffsets(names[1..], from + |names[0]| + 1)
  }

  lemma {:induction false} NamesStand(table: seq<byte>, names: seq<seq<byte>>, from: nat)
    requires At(table, from, NameTable(names)) && forall k :: 0 <= k < |names| ==> 0 !in names[k] && Utf8(names[k])
    ensures TextsAt(table, NameOffsets(names, from), names)
    decreases |names|
  {
    hide Utf8;
    if names != [] {
      var (name, rest) := (names[0], names[1..]);
      assert NameTable(names) == name + ([0] + NameTable(rest));
      AtSplits(table, from, name, [0] + NameTable(rest));
      AtSplits(table, from + |name|, [0], NameTable(rest));
      assert table[from + |name|] == table[from + |name|..from + |name| + 1][0];
      assert TextAt(table, from, name);
      hide TextAt;
      NamesStand(table, rest, from + |name| + 1);
    }
  }

  function DynamicWords(entries: seq<Dynamic>): (ws: seq<nat>)
    ensures |ws| == 2 * |entries|
    ensures forall k :: 0 <= k < |entries| ==> ws[2 * k] == entries[k].tag && ws[2 * k + 1] == entries[k].value
  {
    if entries == [] then []
    else
      var ws := [entries[0].tag, entries[0].value] + DynamicWords(entries[1..]);
      assert forall k :: 0 < k < |entries| ==> entries[k] == entries[1..][k - 1];
      ws
  }

  function NeededEntries(offsets: seq<nat>): (entries: seq<Dynamic>)
    ensures |entries| == |offsets| && forall k :: 0 <= k < |offsets| ==> entries[k] == Dynamic(1, offsets[k])
  {
    seq(|offsets|, k requires 0 <= k < |offsets| => Dynamic(1, offsets[k]))
  }

  const BASE: nat := 0x1_0000

  /** The ELF header, a loaded segment of the whole file at address 0x10000, and its
      dynamic segment after the two program headers. */
  function ImageWords(total: nat, dynamicSize: nat): (ws: seq<nat>)
    ensures |ws| == 29
  {
    [0x464c_457f, 0x0001_0101, 0, 0, 0x0028_0002, 1, 0, 52, 0, 0x0500_0400, 0x0020_0034, 2, 0,
     1, 0, BASE, BASE, total, total, 5, 4,
     2, 116, BASE + 116, BASE + 116, dynamicSize, dynamicSize, 4, 4]
  }

  function TableEntries(names: seq<seq<byte>>): seq<Dynamic> {
    var (table, start) := (NameTable(names), 116 + 8 * (|names| + 3));
    NeededEntries(NameOffsets(names, 0)) + [Dynamic(5, BASE + start), Dynamic(10, |table|), Dynamic(0, 0)]
  }

  /** An executable that needs these names, in this order. */
  function NeedingImage(names: seq<seq<byte>>): seq<byte> {
    var entries := TableEntries(names);
    var total := 116 + 8 * |entries| + |NameTable(names)|;
    LittleWords(ImageWords(total, 8 * |entries|)) + LittleWords(DynamicWords(entries)) + NameTable(names)
  }

  lemma WordIs(data: seq<byte>, ws: seq<nat>, i: nat, at: nat, v: nat)
    requires At(data, 0, LittleWords(ws)) && i < |ws| && ws[i] == v < U32 && at == 4 * i
    ensures WordAt(data, at, v)
  {
    hide LittleWords, Le32, At, WordAt;
    WordsStand(data, 0, ws, i, at, v);
    WordStands(data, at, v);
  }

  lemma HalvesAre(data: seq<byte>, ws: seq<nat>, i: nat, at: nat, v: nat)
    requires At(data, 0, LittleWords(ws)) && i < |ws| && ws[i] == v < U32 && at == 4 * i
    ensures HalfAt(data, at, v % U16) && HalfAt(data, at + 2, v / U16)
  {
    hide LittleWords, Le32, At, WordAt, HalfAt;
    WordsStand(data, 0, ws, i, at, v);
    HalvesStand(data, at, v);
  }

  lemma BytesOfWord(data: seq<byte>, ws: seq<nat>, i: nat, at: nat, v: nat, a: byte, b: byte, c: byte, d: byte)
    requires At(data, 0, LittleWords(ws)) && i < |ws| && ws[i] == v < 0x1_0000_0000 && at == 4 * i && at + 4 <= |data|
    requires v == ((d as nat * 0x100 + c as nat) * 0x100 + b as nat) * 0x100 + a as nat
    ensures data[at] == a && data[at + 1] == b && data[at + 2] == c && data[at + 3] == d
  {
    hide LittleWords, At, HalfAt;
    WordIs(data, ws, i, at, v);
    SameWord(v, a, b, c, d, data[at], data[at + 1], data[at + 2], data[at + 3]);
  }

  lemma SameWord(v: nat, a: nat, b: nat, c: nat, d: nat, e: nat, f: nat, g: nat, h: nat)
    requires a < 0x100 && b < 0x100 && c < 0x100 && d < 0x100 && e < 0x100 && f < 0x100 && g < 0x100 && h < 0x100
    requires v == ((d * 0x100 + c) * 0x100 + b) * 0x100 + a == e + 0x100 * f + 0x1_0000 * g + 0x100_0000 * h
    ensures a == e && b == f && c == g && d == h
  {
    BaseDigits(v, d, c, b, a);
    BaseDigits(v, h, g, f, e);
  }

  lemma FirstBytes(data: seq<byte>, ws: seq<nat>)
    requires At(data, 0, LittleWords(ws)) && |ws| >= 13 && |data| >= 52
    requires ws[0] == 0x464c_457f && ws[1] == 0x0001_0101 && ws[4] == 0x0028_0002
    ensures Identified(data)
  {
    hide *;
    BytesOfWord(data, ws, 0, 0, 0x464c_457f, 0x7f, 0x45, 0x4c, 0x46);
    BytesOfWord(data, ws, 1, 4, 0x0001_0101, 1, 1, 1, 0);
    BytesOfWord(data, ws, 4, 16, 0x0028_0002, 2, 0, 40, 0);
    AreIdentity(data);
  }

  lemma AreIdentity(data: seq<byte>)
    requires |data| >= 52 && data[0] == 0x7f && data[1] == 0x45 && data[2] == 0x4c && data[3] == 0x46
    requires data[4] == 1 && data[5] == 1 && data[18] == 40 && data[19] == 0
    ensures Identified(data)
  {
  }

  predicate Below32(h: ProgramHeader) {
    h.kind < U32 && h.offset < U32 && h.virtualAddress < U32 && h.fileSize < U32 && h.memorySize < U32
  }

  lemma SegmentStands(data: seq<byte>, ws: seq<nat>, i: nat, at: nat, h: ProgramHeader)
    requires At(data, 0, LittleWords(ws)) && at == 4 * i && SegmentWords(ws, i, h) && InFile(data, h) && Below32(h)
    ensures HeaderStands(data, at, h)
  {
    hide LittleWords, WordAt, HalfAt, At;
    WordIs(data, ws, i, at, h.kind);
    WordIs(data, ws, i + 1, at + 4, h.offset);
    WordIs(data, ws, i + 2, at + 8, h.virtualAddress);
    WordIs(data, ws, i + 4, at + 16, h.fileSize);
    WordIs(data, ws, i + 5, at + 20, h.memorySize);
  }

  lemma HeadTable(data: seq<byte>, ws: seq<nat>, a: ProgramHeader, b: ProgramHeader)
    requires At(data, 0, LittleWords(ws)) && |ws| == 29 && ws[7] == 52 && ws[10] == 0x0020_0034 && ws[11] == 2
    requires HeaderStands(data, 52, a) && HeaderStands(data, 84, b) && |data| >= 116
    ensures TableIs(data, 52, 32, [a, b])
  {
    hide LittleWords, WordAt, HalfAt, At, HeaderStands;
    WordIs(data, ws, 7, 28, 52);
    HalvesAre(data, ws, 10, 40, 0x0020_0034);
    HalvesAre(data, ws, 11, 44, 2);
    BothStand(data, a, b);
    hide HeadersStand;
    assert |[a, b]| == 2;
  }

  lemma BothStand(data: seq<byte>, a: ProgramHeader, b: ProgramHeader)
    requires HeaderStands(data, 52, a) && HeaderStands(data, 84, b)
    ensures HeadersStand(data, 52, 32, [a, b])
  {
    hide HeaderStands;
  }

  /** The words that matter for loading. */
  ghost predicate HeadWords(ws: seq<nat>, a: ProgramHeader, b: ProgramHeader) {
    && |ws| == 29 && ws[0] == 0x464c_457f && ws[1] == 0x0001_0101 && ws[4] == 0x0028_0002
    && ws[7] == 52 && ws[9] == 0x0500_0400 && ws[10] == 0x0020_0034 && ws[11] == 2
    && SegmentWords(ws, 13, a) && SegmentWords(ws, 21, b)
  }

  ghost predicate SegmentWords(ws: seq<nat>, i: nat, h: ProgramHeader) {
    && i + 8 <= |ws| && ws[i] == h.kind && ws[i + 1] == h.offset && ws[i + 2] == h.virtualAddress
    && ws[i + 4] == h.fileSize && ws[i + 5] == h.memorySize
  }

  lemma ImageWordsAre(total: nat, dynamicSize: nat)
    ensures HeadWords(ImageWords(total, dynamicSize), ProgramHeader(1, 0, BASE, total, total),
                      ProgramHeader(2, 116, BASE + 116, dynamicSize, dynamicSize))
  {
  }

  lemma HeadLoads(data: seq<byte>, ws: seq<nat>, a: ProgramHeader, b: ProgramHeader)
    requires HeadWords(ws, a, b) && At(data, 0, LittleWords(ws)) && |data| >= 116
    requires InFile(data, a) && InFile(data, b) && Below32(a) && Below32(b)
    ensures Loaded(data) == Ok(Elf(data, 40, 0x0500_0400, [a, b]))
  {
    hide LittleWords, WordAt, HalfAt, Loaded, At, HeaderStands, HeadersStand, Identified, TableIs;
    FirstBytes(data, ws);
    WordIs(data, ws, 9, 36, 0x0500_0400);
    SegmentStands(data, ws, 13, 52, a);
    SegmentStands(data, ws, 21, 84, b);
    HeadTable(data, ws, a, b);
    hide HeadWords;
    LoadedIff(data, Elf(data, 40, 0x0500_0400, [a, b]));
  }

  lemma SameWords(data: seq<byte>, at: nat, v: nat, w: nat)
    requires WordAt(data, at, v) && WordAt(data, at, w)
    ensures v == w
  {
  }

  lemma WordIn(data: seq<byte>, at: nat, ws: seq<nat>, i: nat, here: nat, v: nat)
    requires At(data, at, LittleWords(ws)) && here == at + 4 * i && WordAt(data, here, v) && i < |ws| && ws[i] < U32
    ensures v == ws[i]
  {
    hide LittleWords, At, WordAt, Le32;
    var w := ws[i];
    WordsStand(data, at, ws, i, here, w);
    WordStands(data, here, w);
    SameWords(data, here, w, v);
  }

  lemma EntryIs(data: seq<byte>, at: nat, ws: seq<nat>, k: nat, here: nat, d: Dynamic)
    requires At(data, at, LittleWords(ws)) && here == at + 8 * k
    requires WordAt(data, here, d.tag) && WordAt(data, here + 4, d.value)
    requires 2 * k + 1 < |ws| && ws[2 * k] < U32 && ws[2 * k + 1] < U32
    ensures d == Dynamic(ws[2 * k], ws[2 * k + 1])
  {
    hide LittleWords, At, WordAt, Le32;
    WordIn(data, at, ws, 2 * k, here, d.tag);
    WordIn(data, at, ws, 2 * k + 1, here + 4, d.value);
  }

  lemma TableIsEntries(data: seq<byte>, h: ProgramHeader, entries: seq<Dynamic>)
    requires InFile(data, h) && h.fileSize == 8 * |entries| && At(data, h.offset, LittleWords(DynamicWords(entries)))
    requires forall k :: 0 <= k < |entries| ==> entries[k].tag < U32 && entries[k].value < U32
    ensures Table(data, h) == entries
  {
    hide LittleWords, At, DynamicWords, WordAt;
    var ws := DynamicWords(entries);
    TableLength(h.fileSize, |entries|);
    var t := Table(data, h);
    forall k | 0 <= k < |entries| ensures t[k] == entries[k] {
      TableWords(data, h, k);
      assert ws[2 * k] == entries[k].tag && ws[2 * k + 1] == entries[k].value;
      EntryIs(data, h.offset, ws, k, h.offset + 8 * k, t[k]);
    }
  }

  lemma TableLength(size: nat, n: nat)
    requires size == 8 * n
    ensures size / 8 == n && size % 8 == 0
  {
  }

  lemma {:induction false} OffsetsInside(names: seq<seq<byte>>, from: nat, k: nat)
    requires k < |names|
    ensures NameOffsets(names, from)[k] < from + |NameTable(names)|
    decreases k
  {
    if k > 0 {
      OffsetsInside(names[1..], from + |names[0]| + 1, k - 1);
    }
  }

  lemma EntriesFit(names: seq<seq<byte>>)
    requires |NeedingImage(names)| + BASE < U32
    ensures var entries := TableEntries(names);
      forall k :: 0 <= k < |entries| ==> entries[k].tag < U32 && entries[k].value < U32
  {
    var entries := TableEntries(names);
    forall k | 0 <= k < |names| ensures entries[k].value < U32 {
      OffsetsInside(names, 0, k);
    }
  }

  /** What stands where in the image. */
  lemma ImageParts(data: seq<byte>, entries: seq<Dynamic>, table: seq<byte>, size: nat, total: nat)
    requires size == 8 * |entries| && total == 116 + size + |table|
    requires data == LittleWords(ImageWords(total, size)) + LittleWords(DynamicWords(entries)) + table
    ensures |data| == total && At(data, 0, LittleWords(ImageWords(total, size)))
    ensures At(data, 116, LittleWords(DynamicWords(entries))) && At(data, 116 + size, table)
  {
    hide LittleWords, DynamicWords, ImageWords, At;
    var (a, b) := (LittleWords(ImageWords(total, size)), LittleWords(DynamicWords(entries)));
    assert |a| == 116 && |b| == size;
    JoinedParts(data, a, b, table);
  }

  lemma ThreeMore(names: seq<seq<byte>>)
    ensures |TableEntries(names)| == |names| + 3
  {
  }

  lemma JoinedParts(data: seq<byte>, a: seq<byte>, b: seq<byte>, c: seq<byte>)
    requires data == a + b + c
    ensures At(data, 0, a) && At(data, |a|, b) && At(data, |a| + |b|, c)
  {
  }

  lemma EntriesGive(e: Elf, names: seq<seq<byte>>)
    requires WellFormed(e) && e.headers != [] && e.headers[0] == ProgramHeader(1, 0, BASE, |e.data|, |e.data|)
    requires At(e.data, 116 + 8 * (|names| + 3), NameTable(names))
    requires forall k :: 0 <= k < |names| ==> 0 !in names[k] && Utf8(names[k])
    ensures |TableEntries(names)| == |names| + 3 && EndsAt(TableEntries(names), |names| + 2)
    ensures LiveNames(e, TableEntries(names)[..|names| + 2], names)
  {
    hide WellFormed, Utf8, NameTable, NameOffsets;
    var (n, table, offsets) := (|names|, NameTable(names), NameOffsets(names, 0));
    var (start, entries) := (116 + 8 * (n + 3), TableEntries(names));
    var live := entries[..n + 2];
    var positions := seq(n, i requires 0 <= i < n => i);
    assert At(table, 0, table);
    NamesStand(table, names, 0);
    assert entries[n] == Dynamic(5, BASE + start) && entries[n + 1] == Dynamic(10, |table|);
    assert LastAt(live, 5, BASE + start, n) && LastAt(live, 10, |table|, n + 1);
    assert Positions(live, 1, positions) by {
      forall i | 0 <= i < |live| && live[i].tag == 1 ensures i in positions {
        assert i < n ==> positions[i] == i;
      }
    }
    assert ValuesAt(live, positions, offsets);
    hide Positions, ValuesAt, TextsAt, LastAt;
    assert HoldsRange(e.headers, BASE + start, |table|, 0);
    assert TableHeld(e, BASE + start, |table|, 0, table);
    hide TableHeld, TableEntries;
    assert TableNames(e, live, offsets, names);
    hide TableNames;
    assert !NoTag(live, 5) && !NoTag(live, 10) by {
      assert live[n].tag == 5 && live[n + 1].tag == 10;
    }
  }

  /** For every list of names there is an accepted image that needs exactly these. */
  lemma AnyNamesNeeded(names: seq<seq<byte>>)
    requires |NeedingImage(names)| + BASE < U32 && forall k :: 0 <= k < |names| ==> 0 !in names[k] && Utf8(names[k])
    ensures Loaded(NeedingImage(names)).Ok? && var e := Loaded(NeedingImage(names)).value;
      && NeededOf(e) == Ok(names) && EabiVersion(e) == 5 && HardFloat(e) && !HasInterpreter(e)
  {
    var (data, entries, table) := (NeedingImage(names), TableEntries(names), NameTable(names));
    var size := 8 * |entries|;
    var total := 116 + size + |table|;
    hide TableEntries, LittleWords, DynamicWords, ImageWords, NameTable, Loaded, Table, Utf8, HeadWords, LiveNames,
         EndsAt, NeededOf, OfKind, At;
    ImageParts(data, entries, table, size, total);
    EntriesFit(names);
    hide NeedingImage;
    var (a, b) := (ProgramHeader(1, 0, BASE, total, total), ProgramHeader(2, 116, BASE + 116, size, size));
    ImageWordsAre(total, size);
    HeadLoads(data, ImageWords(total, size), a, b);
    var e := Elf(data, 40, 0x0500_0400, [a, b]);
    TableIsEntries(data, b, entries);
    ThreeMore(names);
    EntriesGive(e, names);
    assert OnlyOfKind(e.headers, 2, 1) && e.headers[1].kind == 2;
    assert Needs(e, names);
    NeededIff(e, names);
    InterpreterIff(e);
  }
}
