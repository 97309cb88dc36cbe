/** What stands in a written archive, byte by byte: the fields of every record, the trailer,
    and nothing but zeros between and behind them. */
module NewcWriting {
  import opened Bytes
  import opened Hexadecimal
  import opened Newc
  import opened NewcRoundTrip
  import TextEncoding

  // Eight digits -----------------------------------------------------------------------

  /** A number in eight upper-case hexadecimal digits, the highest first. */
  ghost predicate Spells(h: seq<byte>, v: nat) {
    && |h| == 8 && (forall k :: 0 <= k < 8 ==> exists d: nat :: d < 16 && h[k] == TextEncoding.UPPER[d])
    && v < 0x1_0000_0000
    && v == 0x1000_0000 * D(h, 0) + 0x100_0000 * D(h, 1) + 0x10_0000 * D(h, 2) + 0x1_0000 * D(h, 3)
            + 0x1000 * D(h, 4) + 0x100 * D(h, 5) + 0x10 * D(h, 6) + D(h, 7)
  }

  /** The place of a digit among 0 to 9 and A to F. */
  function D(h: seq<byte>, k: nat): nat
    requires k < |h|
  {
    if 0x30 <= h[k] <= 0x39 then h[k] - 0x30 else if 0x41 <= h[k] <= 0x46 then h[k] - 0x37 else 0
  }

  lemma OneDigit(v: nat, width: nat)
    ensures var (h, s) := (Hex(v / 16, width), Hex(v, width + 1));
      s == h + [TextEncoding.UPPER[v % 16]]
  {
    TextEncoding.DigitsAre(v % 16);
  }

  lemma HexSpells(v: nat)
    requires v < U32
    ensures Spells(Hex(v, 8), v)
  {
    var (a, b, c) := (v / 16, v / 16 / 16, v / 16 / 16 / 16);
    var d := c / 16;
    var (e, f, g) := (d / 16, d / 16 / 16, d / 16 / 16 / 16);
    FourDigits(v, a, b, c, d, 4);
    FourDigits(d, e, f, g, g / 16, 0);
    Sums(v, a, b, c, d, e, f, g);
    hide Hex;
    assert Hex(g / 16, 0) == [];
    EightDigits(Hex(v, 8), g % 16, f % 16, e % 16, d % 16, c % 16, b % 16, a % 16, v % 16);
  }

  lemma FourDigits(v: nat, a: nat, b: nat, c: nat, d: nat, width: nat)
    requires a == v / 16 && b == a / 16 && c == b / 16 && d == c / 16
    ensures var u := TextEncoding.UPPER;
      Hex(v, width + 4) == Hex(d, width) + [u[c % 16], u[b % 16], u[a % 16], u[v % 16]]
  {
    OneDigit(v, width + 3);
    OneDigit(a, width + 2);
    OneDigit(b, width + 1);
    OneDigit(c, width);
    hide Hex;
  }

  lemma EightDigits(h: seq<byte>, d0: nat, d1: nat, d2: nat, d3: nat, d4: nat, d5: nat, d6: nat, d7: nat)
    requires d0 < 16 && d1 < 16 && d2 < 16 && d3 < 16 && d4 < 16 && d5 < 16 && d6 < 16 && d7 < 16
    requires var u := TextEncoding.UPPER;
      h == [u[d0], u[d1], u[d2], u[d3]] + [u[d4], u[d5], u[d6], u[d7]]
    ensures |h| == 8 && forall k :: 0 <= k < 8 ==> exists d: nat :: d < 16 && h[k] == TextEncoding.UPPER[d]
    ensures D(h, 0) == d0 && D(h, 1) == d1 && D(h, 2) == d2 && D(h, 3) == d3
    ensures D(h, 4) == d4 && D(h, 5) == d5 && D(h, 6) == d6 && D(h, 7) == d7
  {
    DigitPlaces();
    hide D;
    var u := TextEncoding.UPPER;
    assert h[0] == u[d0] && h[1] == u[d1] && h[2] == u[d2] && h[3] == u[d3];
    assert h[4] == u[d4] && h[5] == u[d5] && h[6] == u[d6] && h[7] == u[d7];
    DigitPlace(h, 0, d0);
    DigitPlace(h, 1, d1);
    DigitPlace(h, 2, d2);
    DigitPlace(h, 3, d3);
    DigitPlace(h, 4, d4);
    DigitPlace(h, 5, d5);
    DigitPlace(h, 6, d6);
    DigitPlace(h, 7, d7);
  }

  lemma DigitPlaces()
    ensures forall d: nat :: d < 16 ==> TextEncoding.UPPER[d] == if d < 10 then 0x30 + d else 0x37 + d
  {
  }

  lemma DigitPlace(h: seq<byte>, k: nat, d: nat)
    requires k < |h| && d < 16 && h[k] == TextEncoding.UPPER[d]
    ensures D(h, k) == d
  {
    DigitPlaces();
  }

  lemma Sums(v: nat, a: nat, b: nat, c: nat, d: nat, e: nat, f: nat, g: nat)
    requires v < U32 && a == v / 16 && b == a / 16 && c == b / 16 && d == c / 16 && e == d / 16 && f == e / 16
    requires g == f / 16
    ensures v == 0x1000_0000 * (g % 16) + 0x100_0000 * (f % 16) + 0x10_0000 * (e % 16) + 0x1_0000 * (d % 16)
                 + 0x1000 * (c % 16) + 0x100 * (b % 16) + 0x10 * (a % 16) + v % 16
  {
    FourSixteenths(v, a, b, c, d);
    FourSixteenths(d, e, f, g, g / 16);
  }

  lemma FourSixteenths(v: nat, a: nat, b: nat, c: nat, d: nat)
    requires a == v / 16 && b == a / 16 && c == b / 16 && d == c / 16
    ensures v == 0x1_0000 * d + 0x1000 * (c % 16) + 0x100 * (b % 16) + 0x10 * (a % 16) + v % 16
    ensures v < U32 ==> d < 0x1_0000
    ensures v < 0x1_0000 ==> d == 0
  {
    Sixteenth(v);
    Sixteenth(a);
    Sixteenth(b);
    Sixteenth(c);
  }

  lemma Sixteenth(v: nat)
    ensures v == 16 * (v / 16) + v % 16
  {
  }

  // Records ----------------------------------------------------------------------------

  /** Field `k` of the thirteen spells this number. */
  ghost predicate Field(image: seq<byte>, offset: nat, k: nat, v: int) {
    && offset + 6 + 8 * k + 8 <= |image| && v >= 0
    && Spells(image[offset + 6 + 8 * k..offset + 6 + 8 * k + 8], v)
  }

  ghost predicate ZerosTo(image: seq<byte>, from: nat, until: nat) {
    from <= until <= |image| && forall i :: from <= i < until ==> image[i] == 0
  }

  ghost predicate Aligned(end: nat, next: nat) {
    next % 4 == 0 && end <= next < end + 4
  }

  /** The magic, the fields, the terminated name and the data, each padded with zeros to
      a multiple of four. */
  ghost predicate RecordStands(image: seq<byte>, offset: nat, e: CpioEntry, data: nat, next: nat) {
    && At(image, offset, [0x30, 0x37, 0x30, 0x37, 0x30, 0x31])
    && Field(image, offset, 0, e.inode) && Field(image, offset, 1, e.mode) && Field(image, offset, 2, e.uid)
    && Field(image, offset, 3, e.gid) && Field(image, offset, 4, e.nlink) && Field(image, offset, 5, e.mtime)
    && Field(image, offset, 6, |e.data|) && Field(image, offset, 7, e.devMajor) && Field(image, offset, 8, e.devMinor)
    && Field(image, offset, 9, e.rdevMajor) && Field(image, offset, 10, e.rdevMinor)
    && Field(image, offset, 11, |e.name| + 1) && Field(image, offset, 12, 0)
    && At(image, offset + 110, e.name) && ZerosTo(image, offset + 110 + |e.name|, data)
    && Aligned(offset + 110 + |e.name| + 1, data)
    && At(image, data, e.data) && ZerosTo(image, data + |e.data|, next) && Aligned(data + |e.data|, next)
  }

  lemma FieldBytes(image: seq<byte>, from: nat, fields: seq<byte>, start: nat, h: seq<byte>, at: nat)
    requires At(image, from, fields) && start + 8 <= |fields| && fields[start..start + 8] == h && at == from + start
    ensures at + 8 <= |image| && image[at..at + 8] == h
  {
    PartOfPart(image, from, fields, start, start + 8);
  }

  lemma FieldStands(image: seq<byte>, offset: nat, values: seq<int>, k: nat)
    requires (forall j :: 0 <= j < |values| ==> Fits(values[j])) && k < |values|
    requires At(image, offset + 6, HexFields(values))
    ensures Field(image, offset, k, values[k])
  {
    hide Hex, Spells, HexFields, At, Field;
    var (at, v) := (offset + 6 + 8 * k, values[k]);
    HexFieldAt(values, k);
    HexSpells(v);
    FieldBytes(image, offset + 6, HexFields(values), 8 * k, Hex(v, 8), at);
    FieldIs(image, offset, k, v, at, Hex(v, 8));
  }

  lemma FieldIs(image: seq<byte>, offset: nat, k: nat, v: int, at: nat, h: seq<byte>)
    requires at == offset + 6 + 8 * k && at + 8 <= |image| && image[at..at + 8] == h && v >= 0 && Spells(h, v)
    ensures Field(image, offset, k, v)
  {
    hide Spells;
  }

  lemma PartOfPart(image: seq<byte>, from: nat, part: seq<byte>, a: nat, b: nat)
    requires At(image, from, part) && a <= b <= |part|
    ensures from + b <= |image| && image[from + a..from + b] == part[a..b]
  {
    var w := image[from..from + |part|];
    SliceOfSlice(image, from, from + |part|, a, b);
  }

  lemma ZerosStand(image: seq<byte>, from: nat, n: nat)
    requires At(image, from, Zeros(n))
    ensures ZerosTo(image, from, from + n)
  {
    forall i | from <= i < from + n ensures image[i] == 0 {
      assert image[i] == image[from..from + n][i - from];
    }
  }

  lemma RecordIsWritten(image: seq<byte>, offset: nat, e: CpioEntry, data: nat, next: nat)
    requires Encodable(e) && At(image, offset, RecordBytes(e)) && offset % 4 == 0
    requires data == offset + |Padded(RecordStart(e))| && next == offset + |RecordBytes(e)|
    ensures RecordStands(image, offset, e, data, next)
  {
    hide Padded, HexFields, Field, ZerosTo, At, Fits, Pad4, Zeros;
    EncodableMeansFits(e);
    var values := HeaderValues(e);
    var start := RecordStart(e);
    AtSplits(image, offset, Padded(start), Padded(e.data));
    PaddedStands(image, offset, start);
    PaddedStands(image, data, e.data);
    AtSplits(image, offset, MAGIC + HexFields(values), e.name + [0]);
    AtSplits(image, offset, MAGIC, HexFields(values));
    AtSplits(image, offset + 110, e.name, [0]);
    Terminated(image, offset + 110 + |e.name|, data);
    forall k: nat | k < 13 ensures Field(image, offset, k, values[k]) {
      FieldStands(image, offset, values, k);
    }
    FieldsOf(image, offset, e, values);
  }

  lemma FieldsOf(image: seq<byte>, offset: nat, e: CpioEntry, values: seq<int>)
    requires values == HeaderValues(e) && forall k: nat :: k < 13 ==> Field(image, offset, k, values[k])
    ensures Field(image, offset, 0, e.inode) && Field(image, offset, 1, e.mode) && Field(image, offset, 2, e.uid)
    ensures Field(image, offset, 3, e.gid) && Field(image, offset, 4, e.nlink) && Field(image, offset, 5, e.mtime)
    ensures Field(image, offset, 6, |e.data|) && Field(image, offset, 7, e.devMajor)
    ensures Field(image, offset, 8, e.devMinor) && Field(image, offset, 9, e.rdevMajor)
    ensures Field(image, offset, 10, e.rdevMinor) && Field(image, offset, 11, |e.name| + 1)
    ensures Field(image, offset, 12, 0)
  {
    hide Field;
    var v := values;
    assert v[0] == e.inode && v[1] == e.mode && v[2] == e.uid && v[3] == e.gid && v[4] == e.nlink;
    assert v[5] == e.mtime && v[6] == |e.data| && v[7] == e.devMajor && v[8] == e.devMinor;
    assert v[9] == e.rdevMajor && v[10] == e.rdevMinor && v[11] == |e.name| + 1 && v[12] == 0;
  }

  lemma PaddedStands(image: seq<byte>, offset: nat, s: seq<byte>)
    requires At(image, offset, Padded(s)) && offset % 4 == 0
    ensures At(image, offset, s) && ZerosTo(image, offset + |s|, offset + |Padded(s)|)
    ensures Aligned(offset + |s|, offset + |Padded(s)|)
  {
    hide ZerosTo, Zeros;
    AtSplits(image, offset, s, Zeros(Pad4(|s|)));
    ZerosStand(image, offset + |s|, Pad4(|s|));
  }

  lemma Terminated(image: seq<byte>, at: nat, end: nat)
    requires At(image, at, [0]) && ZerosTo(image, at + 1, end)
    ensures ZerosTo(image, at, end)
  {
    assert image[at] == image[at..at + 1][0];
  }

  // The whole image ------------------------------------------------------------------------

  /** The trailer: a record of its name alone, with one link, under the inode number
      after the largest one. */
  ghost predicate IsTrailer(e: CpioEntry, entries: seq<CpioEntry>) {
    && e.name == [0x54, 0x52, 0x41, 0x49, 0x4c, 0x45, 0x52] + [0x21, 0x21, 0x21] && e.data == [] && e.nlink == 1
    && e.mode == e.uid == e.gid == e.mtime == 0 && e.devMajor == e.devMinor == e.rdevMajor == e.rdevMinor == 0
    && if entries == [] then e.inode == 1
       else (forall i :: 0 <= i < |entries| ==> entries[i].inode < e.inode)
            && exists i :: 0 <= i < |entries| && entries[i].inode + 1 == e.inode
  }

  /** Records one after another from the start, the trailer, and zeros up to the next
      multiple of 512. */
  ghost predicate Stands(image: seq<byte>, entries: seq<CpioEntry>, trailer: CpioEntry, starts: seq<nat>,
                         datas: seq<nat>)
  {
    var n := |entries|;
    && |starts| == n + 2 && |datas| == n + 1 && starts[0] == 0
    && (forall i :: 0 <= i < n ==> RecordStands(image, starts[i], entries[i], datas[i], starts[i + 1]))
    && IsTrailer(trailer, entries) && RecordStands(image, starts[n], trailer, datas[n], starts[n + 1])
    && |image| % 512 == 0 && starts[n + 1] <= |image| < starts[n + 1] + 512 && ZerosTo(image, starts[n + 1], |image|)
  }

  lemma EntryIsWritten(image: seq<byte>, entries: seq<CpioEntry>, i: nat, offset: nat, data: nat, next: nat)
    requires AllEncodable(entries) && Records(entries) <= image && i < |entries|
    requires offset == |Records(entries[..i])| && next == |Records(entries[..i + 1])|
    requires data == offset + |Padded(RecordStart(entries[i]))|
    ensures RecordStands(image, offset, entries[i], data, next)
  {
    hide RecordBytes, RecordStart, Encodable, Records, RecordStands, Padded;
    RecordsGrow(entries, i);
    RecordsPrefix(entries, i + 1);
    PrefixAt(image, Records(entries[..i]), RecordBytes(entries[i]), Records(entries[..i + 1]));
    RecordIsWritten(image, offset, entries[i], data, next);
  }

  lemma TrailerIs(entries: seq<CpioEntry>)
    ensures IsTrailer(TrailerEntry(MaxInode(entries) + 1), entries)
  {
    assert TRAILER == [0x54, 0x52, 0x41, 0x49, 0x4c, 0x45, 0x52] + [0x21, 0x21, 0x21];
    if entries == [] {
      assert MaxInode(entries) == 0;
    } else {
      hide MaxInode;
      MaxInodeIsGreatest(entries);
    }
  }

  /** Exactly what is written. */
  lemma ImageStands(entries: seq<CpioEntry>) returns (trailer: CpioEntry, starts: seq<nat>, datas: seq<nat>)
    requires Writable(entries)
    ensures Stands(ImageBytes(entries), entries, trailer, starts, datas)
  {
    hide Encodable, Records, RecordBytes, RecordStart, RecordStands, Padded, IsTrailer, MaxInode, TrailerEntry, Zeros;
    var (image, n) := (ImageBytes(entries), |entries|);
    trailer := TrailerEntry(MaxInode(entries) + 1);
    TrailerIs(entries);
    var (records, last) := (Records(entries), RecordBytes(trailer));
    var offsets := Offsets(entries);
    starts := offsets + [|records| + |last|];
    datas := seq(n, i requires 0 <= i < n => offsets[i] + |Padded(RecordStart(entries[i]))|)
             + [|records| + |Padded(RecordStart(trailer))|];
    assert entries[..n] == entries && entries[..0] == [];
    assert records + last <= image && records <= image;
    forall i | 0 <= i < n ensures RecordStands(image, starts[i], entries[i], datas[i], starts[i + 1]) {
      EntryIsWritten(image, entries, i, starts[i], datas[i], starts[i + 1]);
    }
    PrefixAt(image, records, last, records + last);
    RecordIsWritten(image, |records|, trailer, datas[n], |records| + |last|);
    PadIsZeros(image, records + last);
    NothingWritten(entries);
  }

  lemma NothingWritten(entries: seq<CpioEntry>)
    requires AllEncodable(entries)
    ensures Records(entries[..0]) == []
  {
  }

  lemma PadIsZeros(image: seq<byte>, s: seq<byte>)
    requires image == BlockPadded(s)
    ensures |s| <= |image| < |s| + 512 && ZerosTo(image, |s|, |image|)
  {
    assert image == s + Zeros(Pad512(|s|));
    forall i | |s| <= i < |image| ensures image[i] == 0 {
      assert image[i] == Zeros(Pad512(|s|))[i - |s|];
    }
  }
}
