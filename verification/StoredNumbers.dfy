/** Half words and words of either byte order in byte strings. */
module StoredNumbers {
  import opened Bytes

  ghost predicate HalfAt(data: seq<byte>, at: nat, v: nat) {
    at + 2 <= |data| && v == data[at] as nat + 0x100 * data[at + 1] as nat
  }

  ghost predicate WordAt(data: seq<byte>, at: nat, v: nat) {
    && at + 4 <= |data|
    && v == data[at] as nat + 0x100 * data[at + 1] as nat + 0x1_0000 * data[at + 2] as nat
            + 0x100_0000 * data[at + 3] as nat
  }

  /** The same, most significant byte first. */
  ghost predicate BigWordAt(data: seq<byte>, at: nat, v: nat) {
    && at + 4 <= |data|
    && v == 0x100_0000 * data[at] as nat + 0x1_0000 * data[at + 1] as nat + 0x100 * data[at + 2] as nat
            + data[at + 3] as nat
  }

  lemma BigWordIff(data: seq<byte>, at: nat, v: nat)
    requires at + 4 <= |data|
    ensures ReadBe32(data, at) == v <==> BigWordAt(data, at, v)
  {
  }

  lemma BigWordStands(data: seq<byte>, at: nat, v: nat)
    requires At(data, at, Be32(v)) && v < U32
    ensures BigWordAt(data, at, v)
  {
    hide BigWordAt;
    Be32RoundTrip(v, data, at);
    BigWordIff(data, at, v);
  }

  lemma HalfIff(data: seq<byte>, at: nat, v: nat)
    requires at + 2 <= |data|
    ensures ReadLe16(data, at) == v <==> HalfAt(data, at, v)
  {
  }

  lemma WordIff(data: seq<byte>, at: nat, v: nat)
    requires at + 4 <= |data|
    ensures ReadLe32(data, at) == v <==> WordAt(data, at, v)
  {
  }

  function Le16(v: nat): (b: seq<byte>)
    ensures |b| == 2
  {
    [v % 0x100, v / 0x100 % 0x100]
  }

  function Le32(v: nat): (b: seq<byte>)
    ensures |b| == 4
  {
    Le16(v % U16) + Le16(v / U16)
  }

  lemma HalfStands(data: seq<byte>, at: nat, v: nat)
    requires At(data, at, Le16(v)) && v < U16
    ensures HalfAt(data, at, v)
  {
    assert data[at] == data[at..at + 2][0] && data[at + 1] == data[at..at + 2][1];
  }

  /** The low half word of a word stands before the high one. */
  lemma HalvesStand(data: seq<byte>, at: nat, v: nat)
    requires At(data, at, Le32(v)) && v < U32
    ensures HalfAt(data, at, v % U16) && HalfAt(data, at + 2, v / U16) && WordAt(data, at, v)
  {
    AtSplits(data, at, Le16(v % U16), Le16(v / U16));
    HalfStands(data, at, v % U16);
    HalfStands(data, at + 2, v / U16);
  }

  lemma WordStands(data: seq<byte>, at: nat, v: nat)
    requires At(data, at, Le32(v)) && v < U32
    ensures WordAt(data, at, v)
  {
    HalvesStand(data, at, v);
  }

  // Many words -------------------------------------------------------------------------

  function LittleWords(ws: seq<nat>): (b: seq<byte>)
    ensures |b| == 4 * |ws|
  {
    if ws == [] then [] else Le32(ws[0]) + LittleWords(ws[1..])
  }

  lemma {:induction false} WordsStand(data: seq<byte>, at: nat, ws: seq<nat>, i: nat, here: nat, v: nat)
    requires At(data, at, LittleWords(ws)) && i < |ws| && v == ws[i] && here == at + 4 * i
    ensures At(data, here, Le32(v))
    decreases i
  {
    hide Le32;
    AtSplits(data, at, Le32(ws[0]), LittleWords(ws[1..]));
    if i > 0 {
      WordsStand(data, at + 4, ws[1..], i - 1, here, v);
    }
  }
}
