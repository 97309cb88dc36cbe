/** The structure block of a flattened device tree as a stream of tokens: reading
    them, and the layout that section 5.4 of the Devicetree Specification gives them. */
module FdtTokens {
  import opened Bytes
  import opened Text
  import opened Wrappers

  const BEGIN_NODE: nat := 1
  const END_NODE: nat := 2
  const PROP: nat := 3
  const NOP: nat := 4
  const END: nat := 9

  datatype FdtError =
    | ShortHeader | BadMagic | BadTotalSize | BlockOutOfBounds
    | UnterminatedNodeName | NotText | MoreThanOneRoot | UnbalancedEnd | MisplacedProperty
    | PropertyTooLong | BadStringOffset | UnterminatedString | UnclosedNodes | UnknownToken | Incomplete

  datatype Token = Begin(name: seq<byte>) | End | Prop(name: seq<byte>, value: seq<byte>) | Nop | Finish

  /** A token and the position after it. */
  datatype Lexeme = Lexeme(token: Token, next: nat)

  // Reading --------------------------------------------------------------------

  /** `_string_at`: the NUL-terminated text at an offset of the strings block. */
  function StringAt(strings: seq<byte>, offset: nat): Result<seq<byte>, FdtError> {
    if offset >= |strings| then Err(BadStringOffset)
    else
      match FindNul(strings, offset)
      case None => Err(UnterminatedString)
      case Some(end) => if Utf8(strings[offset..end]) then Ok(strings[offset..end]) else Err(NotText)
  }

  function ReadName(block: seq<byte>, position: nat): (r: Result<Lexeme, FdtError>)
    requires position <= |block|
    ensures r.Ok? ==> r.value.next > position && r.value.token.Begin?
  {
    match FindNul(block, position)
    case None => Err(UnterminatedNodeName)
    case Some(end) =>
      if Utf8(block[position..end]) then Ok(Lexeme(Begin(block[position..end]), Align4(end + 1))) else Err(NotText)
  }

  function ReadProperty(block: seq<byte>, strings: seq<byte>, position: nat): (r: Result<Lexeme, FdtError>)
    requires position <= |block|
    ensures r.Ok? ==> r.value.next > position && r.value.token.Prop?
  {
    if position + 8 > |block| then Err(MisplacedProperty)
    else
      var start := position + 8;
      var end := start + ReadBe32(block, position);
      if end > |block| then Err(PropertyTooLong)
      else
        var name :- StringAt(strings, ReadBe32(block, position + 4));
        Ok(Lexeme(Prop(name, block[start..end]), Align4(end)))
  }

  /** The token at a position; `block` is the data up to the end of the structure
      block, and `inside` says whether a property may stand here. */
  function ReadToken(block: seq<byte>, strings: seq<byte>, position: nat, inside: bool): (r: Result<Lexeme, FdtError>)
    requires position + 4 <= |block|
    ensures r.Ok? ==> r.value.next > position && (r.value.token.Prop? ==> inside)
  {
    var token := ReadBe32(block, position);
    if token == BEGIN_NODE then ReadName(block, position + 4)
    else if token == END_NODE then Ok(Lexeme(End, position + 4))
    else if token == PROP then
      if inside then ReadProperty(block, strings, position + 4) else Err(MisplacedProperty)
    else if token == NOP then Ok(Lexeme(Nop, position + 4))
    else if token == END then Ok(Lexeme(Finish, position + 4))
    else Err(UnknownToken)
  }

  ghost predicate Advances(read: nat -> Result<Lexeme, FdtError>) {
    forall p: nat :: read(p).Ok? ==> read(p).value.next > p
  }

  function Reader(block: seq<byte>, strings: seq<byte>): (read: nat -> Result<Lexeme, FdtError>)
    ensures Advances(read)
  {
    (p: nat) => if p + 4 <= |block| then ReadToken(block, strings, p, true) else Err(Incomplete)
  }

  /** The tokens that a reader gives before the first FDT_END. */
  function LexWith(read: nat -> Result<Lexeme, FdtError>, size: nat, position: nat): Result<seq<Token>, FdtError>
    requires Advances(read)
    decreases size - position
  {
    if position + 4 > size then Err(Incomplete)
    else
      var first :- read(position);
      if first.token == Finish then Ok([])
      else
        var rest :- LexWith(read, size, first.next);
        Ok([first.token] + rest)
  }

  /** The tokens of a structure block. */
  function Lex(block: seq<byte>, strings: seq<byte>, position: nat): Result<seq<Token>, FdtError> {
    LexWith(Reader(block, strings), |block|, position)
  }

  lemma ValueIsSlice(block: seq<byte>, strings: seq<byte>, position: nat)
    requires position + 4 <= |block| && ReadToken(block, strings, position, true).Ok?
    requires ReadToken(block, strings, position, true).value.token.Prop?
    ensures var (start, value) := (position + 12, ReadToken(block, strings, position, true).value.token.value);
      start + |value| <= |block| && value == block[start..start + |value|]
  {
  }

  lemma {:induction false} ValuesFrom(read: nat -> Result<Lexeme, FdtError>, size: nat, position: nat, i: nat)
    returns (at: nat)
    requires Advances(read) && LexWith(read, size, position).Ok? && i < |LexWith(read, size, position).value|
    ensures position <= at && at + 4 <= size && read(at).Ok?
    ensures read(at).value.token == LexWith(read, size, position).value[i]
    decreases size - position
  {
    if i == 0 {
      at := position;
    } else {
      at := ValuesFrom(read, size, read(position).value.next, i - 1);
    }
  }

  /** Every property value is a slice of the structure block. */
  lemma ValuesAreSlices(block: seq<byte>, strings: seq<byte>, position: nat, i: nat) returns (start: nat)
    requires Lex(block, strings, position).Ok? && i < |Lex(block, strings, position).value|
    requires Lex(block, strings, position).value[i].Prop?
    ensures var value := Lex(block, strings, position).value[i].value;
      position + 12 <= start && start + |value| <= |block| && value == block[start..start + |value|]
  {
    hide LexWith, ReadToken;
    var at := ValuesFrom(Reader(block, strings), |block|, position, i);
    ValueIsSlice(block, strings, at);
    start := at + 12;
  }

  // Writing --------------------------------------------------------------------

  /** What the layout can express: NUL-free text names, values of 32-bit length, and
      a property whose name stands at `offset` of the strings block. */
  ghost predicate Writable(t: Token, strings: seq<byte>, offset: nat) {
    match t
    case Begin(name) => 0 !in name && Utf8(name)
    case Prop(name, value) => offset < U32 && |value| < U32 && StringAt(strings, offset) == Ok(name)
    case _ => true
  }

  function TokenBytes(t: Token, offset: nat): seq<byte> {
    match t
    case Begin(name) => Be32(BEGIN_NODE) + Padded(name + [0])
    case End => Be32(END_NODE)
    case Prop(name, value) => Be32(PROP) + (Be32(|value|) + (Be32(offset) + Padded(value)))
    case Nop => Be32(NOP)
    case Finish => Be32(END)
  }

  function Chunks(ts: seq<Token>, offsets: seq<nat>): (c: seq<seq<byte>>)
    requires |offsets| == |ts|
    ensures |c| == |ts| && forall i :: 0 <= i < |ts| ==> c[i] == TokenBytes(ts[i], offsets[i])
  {
    seq(|ts|, i requires 0 <= i < |ts| => TokenBytes(ts[i], offsets[i]))
  }

  /** The tokens in order, each property with the string offset chosen for it, and
      the end of the block. */
  function BlockBytes(ts: seq<Token>, offsets: seq<nat>): seq<byte>
    requires |offsets| == |ts|
  {
    Concat(Chunks(ts, offsets)) + Be32(END)
  }

  lemma NumberAt(block: seq<byte>, position: nat, v: nat)
    requires v < U32 && At(block, position, Be32(v))
    ensures ReadBe32(block, position) == v
  {
    Be32RoundTrip(v, block, position);
  }

  lemma NameAt(block: seq<byte>, position: nat, name: seq<byte>)
    requires 0 !in name && Utf8(name) && At(block, position, name + [0])
    ensures ReadName(block, position) == Ok(Lexeme(Begin(name), Align4(position + |name| + 1)))
  {
    AtSplits(block, position, name, [0]);
    var end := position + |name|;
    assert block[end] == block[end..end + 1][0];
    FirstNul(block, position, end);
  }

  lemma PaddedAt(block: seq<byte>, position: nat, s: seq<byte>, padded: seq<byte>)
    requires position % 4 == 0 && padded == Padded(s) && At(block, position, padded)
    ensures At(block, position, s) && Align4(position + |s|) == position + |padded|
  {
    AtSplits(block, position, s, Zeros(Pad4(|s|)));
    AlignedPads(position, |s|);
  }

  lemma PropertyAt(block: seq<byte>, strings: seq<byte>, position: nat, name: seq<byte>, value: seq<byte>, offset: nat)
    requires position + 8 <= |block| && ReadBe32(block, position) == |value|
    requires ReadBe32(block, position + 4) == offset && StringAt(strings, offset) == Ok(name)
    requires At(block, position + 8, value)
    ensures ReadProperty(block, strings, position) == Ok(Lexeme(Prop(name, value), Align4(position + 8 + |value|)))
  {
  }

  /** A number, and what follows it. */
  lemma NumberFirst(block: seq<byte>, position: nat, v: nat, b: seq<byte>, rest: seq<byte>)
    requires v < U32 && b == Be32(v) + rest && At(block, position, b)
    ensures position + 4 <= |block| && ReadBe32(block, position) == v && At(block, position + 4, rest)
  {
    AtSplits(block, position, Be32(v), rest);
    NumberAt(block, position, v);
  }

  /** A chunk reads as a token wherever it stands aligned. */
  ghost predicate ReadsAs(read: nat -> Result<Lexeme, FdtError>, block: seq<byte>, t: Token, chunk: seq<byte>) {
    && |chunk| % 4 == 0 && |chunk| >= 4
    && forall position: nat :: position % 4 == 0 && At(block, position, chunk) ==>
         read(position) == Ok(Lexeme(t, position + |chunk|))
  }

  lemma BeginAt(block: seq<byte>, strings: seq<byte>, position: nat, name: seq<byte>, padded: seq<byte>)
    requires position + 4 <= |block| && ReadBe32(block, position) == BEGIN_NODE && position % 4 == 0
    requires 0 !in name && Utf8(name) && padded == Padded(name + [0]) && At(block, position + 4, padded)
    ensures ReadToken(block, strings, position, true) == Ok(Lexeme(Begin(name), position + 4 + |padded|))
  {
    hide Padded, Utf8, At, ReadName, Align4;
    PaddedAt(block, position + 4, name + [0], padded);
    NameAt(block, position + 4, name);
  }

  lemma BeginReadsAs(block: seq<byte>, strings: seq<byte>, name: seq<byte>, padded: seq<byte>, chunk: seq<byte>)
    requires 0 !in name && Utf8(name) && padded == Padded(name + [0]) && chunk == Be32(BEGIN_NODE) + padded
    ensures ReadsAs(Reader(block, strings), block, Begin(name), chunk)
  {
    AlignedSum(4, |padded|);
    forall position: nat | position % 4 == 0 && At(block, position, chunk)
      ensures Reader(block, strings)(position) == Ok(Lexeme(Begin(name), position + |chunk|))
    {
      NumberFirst(block, position, BEGIN_NODE, chunk, padded);
      BeginAt(block, strings, position, name, padded);
    }
  }

  lemma PropAt(block: seq<byte>, strings: seq<byte>, position: nat, name: seq<byte>, value: seq<byte>,
               offset: nat, padded: seq<byte>, named: seq<byte>, sized: seq<byte>)
    requires position + 4 <= |block| && ReadBe32(block, position) == PROP && position % 4 == 0
    requires offset < U32 && |value| < U32 && StringAt(strings, offset) == Ok(name) && padded == Padded(value)
    requires named == Be32(offset) + padded && sized == Be32(|value|) + named && At(block, position + 4, sized)
    ensures ReadToken(block, strings, position, true) == Ok(Lexeme(Prop(name, value), position + 12 + |padded|))
  {
    hide Padded, Utf8, At, ReadProperty, Align4, Be32, StringAt;
    NumberFirst(block, position + 4, |value|, sized, named);
    NumberFirst(block, position + 8, offset, named, padded);
    PaddedAt(block, position + 12, value, padded);
    PropertyAt(block, strings, position + 4, name, value, offset);
  }

  lemma PropReadsAs(block: seq<byte>, strings: seq<byte>, name: seq<byte>, value: seq<byte>, offset: nat,
                    padded: seq<byte>, named: seq<byte>, sized: seq<byte>, chunk: seq<byte>)
    requires offset < U32 && |value| < U32 && StringAt(strings, offset) == Ok(name) && padded == Padded(value)
    requires named == Be32(offset) + padded && sized == Be32(|value|) + named && chunk == Be32(PROP) + sized
    ensures ReadsAs(Reader(block, strings), block, Prop(name, value), chunk)
  {
    AlignedSum(12, |padded|);
    forall position: nat | position % 4 == 0 && At(block, position, chunk)
      ensures Reader(block, strings)(position) == Ok(Lexeme(Prop(name, value), position + |chunk|))
    {
      NumberFirst(block, position, PROP, chunk, sized);
      PropAt(block, strings, position, name, value, offset, padded, named, sized);
    }
  }

  lemma BareReadsAs(block: seq<byte>, strings: seq<byte>, t: Token, number: nat, chunk: seq<byte>)
    requires (t == End && number == END_NODE) || (t == Nop && number == NOP) || (t == Finish && number == END)
    requires chunk == Be32(number)
    ensures ReadsAs(Reader(block, strings), block, t, chunk)
  {
    forall position: nat | position % 4 == 0 && At(block, position, chunk)
      ensures Reader(block, strings)(position) == Ok(Lexeme(t, position + |chunk|))
    {
      NumberAt(block, position, number);
    }
  }

  lemma ChunkReadsAs(block: seq<byte>, strings: seq<byte>, t: Token, offset: nat, chunk: seq<byte>)
    requires Writable(t, strings, offset) && chunk == TokenBytes(t, offset)
    ensures ReadsAs(Reader(block, strings), block, t, chunk)
  {
    match t
    case Begin(name) => BeginReadsAs(block, strings, name, Padded(name + [0]), chunk);
    case Prop(name, value) =>
      var named := Be32(offset) + Padded(value);
      PropReadsAs(block, strings, name, value, offset, Padded(value), named, Be32(|value|) + named, chunk);
    case End => BareReadsAs(block, strings, t, END_NODE, chunk);
    case Nop => BareReadsAs(block, strings, t, NOP, chunk);
    case Finish => BareReadsAs(block, strings, t, END, chunk);
  }

  ghost predicate AllWritable(ts: seq<Token>, strings: seq<byte>, offsets: seq<nat>) {
    |offsets| == |ts| && forall i :: 0 <= i < |ts| ==> WritableAt(ts, strings, offsets, i)
  }

  ghost predicate WritableAt(ts: seq<Token>, strings: seq<byte>, offsets: seq<nat>, i: nat)
    requires i < |ts| == |offsets|
  {
    Writable(ts[i], strings, offsets[i]) && ts[i] != Finish
  }

  /** Chunks one after another, and a last one, from a position on. */
  ghost predicate ChunksRead(read: nat -> Result<Lexeme, FdtError>, block: seq<byte>, ts: seq<Token>,
                             chunks: seq<seq<byte>>, last: seq<byte>) {
    && |ts| == |chunks| && ReadsAs(read, block, Finish, last)
    && forall k :: 0 <= k < |ts| ==> ts[k] != Finish && ReadsAs(read, block, ts[k], chunks[k])
  }

  lemma OneToken(read: nat -> Result<Lexeme, FdtError>, block: seq<byte>, position: nat, t: Token, chunk: seq<byte>,
                 rest: seq<byte>)
    requires Advances(read) && position % 4 == 0 && ReadsAs(read, block, t, chunk) && At(block, position, chunk + rest)
    ensures position + 4 <= |block| && (position + |chunk|) % 4 == 0 && At(block, position + |chunk|, rest)
    ensures read(position) == Ok(Lexeme(t, position + |chunk|))
    ensures LexWith(read, |block|, position) ==
            if t == Finish then Ok([])
            else match LexWith(read, |block|, position + |chunk|)
                 case Err(error) => Err(error)
                 case Ok(tokens) => Ok([t] + tokens)
  {
    AtSplits(block, position, chunk, rest);
    AlignedSum(position, |chunk|);
  }

  lemma {:induction false} LexChunks(read: nat -> Result<Lexeme, FdtError>, block: seq<byte>, position: nat,
                                     ts: seq<Token>, chunks: seq<seq<byte>>, last: seq<byte>, i: nat)
    requires Advances(read) && position % 4 == 0 && ChunksRead(read, block, ts, chunks, last) && i <= |ts|
    requires At(block, position, Concat(chunks[i..]) + last)
    ensures LexWith(read, |block|, position) == Ok(ts[i..])
    decreases |ts| - i
  {
    hide Advances, ReadsAs, LexWith, At, Concat;
    if i == |ts| {
      NoChunks(chunks[i..], last);
      OneToken(read, block, position, Finish, last, []);
    } else {
      var rest := Concat(chunks[i + 1..]) + last;
      ConcatStarts(chunks[i..]);
      assert chunks[i..][1..] == chunks[i + 1..];
      assert chunks[i] + Concat(chunks[i + 1..]) + last == chunks[i] + rest;
      OneToken(read, block, position, ts[i], chunks[i], rest);
      LexChunks(read, block, position + |chunks[i]|, ts, chunks, last, i + 1);
      assert ts[i..] == [ts[i]] + ts[i + 1..];
    }
  }

  lemma NoChunks(chunks: seq<seq<byte>>, last: seq<byte>)
    requires chunks == []
    ensures Concat(chunks) + last == last + []
  {
  }

  /** Reading a written block gives back its tokens, whatever follows it and wherever
      in the strings block the names stand. */
  lemma BlockReadBack(block: seq<byte>, strings: seq<byte>, position: nat, ts: seq<Token>, offsets: seq<nat>)
    requires position % 4 == 0 && AllWritable(ts, strings, offsets) && At(block, position, BlockBytes(ts, offsets))
    ensures Lex(block, strings, position) == Ok(ts)
  {
    hide Writable, TokenBytes;
    var (chunks, last, read) := (Chunks(ts, offsets), Be32(END), Reader(block, strings));
    forall k | 0 <= k < |ts| ensures ts[k] != Finish && ReadsAs(read, block, ts[k], chunks[k]) {
      assert WritableAt(ts, strings, offsets, k);
      ChunkReadsAs(block, strings, ts[k], offsets[k], chunks[k]);
    }
    BareReadsAs(block, strings, Finish, END, last);
    hide ReadsAs, At, Concat;
    assert chunks[0..] == chunks && ts[0..] == ts;
    LexChunks(read, block, position, ts, chunks, last, 0);
  }
}
