/** Where a link leads, in terms of its text and the name it stands under, and reading
    through it. */
module SymlinkTargets {
  import opened Bytes
  import opened Newc
  import opened NewcArchive
  import opened Symlinks
  import opened Text
  import opened Wrappers

  // Looking up ---------------------------------------------------------------------

  /** A path names an entry as it is or after one slash, and nothing or one slash is the
      root. */
  lemma LookupIff(path: seq<byte>, name: seq<byte>)
    ensures LookupName(path) == Ok(name) <==>
            || (name == [0x2e] && (path == [] || path == [0x2f]))
            || (ValidName(name) && (path == name || path == [0x2f] + name))
  {
    if ValidName(name) {
      ValidStart(name);
    }
    hide ValidName;
    if path != [] && path[0] == 0x2f {
      assert path == [0x2f] + path[1..];
    }
  }

  lemma ValidStart(name: seq<byte>)
    requires ValidName(name)
    ensures name != [] && name[0] != 0x2f
  {
  }

  /** The file type of a link, bit by bit: 1010 from bit 15 down to bit 12. */
  lemma IsSymlinkIff(e: CpioEntry)
    ensures IsSymlink(e) <==> Bit(e.mode, 15) && !Bit(e.mode, 14) && Bit(e.mode, 13) && !Bit(e.mode, 12)
  {
    var m := e.mode / 0x1000;
    TwelveBits(e.mode, 12);
    TwelveBits(e.mode, 13);
    TwelveBits(e.mode, 14);
    TwelveBits(e.mode, 15);
    BitAfterTwo(m, 2);
    BitAfterTwo(m, 3);
    assert Bit(m, 1) == Bit(m / 2, 0) && Bit(m / 4, 1) == Bit(m / 4 / 2, 0);
    FourBits(m);
  }

  lemma FourBits(m: int)
    ensures m % 16 == 10 <==> m / 4 / 2 % 2 == 1 && m / 4 % 2 == 0 && m / 2 % 2 == 1 && m % 2 == 0
  {
    assert m % 16 == m % 4 + 4 * (m / 4 % 4);
    LastTwo(m);
    LastTwo(m / 4);
  }

  lemma LastTwo(m: int)
    ensures m % 4 == 2 * (m / 2 % 2) + m % 2
  {
  }

  lemma TwelveBits(m: int, i: nat)
    requires i >= 12
    ensures Bit(m, i) == Bit(m / 0x1000, i - 12)
  {
    var (a, b, c) := (m / 4, m / 16, m / 64);
    BitAfterTwo(m, i);
    BitAfterTwo(a, i - 2);
    BitAfterTwo(b, i - 4);
    BitAfterTwo(c, i - 6);
    BitAfterTwo(m / 256, i - 8);
    BitAfterTwo(m / 1024, i - 10);
    assert a / 4 == b && b / 4 == c && c / 4 == m / 256 && m / 256 / 4 == m / 1024 && m / 1024 / 4 == m / 0x1000;
  }

  // Parts --------------------------------------------------------------------------

  lemma {:induction false} DropTrivialJoined(a: seq<seq<byte>>, b: seq<seq<byte>>)
    ensures DropTrivial(a + b) == DropTrivial(a) + DropTrivial(b)
    decreases |a|
  {
    if a == [] {
      assert a + b == b;
    } else {
      assert (a + b)[1..] == a[1..] + b;
      DropTrivialJoined(a[1..], b);
    }
  }

  /** A slash separates parts. */
  lemma PartsJoined(s: seq<byte>, t: seq<byte>)
    ensures Parts(s + [SLASH] + t) == Parts(s) + Parts(t)
  {
    hide Split, DropTrivial;
    SplitJoined(s, t, SLASH);
    DropTrivialJoined(Split(s, SLASH), Split(t, SLASH));
  }

  lemma {:induction false} NothingDropped(parts: seq<seq<byte>>)
    requires forall p :: p in parts ==> !Trivial(p)
    ensures DropTrivial(parts) == parts
    decreases |parts|
  {
    if parts != [] {
      assert parts[0] in parts;
      NothingDropped(parts[1..]);
    }
  }

  lemma PartsOfNormal(parts: seq<seq<byte>>)
    requires AllNormal(parts)
    ensures Parts(Join(parts, SLASH)) == parts
  {
    if parts == [] {
      assert Split([], SLASH) == [[]] && DropTrivial([[]]) == [];
    } else {
      SplitOfJoin(parts, SLASH);
      NothingDropped(parts);
    }
  }

  lemma PartsOfNothing()
    ensures Parts([]) == [] && Parts([0x2e]) == [] && Parts([0x2e, 0x2e]) == [DOTDOT]
  {
    SplitNothing(SLASH);
    SplitWhole([0x2e], SLASH);
    SplitWhole([0x2e, 0x2e], SLASH);
    assert [[0x2e, 0x2e]][1..] == [] && [[0x2e]][1..] == [];
    var none: seq<seq<byte>> := [[]];
    assert none[1..] == [] && DropTrivial(none) == [];
  }

  lemma PartsOfOne(p: seq<byte>)
    requires NormalPart(p)
    ensures Parts(p) == [p]
  {
    SplitWhole(p, SLASH);
    NothingDropped([p]);
  }

  lemma {:induction false} CollapseNormal(done: seq<seq<byte>>, todo: seq<seq<byte>>)
    requires AllNormal(todo)
    ensures Collapse(done, todo) == Ok(done + todo)
    decreases |todo|
  {
    if todo == [] {
      assert done + [] == done;
    } else {
      assert todo[0] in todo;
      CollapseNormal(done + [todo[0]], todo[1..]);
      assert done + [todo[0]] + todo[1..] == done + todo;
    }
  }

  // Targets ------------------------------------------------------------------------

  /** `/`, the text, and nothing from the place of the link. */
  function Absolute(text: seq<byte>): (path: seq<byte>)
    ensures path != [] && path[0] == 0x2f && path[1..] == text
  {
    [0x2f] + text
  }

  /** An absolute target does not depend on where the link stands. */
  lemma AbsoluteAnywhere(name: seq<byte>, other: seq<byte>, text: seq<byte>)
    ensures Target(name, Absolute(text)) == Target(other, Absolute(text))
  {
  }

  lemma AbsoluteParts(name: seq<byte>, text: seq<byte>)
    ensures Utf8(Absolute(text)) <==> Utf8(text)
    ensures Utf8(text) ==>
              Target(name, Absolute(text)) ==
              match Collapse([], Parts(text))
              case Err(error) => Err(error)
              case Ok(parts) => Ok(if parts == [] then [0x2e] else Join(parts, 0x2f))
  {
    hide Split, Collapse, Join;
    assert Absolute(text) == [] + [SLASH] + text;
    Utf8AroundAscii([], SLASH, text);
    PartsJoined([], text);
    PartsOfNothing();
    assert [] + Parts(text) == Parts(text);
    assert [] + Parts(Absolute(text)) == Parts(Absolute(text));
  }

  /** A path of normal parts leads to exactly that path. */
  lemma NormalTarget(name: seq<byte>, parts: seq<seq<byte>>)
    requires parts != [] && AllNormal(parts) && Utf8(Join(parts, 0x2f))
    ensures Target(name, Absolute(Join(parts, 0x2f))) == Ok(Join(parts, 0x2f))
  {
    AbsoluteParts(name, Join(parts, 0x2f));
    PartsOfNormal(parts);
    CollapseNormal([], parts);
    assert [] + parts == parts;
  }

  /** A relative target is taken from the directory that the link stands in. */
  lemma RelativeTarget(dirs: seq<seq<byte>>, base: seq<byte>, text: seq<byte>, other: seq<byte>)
    requires AllNormal(dirs + [base]) && Utf8(Join(dirs, 0x2f)) && (text == [] || text[0] != 0x2f)
    ensures Target(Join(dirs + [base], 0x2f), text) == Target(other, Absolute(Join(dirs, 0x2f) + [0x2f] + text))
  {
    hide Split, Collapse, Join, Utf8;
    var path := Join(dirs, 0x2f) + [SLASH] + text;
    Utf8AroundAscii(Join(dirs, 0x2f), SLASH, text);
    AbsoluteParts(other, path);
    PartsJoined(Join(dirs, 0x2f), text);
    assert forall p :: p in dirs ==> p in dirs + [base];
    PartsOfNormal(dirs);
    PartsOfNormal(dirs + [base]);
    assert ParentParts(Join(dirs + [base], 0x2f)) == dirs;
    NotText(other, path);
  }

  lemma NotText(name: seq<byte>, text: seq<byte>)
    ensures !Utf8(text) ==>
              Target(name, text) == Err(TargetNotUtf8) && Target(name, Absolute(text)) == Err(TargetNotUtf8)
  {
    hide Split;
    AbsoluteParts(name, text);
  }

  /** Texts of the same parts lead to the same place. */
  lemma SameTarget(name: seq<byte>, s: seq<byte>, t: seq<byte>)
    requires Utf8(s) == Utf8(t) && Collapse([], Parts(s)) == Collapse([], Parts(t))
    ensures Target(name, Absolute(s)) == Target(name, Absolute(t))
  {
    hide Parts, Collapse, Join, Utf8, Target;
    AbsoluteParts(name, s);
    AbsoluteParts(name, t);
    NotText(name, s);
    NotText(name, t);
  }

  /** Nothing or a dot between slashes changes nothing. */
  lemma TrivialVanishes(name: seq<byte>, before: seq<byte>, part: seq<byte>, after: seq<byte>)
    requires part == [] || part == [0x2e]
    ensures Target(name, Absolute(before + [0x2f] + (part + [0x2f] + after)))
         == Target(name, Absolute(before + [0x2f] + after))
  {
    hide Parts, Collapse, Utf8, Target;
    PartsOfNothing();
    PartsJoined(before, part + [SLASH] + after);
    PartsJoined(part, after);
    PartsJoined(before, after);
    DotIsText(part);
    Utf8AroundAscii(before, SLASH, part + [SLASH] + after);
    Utf8AroundAscii(part, SLASH, after);
    Utf8AroundAscii(before, SLASH, after);
    assert [] + Parts(after) == Parts(after);
    SameTarget(name, before + [SLASH] + (part + [SLASH] + after), before + [SLASH] + after);
  }

  lemma DotIsText(part: seq<byte>)
    requires part == [] || part == [0x2e] || part == [0x2e, 0x2e]
    ensures Utf8(part)
  {
    AsciiIsText(part);
  }

  /** `part/../after` */
  function UpAgain(part: seq<byte>, after: seq<byte>): seq<byte> {
    part + [0x2f] + ([0x2e, 0x2e] + [0x2f] + after)
  }

  lemma UpAgainParts(part: seq<byte>, after: seq<byte>)
    requires NormalPart(part) && Utf8(part)
    ensures Parts(UpAgain(part, after)) == [part, DOTDOT] + Parts(after) && Utf8(UpAgain(part, after)) == Utf8(after)
  {
    hide Parts, Utf8, NormalPart;
    PartsOfNothing();
    PartsOfOne(part);
    PartsJoined(part, [0x2e, 0x2e] + [SLASH] + after);
    PartsJoined([0x2e, 0x2e], after);
    DotIsText([0x2e, 0x2e]);
    Utf8AroundAscii(part, SLASH, [0x2e, 0x2e] + [SLASH] + after);
    Utf8AroundAscii([0x2e, 0x2e], SLASH, after);
  }

  /** A name and the two dots after it change nothing. */
  lemma ParentVanishes(name: seq<byte>, before: seq<byte>, part: seq<byte>, after: seq<byte>)
    requires NormalPart(part) && Utf8(part)
    ensures Target(name, Absolute(before + [0x2f] + (part + [0x2f] + ([0x2e, 0x2e] + [0x2f] + after))))
         == Target(name, Absolute(before + [0x2f] + after))
  {
    var up := UpAgain(part, after);
    PartIsNotDots(part);
    hide Parts, Collapse, Utf8, NormalPart, Target, UpAgain;
    UpAgainParts(part, after);
    PartsJoined(before, up);
    PartsJoined(before, after);
    Utf8AroundAscii(before, SLASH, up);
    Utf8AroundAscii(before, SLASH, after);
    assert Parts(before) + ([part, DOTDOT] + Parts(after)) == Parts(before) + [part, DOTDOT] + Parts(after);
    NameAndParentCancel([], Parts(before), part, Parts(after));
    SameTarget(name, before + [SLASH] + up, before + [SLASH] + after);
  }

  lemma PartIsNotDots(part: seq<byte>)
    requires NormalPart(part)
    ensures part != DOTDOT
  {
  }

  /** From the root there is nothing to climb to. */
  lemma ClimbingEscapes(name: seq<byte>, after: seq<byte>)
    requires Utf8(after)
    ensures Target(name, Absolute([0x2e, 0x2e] + [0x2f] + after)) == Err(EscapesRoot)
  {
    hide Split, Join, Utf8;
    PartsOfNothing();
    PartsJoined([0x2e, 0x2e], after);
    DotIsText([0x2e, 0x2e]);
    Utf8AroundAscii([0x2e, 0x2e], SLASH, after);
    AbsoluteParts(name, [0x2e, 0x2e] + [SLASH] + after);
    assert ([DOTDOT] + Parts(after))[0] == DOTDOT;
  }

  lemma RootTarget(name: seq<byte>)
    ensures Target(name, [0x2f]) == Ok([0x2e])
  {
    hide Split;
    assert Absolute([]) == [0x2f];
    AbsoluteParts(name, []);
    PartsOfNothing();
  }

  // Reading ------------------------------------------------------------------------

  ghost predicate StepsTo(a: Archive, name: seq<byte>, next: seq<byte>) {
    exists e :: e in a.entries && LookupName(name) == Ok(e.name) && IsSymlink(e) && Target(name, e.data) == Ok(next)
  }

  ghost predicate EndsAt(a: Archive, name: seq<byte>, data: seq<byte>) {
    exists e :: e in a.entries && LookupName(name) == Ok(e.name) && !IsSymlink(e) && e.data == data
  }

  lemma EntryFound(a: Archive, name: seq<byte>, e: CpioEntry)
    requires WellFormed(a) && e in a.entries && LookupName(name) == Ok(e.name)
    ensures EntryAt(a, name) == Ok(e)
  {
    hide LookupName;
    var i :| 0 <= i < |a.entries| && a.entries[i] == e;
    IndexKeys(a.entries);
    IndexOfDistinct(a.entries, i);
  }

  lemma FoundEntry(a: Archive, name: seq<byte>)
    requires WellFormed(a) && EntryAt(a, name).Ok?
    ensures EntryAt(a, name).value in a.entries && LookupName(name) == Ok(EntryAt(a, name).value.name)
  {
    hide LookupName;
    var found := LookupName(name).value;
    IndexKeys(a.entries);
    var e :| e in a.entries && e.name == found;
    var i :| 0 <= i < |a.entries| && a.entries[i] == e;
    IndexOfDistinct(a.entries, i);
  }

  /** A lookup leads on through a link's target, or ends at an entry that is none. */
  lemma HopIff(a: Archive, name: seq<byte>, text: seq<byte>)
    requires WellFormed(a)
    ensures Hops(a)(name) == Next(text) <==> StepsTo(a, name, text)
    ensures Hops(a)(name) == Found(text) <==> EndsAt(a, name, text)
  {
    hide LookupName, Target, WellFormed, EntryAt, IsSymlink;
    assert Hops(a)(name) == HopFrom(a, name);
    forall e | e in a.entries && LookupName(name) == Ok(e.name) ensures EntryAt(a, name) == Ok(e) {
      EntryFound(a, name, e);
    }
    if EntryAt(a, name).Ok? {
      FoundEntry(a, name);
    }
  }

  /** Links in a row, and an entry that is none. */
  ghost predicate LinkChain(a: Archive, names: seq<seq<byte>>, data: seq<byte>) {
    && names != [] && (forall i :: 0 <= i < |names| - 1 ==> StepsTo(a, names[i], names[i + 1]))
    && EndsAt(a, names[|names| - 1], data)
  }

  /** Reading gives data exactly when at most 16 lookups, each of an entry of the archive,
      lead from the path through links to an entry with that data. */
  lemma ReadIffLinks(a: Archive, path: seq<byte>, data: seq<byte>)
    requires WellFormed(a)
    ensures ReadData(a, path) == Ok(data) <==>
            exists names :: LinkChain(a, names, data) && |names| <= 16 && LookupName(path) == Ok(names[0])
  {
    hide Hops, LookupName, StepsTo, EndsAt;
    forall name, text
      ensures Hops(a)(name) == Next(text) <==> StepsTo(a, name, text)
      ensures Hops(a)(name) == Found(text) <==> EndsAt(a, name, text)
    {
      HopIff(a, name, text);
    }
    forall names ensures IsChain(Hops(a), names, data) <==> LinkChain(a, names, data) {
    }
    ReadIffChain(a, path, data);
  }

  lemma EntryRead(a: Archive, e: CpioEntry)
    requires WellFormed(a) && e in a.entries && ValidName(e.name) && !IsSymlink(e)
    ensures ReadData(a, e.name) == Ok(e.data) && ReadData(a, [0x2f] + e.name) == Ok(e.data)
  {
    hide LookupName, ValidName, Target, IsSymlink, LinkChain;
    LookupIff(e.name, e.name);
    LookupIff([0x2f] + e.name, e.name);
    assert EndsAt(a, e.name, e.data);
    OneName(a, e.name, e.data);
    ReadIffLinks(a, e.name, e.data);
    ReadIffLinks(a, [0x2f] + e.name, e.data);
  }

  lemma OneName(a: Archive, name: seq<byte>, data: seq<byte>)
    requires EndsAt(a, name, data)
    ensures LinkChain(a, [name], data)
  {
    hide EndsAt;
  }

  /** A link is read as the entry it leads to. */
  lemma LinkRead(a: Archive, link: CpioEntry, e: CpioEntry)
    requires WellFormed(a) && link in a.entries && e in a.entries && IsSymlink(link) && !IsSymlink(e)
    requires ValidName(link.name) && ValidName(e.name) && Target(link.name, link.data) == Ok(e.name)
    ensures ReadData(a, [0x2f] + link.name) == Ok(e.data)
  {
    hide LookupName, ValidName, Target, IsSymlink, WellFormed;
    LookupIff(link.name, link.name);
    LookupIff([0x2f] + link.name, link.name);
    LookupIff(e.name, e.name);
    assert StepsTo(a, link.name, e.name) && EndsAt(a, e.name, e.data);
    hide StepsTo, EndsAt;
    assert LinkChain(a, [link.name, e.name], e.data);
    ReadIffLinks(a, [0x2f] + link.name, e.data);
  }

  /** A link `there/link` to `../name` is read as the entry `name`, whatever its
      directory. */
  lemma LinkAcross(a: Archive, link: CpioEntry, e: CpioEntry, there: seq<byte>, own: seq<byte>, parts: seq<seq<byte>>)
    requires WellFormed(a) && link in a.entries && e in a.entries && IsSymlink(link) && !IsSymlink(e)
    requires ValidName(link.name) && ValidName(e.name) && AllNormal([there, own]) && AllNormal(parts) && parts != []
    requires Utf8(there) && Utf8(e.name) && link.name == Join([there, own], 0x2f) && e.name == Join(parts, 0x2f)
    requires link.data == [0x2e, 0x2e] + [0x2f] + e.name
    ensures ReadData(a, [0x2f] + link.name) == Ok(e.data)
  {
    hide Utf8, ValidName, LookupName, IsSymlink, WellFormed, Target, Parts, Collapse, Join;
    assert [there] + [own] == [there, own];
    JoinOne(there);
    RelativeTarget([there], own, link.data, []);
    assert there + [0x2f] + link.data == UpAgain(there, e.name);
    assert there in [there, own];
    UpAgainParts(there, e.name);
    PartIsNotDots(there);
    assert [] + [there, DOTDOT] + Parts(e.name) == [there, DOTDOT] + Parts(e.name);
    assert [] + Parts(e.name) == Parts(e.name);
    NameAndParentCancel([], [], there, Parts(e.name));
    SameTarget([], UpAgain(there, e.name), e.name);
    NormalTarget([], parts);
    LinkRead(a, link, e);
  }

  lemma JoinOne(part: seq<byte>)
    ensures Join([part], 0x2f) == part
  {
  }
}
