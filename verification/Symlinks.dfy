/** Reading through symbolic links: lexical normalisation of targets, and the
    bounded loop as a refinement of following a chain of names. */
module Symlinks {
  import opened Bytes
  import opened Newc
  import opened NewcArchive
  import opened Text
  import opened Wrappers

  const MAX_LOOKUPS: nat := 16

  // Lookup names ---------------------------------------------------------------

  /** `_lookup_name`: the empty path and `/` are the root; one leading slash is dropped. */
  function LookupName(path: seq<byte>): Result<seq<byte>, LookupError> {
    if path == [] || path == [SLASH] then Ok([DOT])
    else
      var rest := if path[0] == SLASH then path[1..] else path;
      if path[0] == SLASH && rest[0] == SLASH then Err(UnsafePath)
      else if ValidName(rest) then Ok(rest)
      else Err(UnsafePath)
  }

  function EntryAt(a: Archive, path: seq<byte>): Result<CpioEntry, LookupError> {
    var name :- LookupName(path);
    if name in a.byName then Ok(a.byName[name]) else Err(Missing)
  }

  predicate IsSymlink(e: CpioEntry) {
    e.mode / 0x1000 % 16 == 10
  }

  // Lexical normalisation ------------------------------------------------------

  predicate Trivial(part: seq<byte>) {
    part == [] || part == [DOT]
  }

  const DOTDOT: seq<byte> := [DOT, DOT]

  function DropTrivial(parts: seq<seq<byte>>): (r: seq<seq<byte>>)
    ensures forall p :: p in r <==> p in parts && !Trivial(p)
  {
    if parts == [] then []
    else (if Trivial(parts[0]) then [] else [parts[0]]) + DropTrivial(parts[1..])
  }

  /** The parts of a POSIX path: empty and `.` components do not count. */
  function Parts(path: seq<byte>): seq<seq<byte>> {
    DropTrivial(Split(path, SLASH))
  }

  function ParentParts(name: seq<byte>): seq<seq<byte>> {
    var parts := Parts(name);
    if parts == [] then [] else parts[..|parts| - 1]
  }

  /** Cancels each `..` against the name before it; an unmatched one is an error. */
  function Collapse(done: seq<seq<byte>>, todo: seq<seq<byte>>): Result<seq<seq<byte>>, LookupError>
    decreases |todo|
  {
    if todo == [] then Ok(done)
    else if todo[0] == DOTDOT then
      if done == [] then Err(EscapesRoot) else Collapse(done[..|done| - 1], todo[1..])
    else Collapse(done + [todo[0]], todo[1..])
  }

  /** The name a symlink leads to: from the root if absolute, else from its directory. */
  function Target(name: seq<byte>, data: seq<byte>): Result<seq<byte>, LookupError> {
    if !Utf8(data) then Err(TargetNotUtf8)
    else
      var base := if data != [] && data[0] == SLASH then [] else ParentParts(name);
      var parts :- Collapse([], base + Parts(data));
      Ok(if parts == [] then [DOT] else Join(parts, SLASH))
  }

  // Following a chain ----------------------------------------------------------

  datatype Hop = Found(data: seq<byte>) | Next(name: seq<byte>) | Failed(error: LookupError)

  /** One lookup: an entry's data, the next name, or a failure. */
  function HopFrom(a: Archive, name: seq<byte>): Hop {
    match EntryAt(a, name)
    case Err(error) => Failed(error)
    case Ok(e) =>
      if !IsSymlink(e) then Found(e.data)
      else
        match Target(name, e.data)
        case Err(error) => Failed(error)
        case Ok(next) => Next(next)
  }

  function Hops(a: Archive): seq<byte> -> Hop {
    (name: seq<byte>) => HopFrom(a, name)
  }

  /** At most `fuel` lookups from `name`, with no memory of where it has been. */
  function Resolve(hop: seq<byte> -> Hop, name: seq<byte>, fuel: nat): Result<seq<byte>, LookupError>
    decreases fuel
  {
    if fuel == 0 then Err(DepthExceeded)
    else
      match hop(name)
      case Found(data) => Ok(data)
      case Failed(error) => Err(error)
      case Next(next) => Resolve(hop, next, fuel - 1)
  }

  /** Each name leads to the one after it, and the last is an entry with `data`. */
  ghost predicate IsChain(hop: seq<byte> -> Hop, names: seq<seq<byte>>, data: seq<byte>) {
    && names != []
    && (forall i :: 0 <= i < |names| - 1 ==> hop(names[i]) == Next(names[i + 1]))
    && hop(names[|names| - 1]) == Found(data)
  }

  lemma {:induction false} ChainResolves(hop: seq<byte> -> Hop, names: seq<seq<byte>>, data: seq<byte>, fuel: nat)
    requires IsChain(hop, names, data) && |names| <= fuel
    ensures Resolve(hop, names[0], fuel) == Ok(data)
    decreases |names|
  {
    if |names| > 1 {
      ChainResolves(hop, names[1..], data, fuel - 1);
    }
  }

  lemma {:induction false} ResolvedChain(hop: seq<byte> -> Hop, name: seq<byte>, fuel: nat)
    returns (names: seq<seq<byte>>)
    requires Resolve(hop, name, fuel).Ok?
    ensures |names| <= fuel && IsChain(hop, names, Resolve(hop, name, fuel).value) && names[0] == name
    decreases fuel
  {
    match hop(name)
    case Found(data) =>
      names := [name];
    case Next(next) =>
      var rest := ResolvedChain(hop, next, fuel - 1);
      names := [name] + rest;
  }

  /** `n` hops from `name` all lead on, and end at `last`. */
  ghost predicate Leads(hop: seq<byte> -> Hop, names: seq<seq<byte>>) {
    forall i :: 0 <= i < |names| - 1 ==> hop(names[i]) == Next(names[i + 1])
  }

  lemma {:induction false} LeadsOn(hop: seq<byte> -> Hop, names: seq<seq<byte>>, fuel: nat)
    requires names != [] && Leads(hop, names)
    requires Resolve(hop, names[0], fuel).Ok?
    ensures |names| <= fuel && Resolve(hop, names[|names| - 1], fuel - (|names| - 1)).Ok?
    decreases |names|
  {
    if |names| > 1 {
      LeadsOn(hop, names[1..], fuel - 1);
    }
  }

  /** A name that leads back to itself never resolves, however many lookups are allowed. */
  lemma {:induction false} CycleNeverResolves(hop: seq<byte> -> Hop, names: seq<seq<byte>>, fuel: nat)
    requires |names| > 1 && Leads(hop, names) && names[0] == names[|names| - 1]
    ensures Resolve(hop, names[0], fuel).Err?
    decreases fuel
  {
    if Resolve(hop, names[0], fuel).Ok? {
      LeadsOn(hop, names, fuel);
      CycleNeverResolves(hop, names, fuel - (|names| - 1));
    }
  }

  // The reader -----------------------------------------------------------------

  ghost predicate TrailOf(hop: seq<byte> -> Hop, trail: seq<seq<byte>>, seen: set<seq<byte>>) {
    trail != [] && Leads(hop, trail) && (forall n :: n in seen <==> n in trail[..|trail| - 1])
  }

  /** Links lead from `start` to a name that was passed on the way. */
  ghost predicate Loops(hop: seq<byte> -> Hop, start: seq<byte>) {
    exists trail ::
      trail != [] && trail[0] == start && Leads(hop, trail) && trail[|trail| - 1] in trail[..|trail| - 1]
  }

  lemma RevisitFails(hop: seq<byte> -> Hop, trail: seq<seq<byte>>, fuel: nat)
    requires trail != [] && Leads(hop, trail) && trail[|trail| - 1] in trail[..|trail| - 1]
    ensures Resolve(hop, trail[|trail| - 1], fuel).Err? && Loops(hop, trail[0])
  {
    var n := |trail| - 1;
    var i :| 0 <= i < n && trail[..n][i] == trail[n];
    var cycle := trail[i..];
    assert forall j :: 0 <= j < |cycle| ==> cycle[j] == trail[i + j];
    CycleNeverResolves(hop, cycle, fuel);
  }

  lemma TrailStarts(hop: seq<byte> -> Hop, start: seq<byte>)
    ensures TrailOf(hop, [start], {})
  {
  }

  lemma TrailGrows(hop: seq<byte> -> Hop, trail: seq<seq<byte>>, seen: set<seq<byte>>, next: seq<byte>)
    requires TrailOf(hop, trail, seen) && trail != [] && hop(trail[|trail| - 1]) == Next(next)
    ensures TrailOf(hop, trail + [next], seen + {trail[|trail| - 1]})
  {
    assert (trail + [next])[..|trail|] == trail[..|trail| - 1] + [trail[|trail| - 1]];
  }

  lemma Revisits(hop: seq<byte> -> Hop, trail: seq<seq<byte>>, seen: set<seq<byte>>, fuel: nat)
    requires TrailOf(hop, trail, seen) && trail != [] && trail[|trail| - 1] in seen
    ensures Resolve(hop, trail[|trail| - 1], fuel).Err? && Loops(hop, trail[0])
  {
    RevisitFails(hop, trail, fuel);
  }

  /** `read` with links followed: the loop of at most 16 lookups and its set of
      names already seen. It agrees with plain resolution except that a loop, when
      there is one, is reported as such instead of running out of lookups. */
  method Follow(a: Archive, start: seq<byte>) returns (result: Result<seq<byte>, LookupError>)
    ensures result == Resolve(Hops(a), start, MAX_LOOKUPS)
         || (result == Err(SymlinkLoop) && Resolve(Hops(a), start, MAX_LOOKUPS).Err? && Loops(Hops(a), start))
  {
    hide EntryAt, Target, IsSymlink, Loops, TrailOf;
    var normalized := start;
    var seen: set<seq<byte>> := {};
    ghost var hop := Hops(a);
    ghost var trail := [start];
    TrailStarts(hop, start);
    var i := 0;
    while i < MAX_LOOKUPS
      invariant 0 <= i <= MAX_LOOKUPS
      invariant TrailOf(hop, trail, seen) && trail != [] && trail[0] == start && trail[|trail| - 1] == normalized
      invariant Resolve(hop, normalized, MAX_LOOKUPS - i) == Resolve(hop, start, MAX_LOOKUPS)
    {
      assert hop(normalized) == HopFrom(a, normalized);
      var entry := EntryAt(a, normalized);
      if entry.Err? {
        return Err(entry.error);
      }
      if !IsSymlink(entry.value) {
        return Ok(entry.value.data);
      }
      if normalized in seen {
        Revisits(hop, trail, seen, MAX_LOOKUPS - i);
        return Err(SymlinkLoop);
      }
      var target := Target(normalized, entry.value.data);
      if target.Err? {
        return Err(target.error);
      }
      TrailGrows(hop, trail, seen, target.value);
      seen := seen + {normalized};
      normalized := target.value;
      trail := trail + [normalized];
      i := i + 1;
    }
    return Err(DepthExceeded);
  }

  function ReadData(a: Archive, path: seq<byte>): Result<seq<byte>, LookupError> {
    var name :- LookupName(path);
    Resolve(Hops(a), name, MAX_LOOKUPS)
  }

  predicate Contains(a: Archive, path: seq<byte>) {
    ReadData(a, path).Ok?
  }

  method Read(a: Archive, path: seq<byte>, followSymlinks: bool) returns (result: Result<seq<byte>, LookupError>)
    ensures followSymlinks ==>
              result == ReadData(a, path)
              || (result == Err(SymlinkLoop) && ReadData(a, path).Err?
                  && LookupName(path).Ok? && Loops(Hops(a), LookupName(path).value))
    ensures !followSymlinks ==>
              match EntryAt(a, path) { case Ok(e) => result == Ok(e.data) case Err(error) => result == Err(error) }
  {
    var name := LookupName(path);
    if name.Err? {
      return Err(name.error);
    }
    if followSymlinks {
      result := Follow(a, name.value);
    } else {
      var entry := EntryAt(a, path);
      return match entry case Ok(e) => Ok(e.data) case Err(error) => Err(error);
    }
  }

  /** Reading succeeds exactly when a chain of at most 16 lookups, each link leading
      to its normalised target, starts at the path and ends at an entry that is not
      a link; the result is that entry's data. */
  lemma ReadIffChain(a: Archive, path: seq<byte>, data: seq<byte>)
    ensures ReadData(a, path) == Ok(data) <==>
      && LookupName(path).Ok?
      && exists names :: |names| <= MAX_LOOKUPS && IsChain(Hops(a), names, data) && names[0] == LookupName(path).value
  {
    if LookupName(path).Ok? {
      var start := LookupName(path).value;
      if ReadData(a, path) == Ok(data) {
        var names := ResolvedChain(Hops(a), start, MAX_LOOKUPS);
      }
      forall names | |names| <= MAX_LOOKUPS && IsChain(Hops(a), names, data) && names[0] == start
        ensures ReadData(a, path) == Ok(data)
      {
        ChainResolves(Hops(a), names, data, MAX_LOOKUPS);
      }
    }
  }

  lemma LedIntoCycle(hop: seq<byte> -> Hop, names: seq<seq<byte>>, i: nat, fuel: nat)
    requires Leads(hop, names) && i < |names| - 1 && names[i] == names[|names| - 1]
    ensures Resolve(hop, names[0], fuel).Err?
  {
    if Resolve(hop, names[0], fuel).Ok? {
      var stem := names[..i + 1];
      LeadsOn(hop, stem, fuel);
      var cycle := names[i..];
      assert forall j :: 0 <= j < |cycle| ==> cycle[j] == names[i + j];
      CycleNeverResolves(hop, cycle, fuel - i);
    }
  }

  /** A cycle that the path leads into, at any distance, makes the read fail. */
  lemma ReachableCycleFails(a: Archive, path: seq<byte>, names: seq<seq<byte>>, i: nat)
    requires names != [] && LookupName(path) == Ok(names[0])
    requires Leads(Hops(a), names) && i < |names| - 1 && names[i] == names[|names| - 1]
    ensures ReadData(a, path).Err?
  {
    LedIntoCycle(Hops(a), names, i, MAX_LOOKUPS);
  }

  // What normalisation means ---------------------------------------------------

  predicate NormalPart(p: seq<byte>) {
    !Trivial(p) && p != DOTDOT && SLASH !in p
  }

  /** The root, or slash-separated parts none of which is empty, `.` or `..`. */
  ghost predicate NormalName(name: seq<byte>) {
    name == [DOT] || forall p :: p in Split(name, SLASH) ==> NormalPart(p)
  }

  ghost predicate AllNormal(parts: seq<seq<byte>>) {
    forall p :: p in parts ==> NormalPart(p)
  }

  lemma {:induction false} CollapseIsNormal(done: seq<seq<byte>>, todo: seq<seq<byte>>)
    requires AllNormal(done) && forall p :: p in todo ==> !Trivial(p) && SLASH !in p
    requires Collapse(done, todo).Ok?
    ensures AllNormal(Collapse(done, todo).value)
    decreases |todo|
  {
    if todo != [] {
      assert todo[0] in todo;
      if todo[0] == DOTDOT {
        CollapseIsNormal(done[..|done| - 1], todo[1..]);
      } else {
        CollapseIsNormal(done + [todo[0]], todo[1..]);
      }
    }
  }

  lemma PartsAreSlashFree(path: seq<byte>)
    ensures forall p :: p in Parts(path) ==> !Trivial(p) && SLASH !in p
  {
    SplitPartsAreFree(path, SLASH);
  }

  /** Every name a link leads to is normalised. */
  lemma TargetIsNormal(name: seq<byte>, data: seq<byte>)
    requires Target(name, data).Ok?
    ensures NormalName(Target(name, data).value)
  {
    var base := if data != [] && data[0] == SLASH then [] else ParentParts(name);
    PartsAreSlashFree(name);
    PartsAreSlashFree(data);
    var todo := base + Parts(data);
    assert forall p :: p in base ==> p in Parts(name);
    CollapseIsNormal([], todo);
    var parts := Collapse([], todo).value;
    if parts != [] {
      SplitOfJoin(parts, SLASH);
    }
  }

  /** Every name on the way to the data, and the last one too, is an entry of the
      archive with a valid name; every link passed was followed to a normalised name. */
  lemma ChainStaysInside(a: Archive, names: seq<seq<byte>>, data: seq<byte>, i: nat)
    requires WellFormed(a) && IsChain(Hops(a), names, data) && i < |names|
    ensures LookupName(names[i]).Ok? && LookupName(names[i]).value in a.byName
    ensures i > 0 ==> NormalName(names[i])
  {
    assert HopFrom(a, names[i]) == Hops(a)(names[i]);
    assert i < |names| - 1 ==> Hops(a)(names[i]) == Next(names[i + 1]);
    assert EntryAt(a, names[i]).Ok?;
    if i > 0 {
      var name := names[i - 1];
      assert HopFrom(a, name) == Hops(a)(name) == Next(names[i]);
      TargetIsNormal(name, EntryAt(a, name).value.data);
    }
  }

  function Ups(parts: seq<seq<byte>>): nat {
    if parts == [] then 0 else (if parts[0] == DOTDOT then 1 else 0) + Ups(parts[1..])
  }

  /** Normalisation fails exactly when some prefix climbs further than it descends. */
  lemma {:induction false} EscapesIff(done: seq<seq<byte>>, todo: seq<seq<byte>>)
    ensures Collapse(done, todo).Err? <==>
            exists k :: 0 <= k <= |todo| && Ups(todo[..k]) > |done| + (k - Ups(todo[..k]))
    decreases |todo|
  {
    if todo == [] {
      assert Ups(todo[..0]) == 0;
    } else {
      var up := todo[0] == DOTDOT;
      var rest := todo[1..];
      forall k | 1 <= k <= |todo| ensures Ups(todo[..k]) == (if up then 1 else 0) + Ups(rest[..k - 1]) {
        assert todo[..k][1..] == rest[..k - 1];
      }
      if up && done == [] {
        assert Ups(todo[..1]) > |done| + (1 - Ups(todo[..1])) by { assert rest[..0] == []; }
      } else {
        var done' := if up then done[..|done| - 1] else done + [todo[0]];
        EscapesIff(done', rest);
        assert Ups(todo[..0]) == 0;
        if Collapse(done, todo).Err? {
          var k :| 0 <= k <= |rest| && Ups(rest[..k]) > |done'| + (k - Ups(rest[..k]));
          assert Ups(todo[..k + 1]) > |done| + (k + 1 - Ups(todo[..k + 1]));
        }
        forall k | 0 <= k <= |todo| && Ups(todo[..k]) > |done| + (k - Ups(todo[..k]))
          ensures Collapse(done, todo).Err?
        {
          assert k >= 1 && Ups(rest[..k - 1]) > |done'| + (k - 1 - Ups(rest[..k - 1]));
        }
      }
    }
  }

  /** A name and the `..` after it cancel wherever they stand. */
  lemma {:induction false} NameAndParentCancel(done: seq<seq<byte>>, before: seq<seq<byte>>, name: seq<byte>,
                                               after: seq<seq<byte>>)
    requires name != DOTDOT
    ensures Collapse(done, before + [name, DOTDOT] + after) == Collapse(done, before + after)
    decreases |before|
  {
    if before == [] {
      Cancels(done, name, after);
      assert before + [name, DOTDOT] + after == [name, DOTDOT] + after && before + after == after;
    } else {
      CollapseFirst(done, before, [name, DOTDOT] + after);
      CollapseFirst(done, before, after);
      hide Collapse;
      assert before + [name, DOTDOT] + after == before + ([name, DOTDOT] + after);
      var rest := before[1..];
      assert rest + [name, DOTDOT] + after == rest + ([name, DOTDOT] + after);
      if before[0] != DOTDOT {
        NameAndParentCancel(done + [before[0]], rest, name, after);
      } else if done != [] {
        NameAndParentCancel(done[..|done| - 1], rest, name, after);
      }
    }
  }

  lemma Cancels(done: seq<seq<byte>>, name: seq<byte>, after: seq<seq<byte>>)
    requires name != DOTDOT
    ensures Collapse(done, [name, DOTDOT] + after) == Collapse(done, after)
  {
    var todo := [name, DOTDOT] + after;
    assert todo[1..] == [DOTDOT] + after && todo[1..][1..] == after;
    assert (done + [name])[..|done|] == done;
  }

  lemma CollapseFirst(done: seq<seq<byte>>, before: seq<seq<byte>>, after: seq<seq<byte>>)
    requires before != []
    ensures Collapse(done, before + after) ==
            if before[0] != DOTDOT then Collapse(done + [before[0]], before[1..] + after)
            else if done == [] then Err(EscapesRoot)
            else Collapse(done[..|done| - 1], before[1..] + after)
  {
    assert (before + after)[1..] == before[1..] + after;
  }
}
