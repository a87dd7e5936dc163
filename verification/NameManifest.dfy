// The name manifest of src/core/collector.rs: which stored path stands for which original.
module NameManifest {
  import opened Wrappers
  import opened Bytes
  import opened Names

  datatype Entry = Entry(stored: Name, originalHex: Name)

  function EntryFor(c: Codec, path: Path): Entry {
    Entry(Join(Stored(c, path)), Hex(Join(path)))
  }

  predicate Has(entries: seq<Entry>, stored: Name) {
    exists i :: 0 <= i < |entries| && entries[i].stored == stored
  }

  function Deposit(entries: seq<Entry>, e: Entry): seq<Entry> {
    if Has(entries, e.stored) then entries else entries + [e]
  }

  // The manifest once a path has been stored: an entry for each part that had to be encoded.
  function Recorded(c: Codec, entries: seq<Entry>, path: Path): seq<Entry> {
    if path == [] then entries
    else
      var before := Recorded(c, entries, path[..|path| - 1]);
      if IsSafe(c, path[|path| - 1]) then before else Deposit(before, EntryFor(c, path))
  }

  // The parts that count: empty ones and "." do not.
  function Normal(parts: seq<Name>): (path: Path)
    ensures |path| <= |parts|
    ensures DOTS !in parts && (forall i :: 0 <= i < |parts| ==> SLASH !in parts[i]) ==> IsPath(path)
  {
    if parts == [] then []
    else
      var last := parts[|parts| - 1];
      Normal(parts[..|parts| - 1]) + if last == [] || last == [DOT] then [] else [last]
  }

  // Empty parts and "." may stand anywhere without any effect,
  lemma {:induction false} NormalSkips(xs: seq<Name>, part: Name, ys: seq<Name>)
    requires part == [] || part == Ascii(".")
    ensures Normal(xs + [part] + ys) == Normal(xs + ys)
    decreases |ys|
  {
    hide Normal;
    assert Ascii(".") == [DOT];
    if ys == [] {
      NormalMore(xs, part);
      assert xs + [part] + ys == xs + [part] && xs + ys == xs;
    } else {
      var front, last := ys[..|ys| - 1], ys[|ys| - 1];
      NormalSkips(xs, part, front);
      NormalMore(xs + [part] + front, last);
      NormalMore(xs + front, last);
      assert xs + [part] + ys == xs + [part] + front + [last] && xs + ys == xs + front + [last];
    }
  }

  lemma NormalMore(parts: seq<Name>, last: Name)
    ensures Normal(parts + [last]) == if last == [] || last == [DOT] then Normal(parts) else Normal(parts) + [last]
  {
    assert (parts + [last])[..|parts|] == parts;
    assert Normal(parts) + [] == Normal(parts);
  }

  // and all others stay.
  lemma {:induction false} NormalKeeps(parts: seq<Name>)
    requires forall i :: 0 <= i < |parts| ==> parts[i] != [] && parts[i] != Ascii(".")
    ensures Normal(parts) == parts
  {
    assert Ascii(".") == [DOT];
    if parts != [] {
      NormalKeeps(parts[..|parts| - 1]);
    }
  }

  lemma PathOfJoin(path: Path)
    requires path != [] && IsPath(path)
    ensures PathOf(Join(path)) == path
  {
    hide Join, Split, Normal;
    assert Ascii(".") == [DOT];
    SplitUndoesJoin(path);
    NormalKeeps(path);
  }

  function PathOf(raw: Name): Path {
    Normal(Split(raw))
  }

  function Matches(c: Codec, e: Entry, root: Name): bool {
    || IsUnder(e.stored, root)
    || (Unhex(e.originalHex).Some? && c.utf8(Unhex(e.originalHex).value) && IsUnder(Unhex(e.originalHex).value, root))
  }

  predicate MatchesAny(c: Codec, e: Entry, roots: seq<Name>) {
    exists i :: 0 <= i < |roots| && Matches(c, e, roots[i])
  }

  function Pruned(c: Codec, entries: seq<Entry>, roots: seq<Name>): (r: seq<Entry>)
    ensures forall e :: e in r <==> e in entries && !MatchesAny(c, e, roots)
  {
    if entries == [] then []
    else (if MatchesAny(c, entries[0], roots) then [] else [entries[0]]) + Pruned(c, entries[1..], roots)
  }

  class Manifest {
    var entries: seq<Entry>

    constructor (entries: seq<Entry>)
      ensures this.entries == entries
    {
      this.entries := entries;
    }

    // Where a path of the archive goes; paths that climb are refused, empty ones skipped.
    method StoredRelForLinuxPath(c: Codec, raw: Name) returns (r: Result<Option<Name>, ()>)
      modifies this
      ensures r.Err? <==> DOTS in Split(raw)
      ensures r.Ok? ==> r.value == if PathOf(raw) == [] then None else Some(Join(Stored(c, PathOf(raw))))
      ensures r.Ok? ==> entries == Recorded(c, old(entries), PathOf(raw))
    {
      hide Split, Join, IsSafe, Stored, Deposit, Hex;
      var parts := Split(raw);
      var storedParts: Path, originalParts: Path := [], [];
      assert Stored(c, []) == [] by { StoredNothing(c); }
      for i := 0 to |parts|
        invariant DOTS !in parts[..i]
        invariant originalParts == Normal(parts[..i]) && storedParts == Stored(c, originalParts)
        invariant entries == Recorded(c, old(entries), originalParts)
      {
        var part := parts[i];
        assert parts[..i + 1][..i] == parts[..i];
        if part == [] || part == [DOT] {
          continue;
        }
        if part == DOTS {
          return Err(());
        }
        StoredOneMore(c, originalParts, part);
        assert (originalParts + [part])[..|originalParts|] == originalParts;
        originalParts := originalParts + [part];
        if IsSafe(c, part) {
          storedParts := storedParts + [part];
          continue;
        }
        storedParts := storedParts + [ENCODED_DIR];
        storedParts := storedParts + [c.hash(part)];
        var originalHex := HexEncode(Join(originalParts));
        Put(Entry(Join(storedParts), originalHex));
      }
      assert parts[..|parts|] == parts;
      StoredGrows(c, originalParts);
      r := Ok(if storedParts == [] then None else Some(Join(storedParts)));
    }

    method Put(e: Entry)
      modifies this
      ensures entries == Deposit(old(entries), e)
    {
      if !Has(entries, e.stored) {
        entries := entries + [e];
      }
    }

    method PruneRoots(c: Codec, roots: seq<Name>)
      modifies this
      ensures entries == Pruned(c, old(entries), roots)
    {
      hide *;
      var kept: seq<Entry> := [];
      assert entries[0..] == entries && kept + Pruned(c, entries, roots) == Pruned(c, entries, roots);
      for i := 0 to |entries|
        invariant entries == old(entries)
        invariant Pruned(c, entries, roots) == kept + Pruned(c, entries[i..], roots)
      {
        PrunedNext(c, entries, roots, i);
        ghost var rest := Pruned(c, entries[i + 1..], roots);
        if !MatchesAny(c, entries[i], roots) {
          assert kept + ([entries[i]] + rest) == kept + [entries[i]] + rest;
          kept := kept + [entries[i]];
        } else {
          assert [] + rest == rest;
        }
      }
      PrunedNone(c, roots);
      assert kept + [] == kept;
      entries := kept;
    }
  }

  lemma PrunedNone(c: Codec, roots: seq<Name>)
    ensures Pruned(c, [], roots) == []
  {}

  lemma PrunedNext(c: Codec, entries: seq<Entry>, roots: seq<Name>, i: nat)
    requires i < |entries|
    ensures Pruned(c, entries[i..], roots) ==
      (if MatchesAny(c, entries[i], roots) then [] else [entries[i]]) + Pruned(c, entries[i + 1..], roots)
  {
    hide MatchesAny;
    assert entries[i..][1..] == entries[i + 1..];
  }

  lemma StoredOneMore(c: Codec, path: Path, part: Name)
    ensures Stored(c, path + [part]) == Stored(c, path) + if IsSafe(c, part) then [part] else [ENCODED_DIR,
      c.hash(part)]
  {
    hide IsSafe, Stored;
    StoredAppend(c, path, [part]);
    StoredOne(c, [part]);
    assert [part][1..] == [];
    StoredNothing(c);
    assert StoredPart(c, part) + [] == StoredPart(c, part);
  }

  lemma StoredGrows(c: Codec, path: Path)
    ensures Stored(c, path) == [] <==> path == []
  {}

  // ---------------------------------------------------------------- one extraction

  function RecordedAll(c: Codec, entries: seq<Entry>, raws: seq<Name>): seq<Entry> {
    if raws == [] then entries
    else Recorded(c, RecordedAll(c, entries, raws[..|raws| - 1]), PathOf(raws[|raws| - 1]))
  }

  // Reading an archive of some roots over the manifest on disk. A refused path ends it, and the
  // manifest on disk stays as it was.
  method Extract(c: Codec, onDisk: seq<Entry>, roots: seq<Name>, raws: seq<Name>)
    returns (r: Result<seq<Entry>, ()>, places: seq<Name>)
    ensures r.Err? <==> exists i :: 0 <= i < |raws| && DOTS in Split(raws[i])
    ensures r.Ok? ==> r.value == RecordedAll(c, Pruned(c, onDisk, roots), raws)
    ensures r.Ok? ==> forall i :: 0 <= i < |raws| && PathOf(raws[i]) != [] ==>
      Join(Stored(c, PathOf(raws[i]))) in places
  {
    hide *;
    var manifest := new Manifest(onDisk);
    manifest.PruneRoots(c, roots);
    ghost var kept := manifest.entries;
    places := [];
    RecordedNone(c, kept, raws);
    for i := 0 to |raws|
      invariant manifest.entries == RecordedAll(c, kept, raws[..i])
      invariant forall j :: 0 <= j < i ==> DOTS !in Split(raws[j])
      invariant forall j :: 0 <= j < i && PathOf(raws[j]) != [] ==> Join(Stored(c, PathOf(raws[j]))) in places
    {
      RecordedNext(c, kept, raws, i);
      var stored := manifest.StoredRelForLinuxPath(c, raws[i]);
      if stored.Err? {
        return Err(()), places;
      }
      if stored.value.None? {
        continue;
      }
      places := places + [stored.value.value];
    }
    assert raws[..|raws|] == raws;
    r := Ok(manifest.entries);
  }

  lemma RecordedNone(c: Codec, entries: seq<Entry>, raws: seq<Name>)
    ensures RecordedAll(c, entries, raws[..0]) == entries
  {}

  lemma RecordedNext(c: Codec, entries: seq<Entry>, raws: seq<Name>, i: nat)
    requires i < |raws|
    ensures RecordedAll(c, entries, raws[..i + 1]) == Recorded(c, RecordedAll(c, entries, raws[..i]), PathOf(raws[i]))
  {
    assert raws[..i + 1][..i] == raws[..i];
  }

  // ---------------------------------------------------------------- what the manifest is worth

  ghost predicate Describes(c: Codec, e: Entry, path: Path) {
    path != [] && Known(c, path) && !IsSafe(c, path[|path| - 1]) && e == EntryFor(c, path)
  }

  // Every entry is about some path, and says of it what it should.
  ghost predicate Sound(c: Codec, entries: seq<Entry>) {
    forall e :: e in entries ==> exists path: Path :: Describes(c, e, path)
  }

  // An entry for every encoded part of a path.
  ghost predicate Remembers(c: Codec, entries: seq<Entry>, path: Path) {
    forall k :: 0 < k <= |path| && !IsSafe(c, path[k - 1]) ==> EntryFor(c, path[..k]) in entries
  }

  lemma SameStored(c: Codec, e: Entry, path: Path)
    requires c.Valid() && c.Injective() && path != [] && Known(c, path) && e.stored == Join(Stored(c, path))
    requires exists q: Path :: Describes(c, e, q)
    ensures e == EntryFor(c, path)
  {
    hide IsSafe, IsPart, Join, Stored, Hex, Codec.Valid, Codec.Injective;
    var q: Path :| Describes(c, e, q);
    StoredIsInjective(c, path, q);
  }

  // Whoever reads the manifest for a stored path finds the one original.
  lemma OriginalIsFound(c: Codec, entries: seq<Entry>, path: Path, k: nat, e: Entry)
    requires c.Valid() && c.Injective() && Known(c, path) && Sound(c, entries) && Remembers(c, entries, path)
    requires 0 < k <= |path| && !IsSafe(c, path[k - 1])
    ensures Has(entries, Join(Stored(c, path[..k])))
    ensures e in entries && e.stored == Join(Stored(c, path[..k])) ==> Unhex(e.originalHex) == Some(Join(path[..k]))
  {
    hide IsSafe, IsPart, Join, Stored, Hex, Unhex, Codec.Valid, Codec.Injective;
    HexRoundTrip(Join(path[..k]));
    assert EntryFor(c, path[..k]) in entries;
    if e in entries && e.stored == Join(Stored(c, path[..k])) {
      SameStored(c, e, path[..k]);
    }
  }

  lemma DepositKeeps(c: Codec, entries: seq<Entry>, path: Path)
    requires c.Valid() && c.Injective() && path != [] && Known(c, path) && !IsSafe(c, path[|path| - 1])
    requires Sound(c, entries)
    ensures Sound(c, Deposit(entries, EntryFor(c, path))) && EntryFor(c, path) in Deposit(entries, EntryFor(c, path))
    ensures forall e :: e in entries ==> e in Deposit(entries, EntryFor(c, path))
  {
    hide IsSafe, IsPart, Join, Stored, Hex, Codec.Valid, Codec.Injective;
    var e := EntryFor(c, path);
    if Has(entries, e.stored) {
      var i :| 0 <= i < |entries| && entries[i].stored == e.stored;
      assert entries[i] in entries;
      SameStored(c, entries[i], path);
    } else {
      assert Describes(c, e, path);
    }
  }

  // Storing a path makes the manifest remember it, and forget nothing.
  lemma {:induction false} RecordingRemembers(c: Codec, entries: seq<Entry>, path: Path)
    requires c.Valid() && c.Injective() && Known(c, path) && Sound(c, entries)
    ensures var after := Recorded(c, entries, path);
      Sound(c, after) && Remembers(c, after, path) && forall e :: e in entries ==> e in after
  {
    hide IsSafe, IsPart, EntryFor, Deposit, Sound, Codec.Valid, Codec.Injective;
    if path != [] {
      var front := path[..|path| - 1];
      RecordingRemembers(c, entries, front);
      var before, after := Recorded(c, entries, front), Recorded(c, entries, path);
      if !IsSafe(c, path[|path| - 1]) {
        DepositKeeps(c, before, path);
      }
      forall k | 0 < k <= |path| && !IsSafe(c, path[k - 1]) ensures EntryFor(c, path[..k]) in after {
        if k <= |front| {
          assert front[..k] == path[..k] && front[k - 1] == path[k - 1];
        } else {
          assert path[..k] == path;
        }
      }
    }
  }

  ghost predicate AllKnown(c: Codec, raws: seq<Name>) {
    forall i :: 0 <= i < |raws| ==> Known(c, PathOf(raws[i]))
  }

  lemma {:induction false} ExtractionRemembers(c: Codec, entries: seq<Entry>, raws: seq<Name>)
    requires c.Valid() && c.Injective() && Sound(c, entries) && AllKnown(c, raws)
    ensures var after := RecordedAll(c, entries, raws);
      && Sound(c, after) && (forall e :: e in entries ==> e in after)
      && forall i :: 0 <= i < |raws| ==> Remembers(c, after, PathOf(raws[i]))
  {
    hide IsSafe, IsPart, EntryFor, Recorded, Sound, PathOf, Proper, Known, Codec.Valid, Codec.Injective;
    if raws != [] {
      var front, last := raws[..|raws| - 1], PathOf(raws[|raws| - 1]);
      ExtractionRemembers(c, entries, front);
      RecordingRemembers(c, RecordedAll(c, entries, front), last);
      forall i | 0 <= i < |raws| ensures Remembers(c, RecordedAll(c, entries, raws), PathOf(raws[i])) {
        if i < |front| { assert front[i] == raws[i]; }
      }
    }
  }

  // ---------------------------------------------------------------- pruning

  // Under a stored path lies a root exactly when it is safe throughout and the original lies
  // under it.
  lemma {:induction false} PlainPrefix(c: Codec, root: Path, path: Path)
    requires Proper(root) && Proper(path)
    ensures root <= Stored(c, path) <==> AllSafe(c, root) && root <= path
  {
    hide IsSafe, IsPart, Stored;
    if AllSafe(c, root) && root <= path {
      assert path == root + path[|root|..];
      StoredAppend(c, root, path[|root|..]);
      StoredWhenSafe(c, root);
    }
    if root <= Stored(c, path) {
      PlainPrefixInverts(c, root, path);
    }
  }

  lemma {:induction false} PlainPrefixInverts(c: Codec, root: Path, path: Path)
    requires Proper(root) && Proper(path) && root <= Stored(c, path)
    ensures AllSafe(c, root) && root <= path
  {
    hide IsSafe, IsPart, Stored;
    if root != [] {
      StoredNothing(c);
      assert path != [];
      StoredOne(c, path);
      assert root[0] == StoredPart(c, path[0])[0];
      assert root[0] == path[0] && IsSafe(c, path[0]);
      assert Stored(c, path)[1..] == Stored(c, path[1..]);
      PlainPrefixInverts(c, root[1..], path[1..]);
      assert root == [root[0]] + root[1..] && path == [path[0]] + path[1..];
    }
  }

  // Exactly which entries one root takes away.
  lemma PruneExactly(c: Codec, root: Path, path: Path)
    requires c.Valid() && root != [] && path != [] && Proper(root) && Proper(path)
    ensures Matches(c, EntryFor(c, path), Join(root)) <==> root <= path && (AllSafe(c, root) || c.utf8(Join(path)))
  {
    hide IsSafe, IsPart, Stored, Join, Hex, Unhex, IsUnder, AllSafe, Codec.Valid;
    StoredIsSafe(c, path);
    StoredGrows(c, path);
    UnderIsPrefix(Stored(c, path), root);
    UnderIsPrefix(path, root);
    PlainPrefix(c, root, path);
    HexRoundTrip(Join(path));
  }

  ghost predicate RootsAre(roots: seq<Name>, paths: seq<Path>) {
    && |roots| == |paths|
    && forall i :: 0 <= i < |roots| ==> paths[i] != [] && Proper(paths[i]) && roots[i] == Join(paths[i])
  }

  predicate Covered(path: Path, roots: seq<Path>) {
    exists i :: 0 <= i < |roots| && roots[i] <= path
  }

  // Pruning forgets nothing about paths outside its roots.
  lemma PruningKeeps(c: Codec, entries: seq<Entry>, roots: seq<Name>, rootPaths: seq<Path>, path: Path)
    requires c.Valid() && RootsAre(roots, rootPaths) && Proper(path) && Remembers(c, entries, path)
    requires !Covered(path, rootPaths)
    ensures Remembers(c, Pruned(c, entries, roots), path)
  {
    hide IsSafe, IsPart, Stored, Join, Hex, Unhex, IsUnder, Matches, EntryFor, Codec.Valid;
    forall k | 0 < k <= |path| && !IsSafe(c, path[k - 1]) ensures EntryFor(c, path[..k]) in Pruned(c, entries, roots) {
      var e := EntryFor(c, path[..k]);
      forall i | 0 <= i < |roots| ensures !Matches(c, e, roots[i]) {
        assert !(rootPaths[i] <= path);
        PruneExactly(c, rootPaths[i], path[..k]);
      }
    }
  }

  lemma PruningStaysSound(c: Codec, entries: seq<Entry>, roots: seq<Name>)
    requires Sound(c, entries)
    ensures Sound(c, Pruned(c, entries, roots))
  {
    hide Describes;
  }

  // What pruning is for is to forget everything under a root. It does so exactly for the entries
  // whose original is valid UTF-8, or all of them when the root itself needed no encoding.
  lemma PruneForgets(c: Codec, entries: seq<Entry>, root: Path, path: Path)
    requires c.Valid() && root != [] && path != [] && Proper(root) && Proper(path)
    requires EntryFor(c, path) in entries && root <= path
    ensures EntryFor(c, path) in Pruned(c, entries, [Join(root)]) <==> !AllSafe(c, root) && !c.utf8(Join(path))
  {
    hide IsSafe, IsPart, Stored, Join, Hex, Matches, EntryFor, AllSafe, Codec.Valid;
    PruneExactly(c, root, path);
    assert [Join(root)][0] == Join(root);
  }

  // ---------------------------------------------------------------- whole histories

  datatype Collection = Collection(roots: seq<Path>, raws: seq<Name>)
  {
    ghost predicate Valid(c: Codec) {
      (forall i :: 0 <= i < |roots| ==> roots[i] != [] && Proper(roots[i])) && AllKnown(c, raws)
    }
  }

  function Joined(roots: seq<Path>): (r: seq<Name>)
    ensures |r| == |roots| && forall i :: 0 <= i < |r| ==> r[i] == Join(roots[i])
  {
    seq(|roots|, i requires 0 <= i < |roots| => Join(roots[i]))
  }

  function OnDisk(c: Codec, history: seq<Collection>): seq<Entry> {
    if history == [] then []
    else
      var last := history[|history| - 1];
      RecordedAll(c, Pruned(c, OnDisk(c, history[..|history| - 1]), Joined(last.roots)), last.raws)
  }

  // Collected, and not collected over since without it.
  ghost predicate Live(history: seq<Collection>, path: Path) {
    history != [] &&
    var last := history[|history| - 1];
    || (exists i :: 0 <= i < |last.raws| && PathOf(last.raws[i]) == path)
    || (!Covered(path, last.roots) && Live(history[..|history| - 1], path))
  }

  // After any history of collections, every live path can be traced back to its original.
  lemma {:induction false} LivePathsAreRemembered(c: Codec, history: seq<Collection>, path: Path)
    requires c.Valid() && c.Injective() && forall i :: 0 <= i < |history| ==> history[i].Valid(c)
    ensures Sound(c, OnDisk(c, history))
    ensures Live(history, path) && Known(c, path) ==> Remembers(c, OnDisk(c, history), path)
  {
    hide IsSafe, IsPart, Proper, EntryFor, Describes, RecordedAll, Pruned, Remembers, PathOf, Codec.Valid;
    hide Codec.Injective;
    if history != [] {
      var front, last := history[..|history| - 1], history[|history| - 1];
      LivePathsAreRemembered(c, front, path);
      var before := OnDisk(c, front);
      var kept := Pruned(c, before, Joined(last.roots));
      PruningStaysSound(c, before, Joined(last.roots));
      ExtractionRemembers(c, kept, last.raws);
      if Live(history, path) && Known(c, path) && !exists i :: 0 <= i < |last.raws| && PathOf(last.raws[i]) == path {
        PruningKeeps(c, before, Joined(last.roots), last.roots, path);
        RememberedStays(c, kept, RecordedAll(c, kept, last.raws), path);
      }
    }
  }

  lemma RememberedStays(c: Codec, before: seq<Entry>, after: seq<Entry>, path: Path)
    requires Remembers(c, before, path) && forall e :: e in before ==> e in after
    ensures Remembers(c, after, path)
  {}
}
