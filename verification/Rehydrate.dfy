// The way back: the script that deploys a collected tree (conf/collector_deploy_nas.ps1) renames
// every encoded path in its staging directory to the original the manifest gives, deepest first.
module Rehydrate {
  import opened Wrappers
  import opened Bytes
  import opened Names
  import opened NameManifest

  type Content = seq<byte>

  datatype Tree = Tree(files: map<Path, Content>, dirs: set<Path>)
  {
    predicate Exists(p: Path) {
      p in files || p in dirs
    }
  }

  function MakeParents(t: Tree, o: Path): Tree {
    t.(dirs := t.dirs + set k | 0 < k < |o| :: o[..k])
  }

  // Whatever is at `o` goes, with all below it.
  function Remove(t: Tree, o: Path): (r: Tree)
    ensures forall q :: q in r.files ==> !(o <= q)
  {
    Tree(map q | q in t.files && !(o <= q) :: t.files[q], set d | d in t.dirs && !(o <= d))
  }

  function Keys(files: map<Path, Content>, s: Path, o: Path): set<Path> {
    (set q | q in files && !(s <= q)) + (set q | q in files && s <= q :: o + q[|s|..])
  }

  function At(files: map<Path, Content>, p: Path): Content {
    if p in files then files[p] else []
  }

  function From(q: Path, s: Path, o: Path): Path {
    if o <= q then s + q[|o|..] else q
  }

  function Rename(t: Tree, s: Path, o: Path): Tree {
    Tree(
      map q | q in Keys(t.files, s, o) :: At(t.files, From(q, s, o)),
      (set d | d in t.dirs && !(s <= d)) + (set d | d in t.dirs && s <= d :: o + d[|s|..]))
  }

  // One entry of the manifest.
  function Step(c: Codec, t: Tree, o: Path): Tree {
    var s := Stored(c, o);
    if t.Exists(s) then Rename(Remove(MakeParents(t, o), o), s, o) else t
  }

  function Run(c: Codec, t: Tree, originals: seq<Path>): Tree
    decreases |originals|
  {
    if originals == [] then t else Run(c, Step(c, t, originals[0]), originals[1..])
  }

  class Stage {
    var tree: Tree

    method Rehydrate(c: Codec, entries: seq<Entry>, ghost originals: seq<Path>)
      requires |entries| == |originals|
      requires forall i :: 0 <= i < |entries| ==>
        originals[i] != [] && IsPath(originals[i]) && c.Valid() && entries[i] == EntryFor(c, originals[i])
      modifies this
      ensures tree == Run(c, old(tree), originals)
    {
      hide Run, Step, Rename, Remove, MakeParents, IsPath, Codec.Valid, EntryFor;
      assert originals[0..] == originals;
      for i := 0 to |entries|
        invariant Run(c, old(tree), originals) == Run(c, tree, originals[i..])
      {
        RunNext(c, tree, originals, i);
        ReadEntry(c, originals[i]);
        var stored := Split(entries[i].stored);
        var original := Split(Unhex(entries[i].originalHex).value);
        StepIs(c, tree, originals[i]);
        if !tree.Exists(stored) {
          continue;
        }
        tree := MakeParents(tree, original);
        tree := Remove(tree, original);
        tree := Rename(tree, stored, original);
      }
      assert originals[|originals|..] == [];
      RunDone(c, tree);
    }
  }

  lemma RunNext(c: Codec, t: Tree, originals: seq<Path>, i: nat)
    requires i < |originals|
    ensures Run(c, t, originals[i..]) == Run(c, Step(c, t, originals[i]), originals[i + 1..])
  {
    hide Step;
    assert originals[i..][1..] == originals[i + 1..];
  }

  lemma RunDone(c: Codec, t: Tree)
    ensures Run(c, t, []) == t
  {}

  lemma StepIs(c: Codec, t: Tree, o: Path)
    ensures Step(c, t, o) ==
      if t.Exists(Stored(c, o)) then Rename(Remove(MakeParents(t, o), o), Stored(c, o), o) else t
  {}

  // An entry's two texts are read back as the two paths it was made of.
  lemma ReadEntry(c: Codec, path: Path)
    requires c.Valid() && path != [] && IsPath(path)
    ensures var e := EntryFor(c, path);
      && Split(e.stored) == Stored(c, path)
      && Unhex(e.originalHex).Some? && Split(Unhex(e.originalHex).value) == path
  {
    hide Split, Join, Stored, Hex, Unhex, IsSafe, Codec.Valid;
    StoredIsSafe(c, path);
    StoredGrows(c, path);
    SplitUndoesJoin(Stored(c, path));
    SplitUndoesJoin(path);
    HexRoundTrip(Join(path));
  }

  // ---------------------------------------------------------------- renaming, key by key

  lemma RenameFiles(t: Tree, s: Path, o: Path, q: Path)
    requires forall q :: q in t.files ==> !(o <= q)
    ensures var r := Rename(t, s, o).files;
      && (q in r <==> From(q, s, o) in t.files && (o <= q || !(s <= q)))
      && (q in r ==> r[q] == t.files[From(q, s, o)])
  {
    var r, from := Rename(t, s, o).files, From(q, s, o);
    if o <= q {
      if from in t.files {
        assert s <= from && o + from[|s|..] == q;
      }
      if q in r {
        var p :| p in t.files && s <= p && q == o + p[|s|..];
        assert p == from;
      }
    }
  }

  // ---------------------------------------------------------------- what the round trip needs

  // The collected files: no name the encoding uses, no file below a file.
  ghost predicate Collected(c: Codec, files: map<Path, Content>) {
    && (forall p :: p in files ==> p != [] && Known(c, p))
    && (forall p, q :: p in files && q in files && p <= q ==> p == q)
  }

  // They lie in the stage where they were stored.
  ghost predicate Staged(c: Codec, t: Tree, files: map<Path, Content>) {
    && (forall p :: p in files ==> Stored(c, p) in t.files && t.files[Stored(c, p)] == files[p])
    && (forall q :: q in t.files ==> exists p :: p in files && q == Stored(c, p))
    && (forall p :: p in files ==> ParentsStaged(t, Stored(c, p)))
  }

  ghost predicate ParentsStaged(t: Tree, s: Path) {
    forall k :: 0 < k < |s| ==> s[..k] in t.dirs
  }

  // An original the manifest has an entry for.
  predicate Encoded(c: Codec, o: Path) {
    o != [] && !IsSafe(c, o[|o| - 1])
  }

  // The manifest's originals, deepest stored path first.
  ghost predicate Listed(c: Codec, originals: seq<Path>, files: map<Path, Content>) {
    && (forall o :: o in originals <==> Encoded(c, o) && exists p :: p in files && o <= p)
    && (forall i, j :: 0 <= i < j < |originals| ==> originals[i] != originals[j])
    && (forall i, j :: 0 <= i < j < |originals| ==> |Stored(c, originals[i])| >= |Stored(c, originals[j])|)
  }

  ghost predicate AtMostOneEncoded(c: Codec, p: Path) {
    forall j, k :: 0 <= j < |p| && 0 <= k < |p| && !IsSafe(c, p[j]) && !IsSafe(c, p[k]) ==> j == k
  }

  lemma StoredOfPrefix(c: Codec, o: Path, p: Path)
    requires o <= p
    ensures Stored(c, o) <= Stored(c, p) && Stored(c, p) == Stored(c, o) + Stored(c, p[|o|..])
  {
    hide Stored;
    assert p == o + p[|o|..];
    StoredAppend(c, o, p[|o|..]);
  }

  // An encoded original and the place it was stored have nothing in common.
  lemma EncodedApart(c: Codec, o: Path, q: Path)
    requires c.Valid() && Encoded(c, o) && Known(c, o)
    ensures AllSafe(c, q) ==> !(o <= q)
    ensures Known(c, q) ==> !(Stored(c, o) <= q)
    ensures |Stored(c, o)| >= 2 && Stored(c, o)[|Stored(c, o)| - 2] == ENCODED_DIR && AllSafe(c, Stored(c, o))
  {
    hide Stored, IsSafe, IsPart, Codec.Valid;
    var front, last := o[..|o| - 1], o[|o| - 1];
    assert o == front + [last];
    StoredOneMore(c, front, last);
    StoredIsSafe(c, o);
    var s := Stored(c, o);
    assert s[|s| - 2] == ENCODED_DIR;
    assert o <= q ==> q[|o| - 1] == o[|o| - 1];
    assert s <= q ==> q[|s| - 2] == s[|s| - 2];
  }

  lemma EncodedTwice(c: Codec, o: Path, o2: Path, p: Path)
    requires AtMostOneEncoded(c, p) && Encoded(c, o) && Encoded(c, o2) && o <= p && o2 <= p
    ensures o == o2
  {
    hide IsSafe;
    assert p[|o| - 1] == o[|o| - 1] && p[|o2| - 1] == o2[|o2| - 1];
  }

  // ---------------------------------------------------------------- with one encoded part

  ghost predicate Back(c: Codec, done: set<Path>, p: Path) {
    exists o :: o in done && Encoded(c, o) && o <= p
  }

  // Where a file is once some entries have been handled.
  ghost function Place(c: Codec, done: set<Path>, p: Path): Path {
    if Back(c, done, p) then p else Stored(c, p)
  }

  ghost predicate Underway(c: Codec, t: Tree, files: map<Path, Content>, done: set<Path>) {
    && (forall p :: p in files ==> Place(c, done, p) in t.files && t.files[Place(c, done, p)] == files[p])
    && (forall q :: q in t.files ==> exists p :: p in files && q == Place(c, done, p))
  }

  // What is still to be renamed is still there.
  ghost predicate Waiting(c: Codec, t: Tree, originals: seq<Path>) {
    forall o :: o in originals ==> t.Exists(Stored(c, o))
  }

  ghost predicate Simple(c: Codec, files: map<Path, Content>) {
    forall p :: p in files ==> AtMostOneEncoded(c, p)
  }

  // Before an entry is handled nothing lies at its original.
  lemma NothingInTheWay(c: Codec, t: Tree, files: map<Path, Content>, done: set<Path>, o: Path)
    requires c.Valid() && Collected(c, files) && Simple(c, files) && Underway(c, t, files, done)
    requires Encoded(c, o) && Known(c, o) && o !in done
    ensures forall q :: q in t.files ==> !(o <= q)
    ensures Remove(MakeParents(t, o), o).files == t.files
  {
    hide IsSafe, IsPart, Stored, Codec.Valid, Encoded, AtMostOneEncoded;
    forall q | q in t.files ensures !(o <= q) {
      var p :| p in files && q == Place(c, done, p);
      if Back(c, done, p) {
        var o2 :| o2 in done && Encoded(c, o2) && o2 <= p;
        if o <= p { EncodedTwice(c, o, o2, p); }
      } else {
        StoredIsSafe(c, p);
        EncodedApart(c, o, q);
      }
    }
  }

  // One entry moves exactly the files it is about, to where they came from.
  lemma PlaceAfter(c: Codec, files: map<Path, Content>, done: set<Path>, o: Path, p: Path)
    requires c.Valid() && c.Injective() && Collected(c, files) && Simple(c, files) && p in files
    requires Encoded(c, o) && Known(c, o) && o !in done
    ensures var was, now := Place(c, done, p), Place(c, done + {o}, p);
      if o <= p then was == Stored(c, o) + p[|o|..] && now == p
      else was == now && !(Stored(c, o) <= was) && !(o <= was)
  {
    hide IsSafe, IsPart, Stored, Codec.Valid, Codec.Injective, Encoded, AtMostOneEncoded;
    if o <= p {
      if Back(c, done, p) {
        var o2 :| o2 in done && Encoded(c, o2) && o2 <= p;
        EncodedTwice(c, o, o2, p);
      }
      assert Back(c, done + {o}, p);
      StoredOfPrefix(c, o, p);
      RestIsSafe(c, o, p);
      StoredWhenSafe(c, p[|o|..]);
    } else {
      assert Back(c, done, p) <==> Back(c, done + {o}, p);
      StoredKeepsPrefixes(c, o, p);
      EncodedApart(c, o, p);
      StoredIsSafe(c, p);
      EncodedApart(c, o, Stored(c, p));
    }
  }

  lemma RestIsSafe(c: Codec, o: Path, p: Path)
    requires AtMostOneEncoded(c, p) && Encoded(c, o) && o <= p
    ensures AllSafe(c, p[|o|..])
  {
    hide IsSafe;
    var rest := p[|o|..];
    assert p[|o| - 1] == o[|o| - 1];
    forall k | 0 <= k < |rest| ensures IsSafe(c, rest[k]) {
      assert rest[k] == p[|o| + k];
    }
  }

  lemma StepBringsBack(c: Codec, t: Tree, files: map<Path, Content>, done: set<Path>, o: Path)
    requires c.Valid() && c.Injective() && Collected(c, files) && Simple(c, files) && Underway(c, t, files, done)
    requires Encoded(c, o) && Known(c, o) && o !in done && t.Exists(Stored(c, o))
    ensures Underway(c, Step(c, t, o), files, done + {o})
  {
    hide IsSafe, IsPart, Stored, Codec.Valid, Codec.Injective, Encoded, AtMostOneEncoded, Place, Known;
    hide Rename, Remove, From;
    hide Collected, Simple, MakeParents, Tree.Exists, Step;
    var s, clear, after := Stored(c, o), Remove(MakeParents(t, o), o), Step(c, t, o);
    StepIs(c, t, o);
    NothingInTheWay(c, t, files, done, o);
    forall p | p in files
      ensures Place(c, done + {o}, p) in after.files && after.files[Place(c, done + {o}, p)] == files[p]
    {
      PlaceFrom(c, files, done, o, p);
      RenameFiles(clear, s, o, Place(c, done + {o}, p));
    }
    forall q | q in after.files ensures exists p :: p in files && q == Place(c, done + {o}, p) {
      RenameFiles(clear, s, o, q);
      var p :| p in files && From(q, s, o) == Place(c, done, p);
      PlaceBack(c, files, done, o, p, q);
    }
  }

  lemma PlaceFrom(c: Codec, files: map<Path, Content>, done: set<Path>, o: Path, p: Path)
    requires c.Valid() && c.Injective() && Collected(c, files) && Simple(c, files) && p in files
    requires Encoded(c, o) && Known(c, o) && o !in done
    ensures var was, now, s := Place(c, done, p), Place(c, done + {o}, p), Stored(c, o);
      From(now, s, o) == was && (o <= now || !(s <= now))
  {
    hide IsSafe, IsPart, Stored, Codec.Valid, Codec.Injective, Encoded, AtMostOneEncoded, Place, Known;
    PlaceAfter(c, files, done, o, p);
  }

  lemma PlaceBack(c: Codec, files: map<Path, Content>, done: set<Path>, o: Path, p: Path, q: Path)
    requires c.Valid() && c.Injective() && Collected(c, files) && Simple(c, files) && p in files
    requires Encoded(c, o) && Known(c, o) && o !in done
    requires From(q, Stored(c, o), o) == Place(c, done, p) && (o <= q || !(Stored(c, o) <= q))
    ensures q == Place(c, done + {o}, p)
  {
    hide IsSafe, IsPart, Stored, Codec.Valid, Codec.Injective, Encoded, AtMostOneEncoded, Place, Known;
    PlaceAfter(c, files, done, o, p);
    var s := Stored(c, o);
    if o <= q {
      assert s <= From(q, s, o);
      assert From(q, s, o)[|s|..] == q[|o|..];
      assert q == o + q[|o|..];
      if o <= p {
        assert p == o + p[|o|..] && (s + p[|o|..])[|s|..] == p[|o|..];
      }
    }
  }

  // ---------------------------------------------------------------- in any tree

  // Distinct encoded originals, deepest stored path first.
  ghost predicate Orderly(c: Codec, originals: seq<Path>) {
    && (forall o :: o in originals ==> Encoded(c, o) && Known(c, o))
    && (forall i, j :: 0 <= i < j < |originals| ==> originals[i] != originals[j])
    && (forall i, j :: 0 <= i < j < |originals| ==> |Stored(c, originals[i])| >= |Stored(c, originals[j])|)
  }

  lemma OrderlyRest(c: Codec, originals: seq<Path>)
    requires originals != [] && Orderly(c, originals)
    ensures Orderly(c, originals[1..]) && originals[0] !in originals[1..]
    ensures Encoded(c, originals[0]) && Known(c, originals[0])
  {
    hide Stored, Encoded, Known;
  }

  lemma StepKeepsWaiting(c: Codec, t: Tree, originals: seq<Path>)
    requires c.Valid() && c.Injective() && originals != [] && Waiting(c, t, originals) && Orderly(c, originals)
    ensures Waiting(c, Step(c, t, originals[0]), originals[1..])
  {
    hide IsSafe, IsPart, Stored, Codec.Valid, Codec.Injective, Encoded, Known, Rename;
    var o, after := originals[0], Step(c, t, originals[0]);
    var s, clear := Stored(c, o), Remove(MakeParents(t, o), o);
    forall i | 0 < i < |originals| ensures after.Exists(Stored(c, originals[i])) {
      var o2 := originals[i];
      var s2 := Stored(c, o2);
      EncodedApart(c, o2, s2);
      EncodedApart(c, o, s2);
      StoredKeepsPrefixes(c, o, o2);
      StoredKeepsPrefixes(c, o2, o);
      assert !(s <= s2);
      assert t.Exists(s2) && clear.Exists(s2);
      RenameKeeps(clear, s, o, s2);
    }
  }

  lemma RenameKeeps(t: Tree, s: Path, o: Path, q: Path)
    requires forall q :: q in t.files ==> !(o <= q)
    requires t.Exists(q) && !(s <= q) && !(o <= q)
    ensures Rename(t, s, o).Exists(q)
  {
    if q in t.files {
      RenameFiles(t, s, o, q);
    }
  }

  // The part of a name behind the last rename is still as stored.
  ghost predicate Shaped(c: Codec, q: Path, k: nat) {
    k <= |q| && AllSafe(c, q[k..]) && (k > 0 ==> ENCODED_DIR !in q[..k] && !IsSafe(c, q[k - 1]))
  }

  ghost predicate AllShaped(c: Codec, t: Tree) {
    forall q :: q in t.files ==> exists k: nat :: Shaped(c, q, k)
  }

  lemma MovedIsSafe(c: Codec, o: Path, rest: Path)
    requires c.Valid() && Encoded(c, o) && Known(c, o) && exists k: nat :: Shaped(c, Stored(c, o) + rest, k)
    ensures AllSafe(c, rest)
  {
    hide IsSafe, IsPart, Stored, Codec.Valid, Encoded, Known;
    var s := Stored(c, o);
    EncodedApart(c, o, s);
    var q := s + rest;
    var k: nat :| Shaped(c, q, k);
    FrontOf(s, rest, k);
    forall i | 0 <= i < |rest| ensures IsSafe(c, rest[i]) {
      assert rest[i] == q[k..][|s| - k + i];
    }
  }

  lemma FrontOf(s: Path, rest: Path, k: nat)
    requires |s| >= 2 && k <= |s + rest|
    ensures |s| - 2 < k ==> s[|s| - 2] in (s + rest)[..k]
    ensures 0 < k <= |s| ==> (s + rest)[k - 1] == s[k - 1]
  {
    assert |s| - 2 < k ==> (s + rest)[..k][|s| - 2] == s[|s| - 2];
  }

  // A step leaves names in shape, and adds no name below an original but with a safe rest.
  lemma StepKeepsShape(c: Codec, t: Tree, o: Path)
    requires c.Valid() && Encoded(c, o) && Known(c, o) && AllShaped(c, t)
    ensures AllShaped(c, Step(c, t, o))
    ensures t.Exists(Stored(c, o)) ==> forall q :: q in Step(c, t, o).files && o <= q ==> AllSafe(c, q[|o|..])
    ensures forall q :: q in Step(c, t, o).files && q !in t.files ==> o <= q && AllSafe(c, q[|o|..])
  {
    hide IsSafe, IsPart, Stored, Codec.Valid, Rename, Shaped, AllSafe;
    var s, after := Stored(c, o), Step(c, t, o);
    if t.Exists(s) {
      var clear := Remove(MakeParents(t, o), o);
      forall q | q in after.files
        ensures o <= q ==> AllSafe(c, q[|o|..])
        ensures !(o <= q) ==> q in t.files
        ensures exists k: nat :: Shaped(c, q, k)
      {
        RenameFiles(clear, s, o, q);
        if o <= q {
          var rest := q[|o|..];
          MovedIsSafe(c, o, rest);
          assert q == o + rest;
          ShapedBehind(c, o, rest);
        }
      }
    }
  }

  lemma ShapedBehind(c: Codec, o: Path, rest: Path)
    requires Encoded(c, o) && Known(c, o) && AllSafe(c, rest)
    ensures Shaped(c, o + rest, |o|)
  {
    assert (o + rest)[|o|..] == rest && (o + rest)[..|o|] == o;
  }

  // ---------------------------------------------------------------- directories

  // No file without the directories above it.
  ghost predicate HasParents(t: Tree) {
    forall q :: q in t.files ==> ParentsStaged(t, q)
  }

  lemma RenameDirs(t: Tree, s: Path, o: Path, d: Path)
    ensures d in t.dirs && !(s <= d) ==> d in Rename(t, s, o).dirs
    ensures d in t.dirs && s <= d ==> o + d[|s|..] in Rename(t, s, o).dirs
  {}

  // Making the directories above an original keeps this true of what is moved there.
  lemma StepKeepsParents(c: Codec, t: Tree, o: Path)
    requires c.Valid() && Encoded(c, o) && Known(c, o) && HasParents(t)
    ensures HasParents(Step(c, t, o))
  {
    hide IsSafe, IsPart, Stored, Codec.Valid, Encoded, Known, Rename;
    var s := Stored(c, o);
    EncodedApart(c, o, o);
    if t.Exists(s) {
      var clear := Remove(MakeParents(t, o), o);
      var after := Rename(clear, s, o);
      forall q, k | q in after.files && 0 < k < |q| ensures q[..k] in after.dirs {
        RenameFiles(clear, s, o, q);
        ParentAfter(t, s, o, q, k);
      }
    }
  }

  lemma ParentAfter(t: Tree, s: Path, o: Path, q: Path, k: nat)
    requires s != [] && o != [] && !(s <= o) && HasParents(t) && 0 < k < |q|
    requires From(q, s, o) in Remove(MakeParents(t, o), o).files && (o <= q || !(s <= q))
    ensures q[..k] in Rename(Remove(MakeParents(t, o), o), s, o).dirs
  {
    hide Rename;
    var clear, from, d := Remove(MakeParents(t, o), o), From(q, s, o), q[..k];
    assert ParentsStaged(t, from);
    if o <= q && k >= |o| {
      var e := from[..|s| + (k - |o|)];
      assert s <= e && !(o <= e) && e in clear.dirs;
      RenameDirs(clear, s, o, e);
      assert o + e[|s|..] == d;
    } else {
      if o <= q {
        assert d == o[..k];
      } else {
        assert d == from[..k];
      }
      assert !(o <= d) && !(s <= d) && d in clear.dirs;
      RenameDirs(clear, s, o, d);
    }
  }

  // At no point of the deployment does a file lie outside its directories.
  lemma {:induction false} RunKeepsParents(c: Codec, t: Tree, originals: seq<Path>)
    requires c.Valid() && Orderly(c, originals) && HasParents(t)
    ensures HasParents(Run(c, t, originals))
    decreases |originals|
  {
    hide Step, Orderly, HasParents, Encoded, Known, Codec.Valid;
    if originals != [] {
      OrderlyRest(c, originals);
      StepKeepsParents(c, t, originals[0]);
      RunKeepsParents(c, Step(c, t, originals[0]), originals[1..]);
    }
  }

  // ---------------------------------------------------------------- the round trip

  lemma {:induction false} RunBringsBack(c: Codec, t: Tree, files: map<Path, Content>, done: set<Path>,
      originals: seq<Path>)
    requires c.Valid() && c.Injective() && Collected(c, files) && Simple(c, files) && Underway(c, t, files, done)
    requires Waiting(c, t, originals) && Orderly(c, originals) && forall o :: o in originals ==> o !in done
    ensures Underway(c, Run(c, t, originals), files, done + set o | o in originals)
    decreases |originals|
  {
    hide IsSafe, Stored, Codec.Valid, Codec.Injective, Encoded, Known, Step, Underway, Collected, Simple;
    hide Orderly, Tree.Exists;
    if originals == [] {
      assert done + (set o | o in originals) == done;
    } else {
      var o, rest := originals[0], originals[1..];
      assert o in originals && forall o2 :: o2 in originals <==> o2 == o || o2 in rest;
      OrderlyRest(c, originals);
      StepKeepsWaiting(c, t, originals);
      StepBringsBack(c, t, files, done, o);
      RunBringsBack(c, Step(c, t, o), files, done + {o}, rest);
      assert done + {o} + (set o | o in rest) == done + set o | o in originals;
    }
  }

  lemma StagedIsUnderway(c: Codec, t: Tree, files: map<Path, Content>)
    requires Staged(c, t, files)
    ensures Underway(c, t, files, {})
  {
    hide Stored, Back, ParentsStaged;
    forall p | p in files ensures Place(c, {}, p) == Stored(c, p) {
      NoneBack(c, p);
    }
  }

  lemma StagedIsShaped(c: Codec, t: Tree, files: map<Path, Content>)
    requires c.Valid() && Collected(c, files) && Staged(c, t, files)
    ensures AllShaped(c, t)
  {
    hide IsSafe, IsPart, Stored, Codec.Valid, ParentsStaged, AllSafe;
    forall q | q in t.files ensures exists k: nat :: Shaped(c, q, k) {
      var p :| p in files && q == Stored(c, p);
      StoredIsSafe(c, p);
      assert q[0..] == q;
      assert Shaped(c, q, 0);
    }
  }

  lemma NoneBack(c: Codec, p: Path)
    ensures !Back(c, {}, p)
  {}

  lemma StagedWaits(c: Codec, t: Tree, files: map<Path, Content>, originals: seq<Path>)
    requires Collected(c, files) && Staged(c, t, files) && Listed(c, originals, files)
    ensures Waiting(c, t, originals) && Orderly(c, originals)
  {
    hide IsSafe, IsPart, Stored, Encoded, Staged, Known, Tree.Exists;
    forall o | o in originals ensures t.Exists(Stored(c, o)) && Encoded(c, o) && Known(c, o) {
      var p :| p in files && o <= p;
      PrefixIsKnown(c, o, p);
      PlaceExists(c, t, files, o, p);
    }
  }

  lemma PlaceExists(c: Codec, t: Tree, files: map<Path, Content>, o: Path, p: Path)
    requires Staged(c, t, files) && p in files && o <= p && Encoded(c, o)
    ensures t.Exists(Stored(c, o))
  {
    hide IsSafe, Stored, Encoded;
    StoredOfPrefix(c, o, p);
    EncodedIsSome(c, o);
    var k := |Stored(c, o)|;
    if k < |Stored(c, p)| {
      assert ParentsStaged(t, Stored(c, p));
      assert Stored(c, p)[..k] == Stored(c, o);
    } else {
      assert Stored(c, o) == Stored(c, p);
    }
  }

  lemma PrefixIsKnown(c: Codec, o: Path, p: Path)
    requires o <= p && Known(c, p)
    ensures Known(c, o)
  {
    hide IsPart;
    assert forall i :: 0 <= i < |o| ==> o[i] == p[i];
  }

  lemma EncodedIsSome(c: Codec, o: Path)
    requires Encoded(c, o)
    ensures |Stored(c, o)| > 0
  {
    StoredGrows(c, o);
  }

  // Where no path has two encoded parts, rehydration restores every file, and nothing else.
  lemma RehydrateRestores(c: Codec, t: Tree, files: map<Path, Content>, originals: seq<Path>)
    requires c.Valid() && c.Injective() && Collected(c, files) && Staged(c, t, files) && Listed(c, originals, files)
    requires Simple(c, files)
    ensures Run(c, t, originals).files == files
  {
    hide IsSafe, IsPart, Stored, Codec.Valid, Codec.Injective, Run, Orderly, Waiting, Staged, AllShaped;
    hide Listed, Place, Simple, Underway, Collected;
    StagedIsUnderway(c, t, files);
    StagedWaits(c, t, files, originals);
    RunBringsBack(c, t, files, {}, originals);
    var done := {} + (set o | o in originals);
    forall p | p in files ensures Place(c, done, p) == p {
      AllPlaced(c, files, originals, p);
    }
    EverythingHome(c, Run(c, t, originals), files, done);
  }

  lemma EverythingHome(c: Codec, t: Tree, files: map<Path, Content>, done: set<Path>)
    requires Underway(c, t, files, done) && forall p :: p in files ==> Place(c, done, p) == p
    ensures t.files == files
  {
    hide Place;
  }

  lemma AllPlaced(c: Codec, files: map<Path, Content>, originals: seq<Path>, p: Path)
    requires Listed(c, originals, files) && p in files
    ensures Place(c, {} + (set o | o in originals), p) == p
  {
    hide IsSafe, Stored;
    if AllSafe(c, p) {
      StoredWhenSafe(c, p);
    } else {
      var k :| 0 <= k < |p| && !IsSafe(c, p[k]);
      var o := p[..k + 1];
      assert o <= p && o[k] == p[k] && Encoded(c, o);
      assert o in originals;
    }
  }

  // A file is brought back by the entry for its last encoded part, if by any.
  lemma {:induction false} NeverBroughtBack(c: Codec, t: Tree, originals: seq<Path>, p: Path, last: Path)
    requires c.Valid() && AllShaped(c, t) && p !in t.files && Orderly(c, originals)
    requires last <= p && Encoded(c, last) && last !in originals
    requires forall k :: |last| <= k < |p| ==> IsSafe(c, p[k])
    ensures p !in Run(c, t, originals).files
    decreases |originals|
  {
    hide IsSafe, Stored, Codec.Valid, Known, Step, Orderly, Shaped;
    if originals != [] {
      var o := originals[0];
      OrderlyRest(c, originals);
      StepKeepsShape(c, t, o);
      if p in Step(c, t, o).files {
        SameLast(c, o, last, p);
      }
      NeverBroughtBack(c, Step(c, t, o), originals[1..], p, last);
    }
  }

  lemma SameLast(c: Codec, o: Path, last: Path, p: Path)
    requires o <= p && last <= p && Encoded(c, o) && Encoded(c, last) && AllSafe(c, p[|o|..])
    requires forall k :: |last| <= k < |p| ==> IsSafe(c, p[k])
    ensures o == last
  {
    hide IsSafe;
    assert p[|o| - 1] == o[|o| - 1] && p[|last| - 1] == last[|last| - 1];
    forall k | |o| <= k < |p| ensures IsSafe(c, p[k]) {
      assert p[|o|..][k - |o|] == p[k];
    }
  }

  // Where an encoded part lies below another, the deeper one is brought back first, and the
  // directory that is brought back over it wipes it out.
  lemma {:induction false} WipedOut(c: Codec, t: Tree, originals: seq<Path>, p: Path, first: Path, last: Path)
    requires c.Valid() && c.Injective() && AllShaped(c, t) && Waiting(c, t, originals) && Orderly(c, originals)
    requires first < last <= p && Encoded(c, first) && Encoded(c, last) && Known(c, last) && first in originals
    requires forall k :: |last| <= k < |p| ==> IsSafe(c, p[k])
    ensures p !in Run(c, t, originals).files
    decreases |originals|
  {
    hide IsSafe, IsPart, Stored, Codec.Valid, Codec.Injective, Known, Step, Shaped, Encoded, AllSafe, Orderly;
    hide Tree.Exists;
    var o, rest := originals[0], originals[1..];
    OrderlyRest(c, originals);
    StepKeepsShape(c, t, o);
    StepKeepsWaiting(c, t, originals);
    if o == first {
      assert t.Exists(Stored(c, o));
      LastIsGone(c, originals, first, last);
      NotAllSafe(c, p, first, last);
      NeverBroughtBack(c, Step(c, t, o), rest, p, last);
    } else {
      WipedOut(c, Step(c, t, o), rest, p, first, last);
    }
  }

  lemma NotAllSafe(c: Codec, p: Path, first: Path, last: Path)
    requires first < last <= p && Encoded(c, last)
    ensures first <= p && !AllSafe(c, p[|first|..])
  {
    hide IsSafe;
    assert p[|first|..][|last| - 1 - |first|] == last[|last| - 1];
  }

  lemma LastIsGone(c: Codec, originals: seq<Path>, first: Path, last: Path)
    requires c.Valid() && Orderly(c, originals) && originals != [] && originals[0] == first
    requires first < last && Encoded(c, last)
    ensures last !in originals[1..]
  {
    hide IsSafe, IsPart, Codec.Valid, Known;
    DeeperIsLonger(c, first, last);
  }

  lemma DeeperIsLonger(c: Codec, first: Path, last: Path)
    requires first < last
    ensures |Stored(c, first)| < |Stored(c, last)|
  {
    hide IsSafe, Stored;
    StoredOfPrefix(c, first, last);
    StoredGrows(c, last[|first|..]);
  }

  // So the collected tree comes back exactly when no path has two encoded parts.
  lemma RehydrateRestoresIff(c: Codec, t: Tree, files: map<Path, Content>, originals: seq<Path>)
    requires c.Valid() && c.Injective() && Collected(c, files) && Staged(c, t, files) && Listed(c, originals, files)
    ensures Run(c, t, originals).files == files <==> Simple(c, files)
  {
    hide IsSafe, IsPart, Stored, Codec.Valid, Codec.Injective, Run, Orderly, Waiting, Staged, AllShaped;
    if Simple(c, files) {
      RehydrateRestores(c, t, files, originals);
    } else {
      StagedIsShaped(c, t, files);
      StagedWaits(c, t, files, originals);
      var p :| p in files && !AtMostOneEncoded(c, p);
      var first, last := TwoEncoded(c, p);
      assert first in originals;
      WipedOut(c, t, originals, p, first, last);
    }
  }

  lemma TwoEncoded(c: Codec, p: Path) returns (first: Path, last: Path)
    requires !AtMostOneEncoded(c, p) && Known(c, p)
    ensures first < last <= p && Encoded(c, first) && Encoded(c, last) && Known(c, last)
    ensures forall k :: |last| <= k < |p| ==> IsSafe(c, p[k])
  {
    hide IsSafe, IsPart;
    var j, k :| 0 <= j < k < |p| && !IsSafe(c, p[j]) && !IsSafe(c, p[k]);
    var n := |p|;
    while IsSafe(c, p[n - 1])
      invariant k < n <= |p| && forall i :: n <= i < |p| ==> IsSafe(c, p[i])
      decreases n
    {
      n := n - 1;
    }
    first, last := p[..j + 1], p[..n];
    assert last[..j + 1] == first;
    assert forall i :: 0 <= i < |last| ==> last[i] == p[i];
  }

  // ---------------------------------------------------------------- collecting and deploying

  ghost predicate About(c: Codec, e: Entry, path: Path) {
    exists k :: 0 < k <= |path| && !IsSafe(c, path[k - 1]) && e == EntryFor(c, path[..k])
  }

  predicate NoRepeats(entries: seq<Entry>) {
    forall i, j :: 0 <= i < j < |entries| ==> entries[i].stored != entries[j].stored
  }

  lemma DepositOne(entries: seq<Entry>, e: Entry)
    requires NoRepeats(entries)
    ensures NoRepeats(Deposit(entries, e)) && forall x :: x in Deposit(entries, e) ==> x in entries || x == e
  {}

  // Storing a path adds entries about that path only.
  lemma {:induction false} RecordedOnly(c: Codec, entries: seq<Entry>, path: Path)
    requires NoRepeats(entries)
    ensures NoRepeats(Recorded(c, entries, path))
    ensures forall e :: e in Recorded(c, entries, path) ==> e in entries || About(c, e, path)
  {
    hide IsSafe, EntryFor, Deposit, NoRepeats;
    if path != [] {
      var front := path[..|path| - 1];
      RecordedOnly(c, entries, front);
      var before := Recorded(c, entries, front);
      DepositOne(before, EntryFor(c, path));
      forall e | e in Recorded(c, entries, path) ensures e in entries || About(c, e, path) {
        if e in before && About(c, e, front) {
          var k :| 0 < k <= |front| && !IsSafe(c, front[k - 1]) && e == EntryFor(c, front[..k]);
          assert front[..k] == path[..k] && front[k - 1] == path[k - 1];
        } else if e !in before {
          assert path[..|path|] == path;
        }
      }
    }
  }

  ghost predicate AboutAny(c: Codec, e: Entry, raws: seq<Name>) {
    exists i :: 0 <= i < |raws| && About(c, e, PathOf(raws[i]))
  }

  lemma {:induction false} FreshManifestOnly(c: Codec, raws: seq<Name>)
    ensures NoRepeats(RecordedAll(c, [], raws))
    ensures forall e :: e in RecordedAll(c, [], raws) ==> AboutAny(c, e, raws)
  {
    hide About, Recorded, PathOf;
    if raws != [] {
      var front := raws[..|raws| - 1];
      FreshManifestOnly(c, front);
      RecordedOnly(c, RecordedAll(c, [], front), PathOf(raws[|raws| - 1]));
      forall e | e in RecordedAll(c, [], raws) ensures AboutAny(c, e, raws) {
        if AboutAny(c, e, front) {
          var i :| 0 <= i < |front| && About(c, e, PathOf(front[i]));
          assert front[i] == raws[i];
        }
      }
    }
  }

  // The manifest read back and sorted as the script sorts it.
  ghost predicate Reads(c: Codec, originals: seq<Path>, sorted: seq<Entry>, entries: seq<Entry>) {
    && multiset(sorted) == multiset(entries)
    && (forall i, j :: 0 <= i < j < |sorted| ==> |Split(sorted[i].stored)| >= |Split(sorted[j].stored)|)
    && |originals| == |sorted|
    && (forall i :: 0 <= i < |sorted| ==>
         originals[i] != [] && Known(c, originals[i]) && sorted[i] == EntryFor(c, originals[i]))
  }

  ghost predicate Archive(files: map<Path, Content>, raws: seq<Name>) {
    forall p :: p in files <==> exists i :: 0 <= i < |raws| && p == PathOf(raws[i])
  }

  lemma OriginalIsKnown(c: Codec, o: Path, q: Path)
    requires c.Valid() && c.Injective() && o != [] && q != [] && Known(c, o) && Known(c, q)
    requires EntryFor(c, o) == EntryFor(c, q)
    ensures o == q
  {
    hide IsSafe, IsPart, Stored, Join, Hex, Codec.Valid, Codec.Injective;
    StoredIsInjective(c, o, q);
  }

  lemma ManifestIsListed(c: Codec, files: map<Path, Content>, raws: seq<Name>, originals: seq<Path>, sorted: seq<Entry>)
    requires c.Valid() && c.Injective() && Collected(c, files) && Archive(files, raws)
    requires Reads(c, originals, sorted, RecordedAll(c, [], raws))
    ensures Listed(c, originals, files)
  {
    hide IsSafe, IsPart, Stored, PathOf, EntryFor, RecordedAll, Split, Codec.Valid, Codec.Injective, Known;
    var entries := RecordedAll(c, [], raws);
    FreshManifestOnly(c, raws);
    ExtractionRemembersAll(c, files, raws);
    SameMembers(sorted, entries);
    forall o | o in originals ensures Encoded(c, o) && exists p :: p in files && o <= p {
      var n :| 0 <= n < |originals| && originals[n] == o;
      EntryIsAboutFile(c, files, raws, o, sorted[n]);
    }
    forall o, p | p in files && o <= p && Encoded(c, o) ensures o in originals {
      FileIsRemembered(c, files, raws, o, p);
      var n :| 0 <= n < |sorted| && sorted[n] == EntryFor(c, o);
      PrefixIsKnown(c, o, p);
      OriginalIsKnown(c, o, originals[n]);
    }
    forall i, j | 0 <= i < j < |originals|
      ensures originals[i] != originals[j] && |Stored(c, originals[i])| >= |Stored(c, originals[j])|
    {
      DistinctEntries(sorted, entries, i, j);
      ReadEntry(c, originals[i]) by { KnownIsPath(c, originals[i]); }
      ReadEntry(c, originals[j]) by { KnownIsPath(c, originals[j]); }
    }
  }

  lemma KnownIsPath(c: Codec, p: Path)
    requires Known(c, p)
    ensures IsPath(p) && Proper(p)
  {}

  lemma ExtractionRemembersAll(c: Codec, files: map<Path, Content>, raws: seq<Name>)
    requires c.Valid() && c.Injective() && Collected(c, files) && Archive(files, raws)
    ensures forall p :: p in files ==> Remembers(c, RecordedAll(c, [], raws), p)
  {
    hide IsSafe, IsPart, PathOf, RecordedAll, Codec.Valid, Codec.Injective, Known, Remembers;
    forall i | 0 <= i < |raws| ensures Known(c, PathOf(raws[i])) {
      assert PathOf(raws[i]) in files;
    }
    ExtractionRemembers(c, [], raws);
  }

  lemma FileIsRemembered(c: Codec, files: map<Path, Content>, raws: seq<Name>, o: Path, p: Path)
    requires p in files && o <= p && Encoded(c, o) && Remembers(c, RecordedAll(c, [], raws), p)
    ensures EntryFor(c, o) in RecordedAll(c, [], raws)
  {
    hide IsSafe, EntryFor, RecordedAll;
    assert p[..|o|] == o && p[|o| - 1] == o[|o| - 1];
  }

  lemma EntryIsAboutFile(c: Codec, files: map<Path, Content>, raws: seq<Name>, o: Path, e: Entry)
    requires c.Valid() && c.Injective() && Collected(c, files) && Archive(files, raws)
    requires o != [] && Known(c, o) && e == EntryFor(c, o) && AboutAny(c, e, raws)
    ensures Encoded(c, o) && exists p :: p in files && o <= p
  {
    hide IsSafe, IsPart, EntryFor, PathOf, Codec.Valid, Codec.Injective, Known;
    var i :| 0 <= i < |raws| && About(c, e, PathOf(raws[i]));
    var p := PathOf(raws[i]);
    var k :| 0 < k <= |p| && !IsSafe(c, p[k - 1]) && e == EntryFor(c, p[..k]);
    assert p in files;
    PrefixIsKnown(c, p[..k], p);
    OriginalIsKnown(c, o, p[..k]);
    assert o[k - 1] == p[k - 1];
  }

  lemma SameMembers<T>(a: seq<T>, b: seq<T>)
    requires multiset(a) == multiset(b)
    ensures forall x :: x in a <==> x in b
  {
    forall x ensures x in a <==> x in b {
      assert x in a <==> x in multiset(a);
      assert x in b <==> x in multiset(b);
    }
  }

  lemma DistinctEntries(sorted: seq<Entry>, entries: seq<Entry>, i: nat, j: nat)
    requires multiset(sorted) == multiset(entries) && NoRepeats(entries) && i < j < |sorted|
    ensures sorted[i] != sorted[j]
  {
    if sorted[i] == sorted[j] {
      var e := sorted[i];
      assert sorted == sorted[..j] + [e] + sorted[j + 1..];
      assert multiset(sorted) == multiset(sorted[..j]) + multiset{e} + multiset(sorted[j + 1..]);
      assert sorted[..j][i] == e && e in multiset(sorted[..j]);
      assert multiset(entries)[e] >= 2;
      AtMostOnce(entries, e);
    }
  }

  lemma {:induction false} AtMostOnce(entries: seq<Entry>, e: Entry)
    requires NoRepeats(entries)
    ensures multiset(entries)[e] <= 1
  {
    if entries != [] {
      var front, last := entries[..|entries| - 1], entries[|entries| - 1];
      AtMostOnce(front, e);
      assert entries == front + [last];
      if last == e {
        assert e !in front;
        assert e !in multiset(front);
      }
    }
  }

  // Collecting an archive into an empty root and deploying it gives every file back, under its
  // own name and with its own content, exactly when no path has two encoded parts.
  lemma CollectThenDeploy(c: Codec, files: map<Path, Content>, raws: seq<Name>, t: Tree, originals: seq<Path>,
      sorted: seq<Entry>)
    requires c.Valid() && c.Injective() && Collected(c, files) && Archive(files, raws) && Staged(c, t, files)
    requires Reads(c, originals, sorted, RecordedAll(c, [], raws))
    ensures Run(c, t, originals).files == files <==> Simple(c, files)
    ensures HasParents(Run(c, t, originals))
  {
    hide *;
    ManifestIsListed(c, files, raws, originals, sorted);
    RehydrateRestoresIff(c, t, files, originals);
    StagedWaits(c, t, files, originals);
    StagedHasParents(c, t, files);
    RunKeepsParents(c, t, originals);
  }

  lemma StagedHasParents(c: Codec, t: Tree, files: map<Path, Content>)
    requires Staged(c, t, files)
    ensures HasParents(t)
  {
    hide Stored, ParentsStaged;
  }

  // ---------------------------------------------------------------- one file, whatever its path

  // The encoded prefixes of a path, longest first.
  function EncodedPrefixes(c: Codec, p: Path): seq<Path> {
    if p == [] then []
    else (if IsSafe(c, p[|p| - 1]) then [] else [p]) + EncodedPrefixes(c, p[..|p| - 1])
  }

  lemma EncodedPrefixesStep(c: Codec, p: Path)
    requires p != []
    ensures EncodedPrefixes(c, p) == (if IsSafe(c, p[|p| - 1]) then [] else [p]) + EncodedPrefixes(c, p[..|p| - 1])
  {
    hide IsSafe;
  }

  lemma {:induction false} EncodedPrefixesAre(c: Codec, p: Path)
    ensures forall i :: 0 <= i < |EncodedPrefixes(c, p)| ==>
      EncodedPrefixes(c, p)[i] <= p && Encoded(c, EncodedPrefixes(c, p)[i])
    ensures forall i, j :: 0 <= i < j < |EncodedPrefixes(c, p)| ==>
      |EncodedPrefixes(c, p)[i]| > |EncodedPrefixes(c, p)[j]|
  {
    if p != [] {
      hide EncodedPrefixes, IsSafe;
      var front := p[..|p| - 1];
      EncodedPrefixesAre(c, front);
      EncodedPrefixesStep(c, p);
      var rest := EncodedPrefixes(c, front);
      forall i | 0 <= i < |rest| ensures rest[i] <= p && |rest[i]| < |p| {
        assert rest[i] <= front;
      }
    }
  }

  function EntriesFor(c: Codec, originals: seq<Path>): (r: seq<Entry>)
    ensures |r| == |originals| && forall i :: 0 <= i < |r| ==> r[i] == EntryFor(c, originals[i])
  {
    seq(|originals|, i requires 0 <= i < |originals| => EntryFor(c, originals[i]))
  }

  lemma NewEntry(c: Codec, p: Path)
    requires c.Valid() && c.Injective() && Known(c, p) && p != []
    ensures !Has(Recorded(c, [], p[..|p| - 1]), EntryFor(c, p).stored)
  {
    hide IsSafe, IsPart, Join, Stored, Recorded, Codec.Valid, Codec.Injective;
    var front := p[..|p| - 1];
    var before := Recorded(c, [], front);
    RecordedOnly(c, [], front);
    forall i | 0 <= i < |before| ensures before[i].stored != EntryFor(c, p).stored {
      assert before[i] in before && About(c, before[i], front);
      var k :| 0 < k <= |front| && !IsSafe(c, front[k - 1]) && before[i] == EntryFor(c, front[..k]);
      PrefixIsKnown(c, front[..k], p);
      StoredIsInjective(c, front[..k], p);
    }
  }

  lemma {:induction false} RecordedPrefixes(c: Codec, p: Path)
    requires c.Valid() && c.Injective() && Known(c, p)
    ensures multiset(EntriesFor(c, EncodedPrefixes(c, p))) == multiset(Recorded(c, [], p))
  {
    hide IsSafe, IsPart, EntryFor, Codec.Valid, Codec.Injective, Has, Known;
    if p != [] {
      var front := p[..|p| - 1];
      PrefixIsKnown(c, front, p);
      RecordedPrefixes(c, front);
      if !IsSafe(c, p[|p| - 1]) {
        NewEntry(c, p);
        var e, rest := EntryFor(c, p), EntriesFor(c, EncodedPrefixes(c, front));
        assert EntriesFor(c, EncodedPrefixes(c, p)) == [e] + rest;
        assert Recorded(c, [], p) == Recorded(c, [], front) + [e];
      } else {
        assert EncodedPrefixes(c, p) == EncodedPrefixes(c, front);
      }
    }
  }

  // The manifest of one path, read and sorted.
  lemma OneFileReads(c: Codec, p: Path)
    requires c.Valid() && c.Injective() && Known(c, p)
    ensures Reads(c, EncodedPrefixes(c, p), EntriesFor(c, EncodedPrefixes(c, p)), Recorded(c, [], p))
  {
    hide IsSafe, IsPart, Stored, Split, Recorded, EntryFor, Codec.Valid, Codec.Injective, EncodedPrefixes, Known;
    var originals := EncodedPrefixes(c, p);
    var sorted := EntriesFor(c, originals);
    RecordedPrefixes(c, p);
    EncodedPrefixesAre(c, p);
    forall i | 0 <= i < |originals|
      ensures originals[i] != [] && Proper(originals[i]) && Known(c, originals[i])
      ensures |Split(sorted[i].stored)| == |Stored(c, originals[i])|
    {
      PrefixIsKnown(c, originals[i], p);
      KnownIsPath(c, originals[i]);
      ReadEntry(c, originals[i]);
    }
    forall i, j | 0 <= i < j < |originals| ensures |Stored(c, originals[i])| >= |Stored(c, originals[j])| {
      assert originals[j] == originals[i][..|originals[j]|];
      DeeperIsLonger(c, originals[j], originals[i]);
    }
  }

  lemma OneFileIsStaged(c: Codec, p: Path, content: Content) returns (t: Tree)
    requires Known(c, p) && p != []
    ensures Collected(c, map[p := content]) && Staged(c, t, map[p := content])
  {
    hide Stored, IsPart;
    var s := Stored(c, p);
    t := Tree(map[s := content], set k | 0 < k < |s| :: s[..k]);
  }

  lemma OneFileArchive(c: Codec, p: Path, content: Content)
    requires IsPath(p) && p != []
    ensures Archive(map[p := content], [Join(p)]) && RecordedAll(c, [], [Join(p)]) == Recorded(c, [], p)
  {
    hide Split, Join, Recorded, RecordedAll, PathOf;
    PathOfJoin(p);
    assert [Join(p)][0] == Join(p);
    OneRecorded(c, Join(p));
  }

  lemma OneRecorded(c: Codec, raw: Name)
    ensures RecordedAll(c, [], [raw]) == Recorded(c, [], PathOf(raw))
  {
    hide Recorded, PathOf;
    assert [raw][..0] == [];
  }

  // Every single file meets what CollectThenDeploy asks for, and so comes back exactly when its
  // path has at most one encoded part.
  lemma OneFile(c: Codec, p: Path, content: Content)
    returns (raws: seq<Name>, t: Tree, originals: seq<Path>, sorted: seq<Entry>)
    requires c.Valid() && c.Injective() && Known(c, p) && p != []
    ensures var files := map[p := content];
      && Collected(c, files) && Archive(files, raws) && Staged(c, t, files)
      && Reads(c, originals, sorted, RecordedAll(c, [], raws))
      && (Run(c, t, originals).files == files <==> AtMostOneEncoded(c, p))
  {
    var files := map[p := content];
    KnownIsPath(c, p);
    hide *;
    raws, originals := [Join(p)], EncodedPrefixes(c, p);
    sorted := EntriesFor(c, originals);
    t := OneFileIsStaged(c, p, content);
    OneFileArchive(c, p, content);
    OneFileReads(c, p);
    CollectThenDeploy(c, files, raws, t, originals, sorted);
    assert Simple(c, files) <==> AtMostOneEncoded(c, p) by { OneFileIsSimple(c, p, content); }
  }

  lemma OneFileIsSimple(c: Codec, p: Path, content: Content)
    ensures Simple(c, map[p := content]) <==> AtMostOneEncoded(c, p)
  {
    hide AtMostOneEncoded;
    assert p in map[p := content];
  }

  // A file below two names that each need encoding is lost.
  lemma NestedNamesAreLost()
    returns (c: Codec, files: map<Path, Content>, raws: seq<Name>, t: Tree, originals: seq<Path>, sorted: seq<Entry>)
    ensures c.Valid() && c.Injective() && Collected(c, files) && Archive(files, raws) && Staged(c, t, files)
    ensures Reads(c, originals, sorted, RecordedAll(c, [], raws)) && Run(c, t, originals).files != files
  {
    hide Run, Stored, RecordedAll, Reads, Archive, Collected, Staged;
    c := SomeCodec();
    var p: Path := [[58], [97], [58]];
    files := map[p := []];
    raws, t, originals, sorted := OneFile(c, p, []);
    assert !IsSafe(c, p[0]) && !IsSafe(c, p[2]);
  }
}
