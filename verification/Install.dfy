// Placing verified files into a destination and undoing it: the transaction
// steps of MATERIALIZE and VERIFY as functions on the file tree.
module Install {
  import opened Sequences
  import opened Texts
  import opened Utf8
  import opened FileTree

  // A file to place: its path below the destination, and what the index says.
  datatype Item = Item(rel: Path, sha256: Text)

  // The code an error thrown by a transport carries: none of the protocol's,
  // that of a hash mismatch, or any other name in the table of exit codes.
  datatype Tag = Ordinary | MismatchCode | OtherCode

  // What a copy transport does: throw, or write some bytes with some mode.
  datatype Copy = Threw(tag: Tag) | Wrote(bytes: Bytes, mode: nat)

  // The faults of one placement. Checking or making the components of the way,
  // and then reserving the temporary name, are steps: step stop throws. The copy
  // behaves as given. After a copy or rename that throws, removing the temporary
  // file may fail too and leave it behind. The re-read of the placed file may throw.
  datatype PlaceFault = PlaceFault(stop: nat, copy: Copy, leftover: Option<Bytes>, rereadThrows: bool)

  // The marker's write or rename throws, and may leave its temporary file behind.
  datatype MarkerFault = MarkerFine | MarkerFault(leftover: Option<Bytes>)

  // The faults of finalisation: those of each placement; of an unmanaged undo,
  // the removal that throws and the directories whose removal fails; of a managed
  // replacement, whether the backup area can be made, and the step that throws
  // (copying the n skills takes steps 0..n-1 and removing them steps n..2n-1;
  // the restore removes first and copies back after), gone and restoreGone
  // saying how far a removal that throws had come; at the end, whether clearing
  // the staging area throws, and the marker.
  datatype Faults = Faults(
    place: nat -> PlaceFault, undoStop: nat, stuck: set<Path>,
    backupReady: bool, backupStop: nat, gone: set<Path>, restoreStop: nat, restoreGone: set<Path>,
    clearThrows: bool, marker: MarkerFault)

  datatype PlaceError =
    | SymlinkFound | NotDirectory | Interrupted | CodedMismatch | CodedOther // nothing was written
    | RereadFailed | HashMismatch                                           // the file was written

  function ThrownError(tag: Tag): PlaceError {
    match tag
    case Ordinary => Interrupted
    case MismatchCode => CodedMismatch
    case OtherCode => CodedOther
  }

  function Target(dest: Path, item: Item): Path {
    dest + item.rel
  }

  function Targets(dest: Path, items: seq<Item>): (ps: seq<Path>)
    ensures |ps| == |items| && forall i :: 0 <= i < |ps| ==> ps[i] == Target(dest, items[i])
  {
    seq(|items|, i requires 0 <= i < |items| => Target(dest, items[i]))
  }

  // ----- placing -----

  datatype Walked = Walked(tree: Tree, error: Option<PlaceError>)

  /** ensureWriteChain: check every component, creating the missing ones. */
  function Walk(t: Tree, dir: Path, k: nat, stop: nat): Walked
    requires k <= |dir|
    decreases |dir| - k
  {
    if k == |dir| then Walked(t, None)
    else if k >= stop then Walked(t, Some(Interrupted))
    else
      var p := dir[..k + 1];
      if p !in t then Walk(t[p := Dir], dir, k + 1, stop)
      else
        match t[p]
        case Dir => Walk(t, dir, k + 1, stop)
        case Link => Walked(t, Some(SymlinkFound))
        case File(_, _, _) => Walked(t, Some(NotDirectory))
  }

  /** A temporary file after a failed copy or rename: removed, or left behind. */
  function Left(t: Tree, tmpPath: Path, leftover: Option<Bytes>): Tree {
    if leftover.Some? then t[tmpPath := Fresh(leftover.value, 0x180)] else t
  }

  /** Reserve the temporary name, copy, rename. */
  function WriteOne(t: Tree, target: Path, f: PlaceFault, tmp: Text): Walked
    requires target != []
  {
    var tmpPath := Parent(target) + [tmp];
    if f.stop <= |Parent(target)| then Walked(t, Some(Interrupted))
    else if tmpPath in t then Walked(t, Some(SymlinkFound))
    else
      match f.copy
      case Threw(tag) => Walked(Left(t, tmpPath, f.leftover), Some(ThrownError(tag)))
      case Wrote(bytes, mode) =>
        if IsDir(t, target) then Walked(Left(t, tmpPath, f.leftover), Some(Interrupted))
        else Walked(t[target := Fresh(bytes, mode)], None)
  }

  /** One placement: walk, write, re-read. */
  function PlaceOne(t: Tree, target: Path, sha: Text, f: PlaceFault, tmp: Text, digest: Bytes -> Text): Walked
    requires target != []
  {
    var w := Walk(t, Parent(target), 0, f.stop);
    if w.error.Some? then w
    else
      var x := WriteOne(w.tree, target, f, tmp);
      if x.error.Some? then x
      else if f.rereadThrows then Walked(x.tree, Some(RereadFailed))
      else Walked(x.tree, if digest(f.copy.bytes) == sha then None else Some(HashMismatch))
  }

  datatype Placing = Placing(tree: Tree, error: Option<PlaceError>, done: nat)

  function PlaceFrom(t: Tree, dest: Path, items: seq<Item>, place: nat -> PlaceFault, tmp: Text,
                     digest: Bytes -> Text, j: nat): Placing
    requires j <= |items| && forall i :: 0 <= i < |items| ==> items[i].rel != []
    decreases |items| - j
  {
    if j == |items| then Placing(t, None, j)
    else
      var w := PlaceOne(t, Target(dest, items[j]), items[j].sha256, place(j), tmp, digest);
      if w.error.Some? then Placing(w.tree, w.error, j)
      else PlaceFrom(w.tree, dest, items, place, tmp, digest, j + 1)
  }

  // ----- what placing can change -----

  /** No path of the list is inside, or equal to, another. */
  ghost predicate PrefixFree(ps: seq<Path>) {
    forall i, j :: 0 <= i < |ps| && 0 <= j < |ps| && i != j ==> !(ps[i] <= ps[j])
  }

  // A directory on the way to a target.
  ghost predicate OnTheWay(p: Path, targets: seq<Path>) {
    exists i :: 0 <= i < |targets| && p <= targets[i] && p != targets[i]
  }

  ghost predicate WrittenAt(p: Path, targets: seq<Path>, lo: nat, hi: nat) {
    exists i :: lo <= i < hi <= |targets| && targets[i] == p
  }

  /** The second tree is the first with directories made on the way to targets,
      and files written at some targets lo..hi that were not directories. */
  ghost predicate Grown(t: Tree, r: Tree, targets: seq<Path>, lo: nat, hi: nat) {
    && WfTree(r)
    && (forall p :: p in t ==>
          p in r && (r[p] == t[p] || (t[p] != Dir && r[p].File? && WrittenAt(p, targets, lo, hi))))
    && (forall p :: p in r && p !in t ==>
          (r[p] == Dir && OnTheWay(p, targets)) || (r[p].File? && WrittenAt(p, targets, lo, hi)))
  }

  lemma {:induction false} WalkGrows(t: Tree, dir: Path, k: nat, stop: nat)
    requires WfTree(t) && k <= |dir| && IsDir(t, dir[..k])
    ensures var w := Walk(t, dir, k, stop);
      && WfTree(w.tree)
      && (forall p :: p in t ==> p in w.tree && w.tree[p] == t[p])
      && (forall p :: p in w.tree && p !in t ==> w.tree[p] == Dir && p <= dir)
      && (w.error.None? ==> IsDir(w.tree, dir))
      && (w.error.Some? ==> w.error.value in {SymlinkFound, NotDirectory, Interrupted})
    decreases |dir| - k
  {
    if k < |dir| && k < stop {
      var p := dir[..k + 1];
      assert Parent(p) == dir[..k];
      if p !in t {
        WalkGrows(t[p := Dir], dir, k + 1, stop);
      } else if t[p] == Dir {
        WalkGrows(t, dir, k + 1, stop);
      }
    } else {
      assert dir[..|dir|] == dir;
    }
  }

  lemma WalkIsGrown(t: Tree, targets: seq<Path>, i: nat, stop: nat)
    requires WfTree(t) && i < |targets| && targets[i] != []
    ensures Grown(t, Walk(t, Parent(targets[i]), 0, stop).tree, targets, i, i)
  {
    var dir := Parent(targets[i]);
    var r := Walk(t, dir, 0, stop).tree;
    WalkGrows(t, dir, 0, stop);
    forall p | p in r && p !in t ensures OnTheWay(p, targets) {
      assert p <= dir <= targets[i] && |p| < |targets[i]|;
    }
  }

  lemma WriteIsGrown(r: Tree, targets: seq<Path>, i: nat, bytes: Bytes, mode: nat)
    requires WfTree(r) && i < |targets| && targets[i] != []
    requires IsDir(r, Parent(targets[i])) && !IsDir(r, targets[i])
    ensures Grown(r, r[targets[i] := Fresh(bytes, mode)], targets, i, i + 1)
  {
    assert WrittenAt(targets[i], targets, i, i + 1);
  }

  lemma GrownTrans(t: Tree, r: Tree, s: Tree, targets: seq<Path>, a: nat, b: nat, c: nat)
    requires Grown(t, r, targets, a, b) && Grown(r, s, targets, b, c)
    requires a <= b <= c <= |targets|
    ensures Grown(t, s, targets, a, c)
  {
    WrittenWider(targets, a, b, c);
  }

  lemma WrittenWider(targets: seq<Path>, a: nat, b: nat, c: nat)
    requires a <= b <= c <= |targets|
    ensures forall p :: WrittenAt(p, targets, a, b) || WrittenAt(p, targets, b, c) ==> WrittenAt(p, targets, a, c)
  {
  }

  // How far writing got.
  function WrittenUpTo(j: nat, error: Option<PlaceError>): nat {
    if error == None || error == Some(RereadFailed) || error == Some(HashMismatch) then j + 1 else j
  }

  ghost predicate InPlace(t: Tree, target: Path, sha: Text, digest: Bytes -> Text) {
    IsFile(t, target) && digest(t[target].bytes) == sha
  }

  // No temporary file is left behind.
  ghost predicate Clean(place: nat -> PlaceFault) {
    forall n :: place(n).leftover.None?
  }

  lemma WriteOneGrows(t: Tree, targets: seq<Path>, i: nat, f: PlaceFault, tmp: Text)
    requires WfTree(t) && i < |targets| && targets[i] != [] && IsDir(t, Parent(targets[i])) && f.leftover.None?
    ensures var w := WriteOne(t, targets[i], f, tmp);
      && Grown(t, w.tree, targets, i, if w.error.None? then i + 1 else i)
      && (w.error.None? ==> f.copy.Wrote? && IsFile(w.tree, targets[i]) && w.tree[targets[i]].bytes == f.copy.bytes)
      && (w.error.Some? ==> WrittenUpTo(i, w.error) == i && w.tree == t)
  {
    if WriteOne(t, targets[i], f, tmp).error.None? {
      WriteIsGrown(t, targets, i, f.copy.bytes, f.copy.mode);
    }
  }

  lemma PlaceOneGrows(t: Tree, targets: seq<Path>, i: nat, sha: Text, f: PlaceFault, tmp: Text, digest: Bytes -> Text)
    requires WfTree(t) && i < |targets| && targets[i] != [] && f.leftover.None?
    ensures var w := PlaceOne(t, targets[i], sha, f, tmp, digest);
      && Grown(t, w.tree, targets, i, WrittenUpTo(i, w.error))
      && (w.error.None? ==> InPlace(w.tree, targets[i], sha, digest))
  {
    var w := Walk(t, Parent(targets[i]), 0, f.stop);
    WalkGrows(t, Parent(targets[i]), 0, f.stop);
    WalkIsGrown(t, targets, i, f.stop);
    if w.error.None? {
      var x := WriteOne(w.tree, targets[i], f, tmp);
      WriteOneGrows(w.tree, targets, i, f, tmp);
      GrownTrans(t, w.tree, x.tree, targets, i, i, if x.error.None? then i + 1 else i);
    }
  }

  lemma StaysInPlace(r: Tree, s: Tree, targets: seq<Path>, i: nat, lo: nat, hi: nat, sha: Text, digest: Bytes -> Text)
    requires Grown(r, s, targets, lo, hi) && PrefixFree(targets)
    requires i < lo && i < |targets| && InPlace(r, targets[i], sha, digest)
    ensures InPlace(s, targets[i], sha, digest)
  {
  }

  function Reach(p: Placing): nat {
    if p.error.None? then p.done else WrittenUpTo(p.done, p.error)
  }

  ghost predicate AllInPlace(t: Tree, dest: Path, items: seq<Item>, digest: Bytes -> Text, lo: nat, hi: nat) {
    forall i :: lo <= i < hi <= |items| ==> InPlace(t, Target(dest, items[i]), items[i].sha256, digest)
  }

  // How far placement from j on got, with or without an error.
  ghost predicate Counted(p: Placing, j: nat, n: nat) {
    j <= p.done <= n && (p.error.None? <==> p.done == n)
  }

  lemma ReachBounds(p: Placing, j: nat, n: nat)
    requires Counted(p, j, n)
    ensures p.done <= Reach(p) <= n
  {
  }

  lemma InPlaceFromFirst(t: Tree, dest: Path, items: seq<Item>, digest: Bytes -> Text, j: nat, hi: nat)
    requires j < |items| && InPlace(t, Target(dest, items[j]), items[j].sha256, digest)
    requires AllInPlace(t, dest, items, digest, j + 1, hi)
    ensures AllInPlace(t, dest, items, digest, j, hi)
  {
  }

  lemma FirstStaysInPlace(r: Tree, s: Tree, dest: Path, items: seq<Item>, digest: Bytes -> Text, j: nat, hi: nat)
    requires j < |items| && PrefixFree(Targets(dest, items)) && Grown(r, s, Targets(dest, items), j + 1, hi)
    requires InPlace(r, Target(dest, items[j]), items[j].sha256, digest)
    ensures InPlace(s, Target(dest, items[j]), items[j].sha256, digest)
  {
    StaysInPlace(r, s, Targets(dest, items), j, j + 1, hi, items[j].sha256, digest);
  }

  /** Placement from j on stops at the first error; everything before it is in
      place, and nothing but the ways and the written targets has changed. */
  lemma {:induction false} PlaceFromGrows(t: Tree, dest: Path, items: seq<Item>, place: nat -> PlaceFault, tmp: Text,
                                          digest: Bytes -> Text, j: nat)
    requires j <= |items| && forall i :: 0 <= i < |items| ==> items[i].rel != []
    requires WfTree(t) && PrefixFree(Targets(dest, items)) && Clean(place)
    ensures var p := PlaceFrom(t, dest, items, place, tmp, digest, j);
      && Counted(p, j, |items|)
      && Grown(t, p.tree, Targets(dest, items), j, Reach(p))
      && AllInPlace(p.tree, dest, items, digest, j, p.done)
    decreases |items| - j
  {
    if j < |items| {
      var w := PlaceOne(t, Target(dest, items[j]), items[j].sha256, place(j), tmp, digest);
      PlaceOneGrows(t, Targets(dest, items), j, items[j].sha256, place(j), tmp, digest);
      if w.error.None? {
        var p := PlaceFrom(w.tree, dest, items, place, tmp, digest, j + 1);
        PlaceFromGrows(w.tree, dest, items, place, tmp, digest, j + 1);
        ReachBounds(p, j + 1, |items|);
        GrownTrans(t, w.tree, p.tree, Targets(dest, items), j, j + 1, Reach(p));
        FirstStaysInPlace(w.tree, p.tree, dest, items, digest, j, Reach(p));
        InPlaceFromFirst(p.tree, dest, items, digest, j, p.done);
      }
    }
  }

  // ----- undoing on an unmanaged destination -----

  datatype Removal = Removal(tree: Tree, ok: bool)

  // rm with force tolerates an absent path only: a directory, or a file among
  // the ancestors, makes it throw.
  predicate RemovalThrows(t: Tree, p: Path) {
    IsDir(t, p) || exists k :: 0 <= k < |p| && IsFile(t, p[..k])
  }

  function RemoveFiles(t: Tree, ps: seq<Path>): Removal {
    if ps == [] then Removal(t, true)
    else if RemovalThrows(t, ps[0]) then Removal(t, false)
    else RemoveFiles(t - {ps[0]}, ps[1..])
  }

  /** The indexed paths that held no file before the run. */
  function CreatedRels(t: Tree, dest: Path, items: seq<Item>): seq<Path> {
    if items == [] then []
    else
      var rest := CreatedRels(t, dest, items[1..]);
      if ReadFile(t, Target(dest, items[0])).None? then [items[0].rel] + rest else rest
  }

  /** Remove what the run created, then prune the emptied directories. */
  function Undo(t: Tree, dest: Path, created: seq<Path>): Removal {
    var removed := RemoveFiles(t, Below(dest, created));
    if !removed.ok then removed
    else Removal(Prune(removed.tree, Below(dest, PruneOrder(created))), true)
  }

  /** Removal whose step stop throws. */
  function RemoveUntil(t: Tree, ps: seq<Path>, stop: nat): Removal {
    if ps == [] then Removal(t, true)
    else if stop == 0 || RemovalThrows(t, ps[0]) then Removal(t, false)
    else RemoveUntil(t - {ps[0]}, ps[1..], stop - 1)
  }

  /** The directories whose removal does not fail of itself. */
  function Unstuck(ds: seq<Path>, stuck: set<Path>): seq<Path> {
    if ds == [] then []
    else if ds[0] in stuck then Unstuck(ds[1..], stuck)
    else [ds[0]] + Unstuck(ds[1..], stuck)
  }

  /** The undo under its own faults. */
  function UndoWith(t: Tree, dest: Path, created: seq<Path>, stop: nat, stuck: set<Path>): Removal {
    var removed := RemoveUntil(t, Below(dest, created), stop);
    if !removed.ok then removed
    else Removal(Prune(removed.tree, Unstuck(Below(dest, PruneOrder(created)), stuck)), true)
  }

  datatype Finalized = Finalized(tree: Tree, error: Option<PlaceError>, crashed: bool)

  /** Finalisation on an unmanaged destination, with its undo on failure. */
  function FinalizeUnmanaged(t: Tree, dest: Path, items: seq<Item>, f: Faults, tmp: Text,
                             digest: Bytes -> Text): Finalized
    requires forall i :: 0 <= i < |items| ==> items[i].rel != []
  {
    var p := PlaceFrom(t, dest, items, f.place, tmp, digest, 0);
    if p.error.None? then Finalized(p.tree, None, false)
    else
      var u := UndoWith(p.tree, dest, CreatedRels(t, dest, items), f.undoStop, f.stuck);
      Finalized(u.tree, p.error, !u.ok)
  }

  lemma {:induction false} RemoveUntilExactly(t: Tree, ps: seq<Path>, stop: nat)
    ensures RemoveUntil(t, ps, stop).ok <==> RemoveFiles(t, ps).ok && |ps| <= stop
    ensures RemoveUntil(t, ps, stop).ok ==> RemoveUntil(t, ps, stop) == RemoveFiles(t, ps)
  {
    if ps != [] && stop > 0 && !RemovalThrows(t, ps[0]) {
      RemoveUntilExactly(t - {ps[0]}, ps[1..], stop - 1);
    }
  }

  lemma {:induction false} NothingStuck(ds: seq<Path>)
    ensures Unstuck(ds, {}) == ds
  {
    if ds != [] { NothingStuck(ds[1..]); }
  }

  /** The undo ends well exactly when no removal throws; when no directory is
      stuck either, it is the undo. */
  lemma UndoWithExactly(t: Tree, dest: Path, created: seq<Path>, stop: nat, stuck: set<Path>)
    ensures UndoWith(t, dest, created, stop, stuck).ok <==> Undo(t, dest, created).ok && |created| <= stop
    ensures stuck == {} && UndoWith(t, dest, created, stop, stuck).ok ==>
      UndoWith(t, dest, created, stop, stuck) == Undo(t, dest, created)
  {
    RemoveUntilExactly(t, Below(dest, created), stop);
    NothingStuck(Below(dest, PruneOrder(created)));
  }

  // ----- what the undo leaves -----

  function Without(t: Tree, ps: seq<Path>): (r: Tree)
    ensures forall p :: p in r <==> p in t && p !in ps
    ensures forall p :: p in r ==> r[p] == t[p]
  {
    map p | p in t && p !in ps :: t[p]
  }

  lemma RemovalThrowsUnaffected(t: Tree, first: Path, p: Path)
    requires !(first <= p)
    ensures RemovalThrows(t - {first}, p) <==> RemovalThrows(t, p)
  {
    forall k | 0 <= k <= |p| ensures p[..k] != first {
      assert p[..k] <= p;
    }
    assert p[..|p|] == p;
    if k :| 0 <= k < |p| && IsFile(t, p[..k]) { assert IsFile(t - {first}, p[..k]); }
  }

  /** Removal throws exactly when one of the paths makes it; otherwise it
      removes exactly the paths. */
  lemma {:induction false} RemoveFilesExactly(t: Tree, ps: seq<Path>)
    requires PrefixFree(ps)
    ensures RemoveFiles(t, ps).ok <==> forall i :: 0 <= i < |ps| ==> !RemovalThrows(t, ps[i])
    ensures RemoveFiles(t, ps).ok ==> RemoveFiles(t, ps).tree == Without(t, ps)
  {
    if ps == [] {
      assert Without(t, ps) == t;
    } else if !RemovalThrows(t, ps[0]) {
      TailPrefixFree(ps);
      RemoveFilesExactly(t - {ps[0]}, ps[1..]);
      forall i | 1 <= i < |ps| ensures RemovalThrows(t - {ps[0]}, ps[i]) <==> RemovalThrows(t, ps[i]) {
        RemovalThrowsUnaffected(t, ps[0], ps[i]);
      }
      assert forall i :: 0 <= i < |ps| - 1 ==> ps[1..][i] == ps[i + 1];
      assert Without(t - {ps[0]}, ps[1..]) == Without(t, ps);
    }
  }

  lemma {:induction false} CreatedExactly(t: Tree, dest: Path, items: seq<Item>, rel: Path)
    ensures rel in CreatedRels(t, dest, items) <==>
      exists i :: 0 <= i < |items| && items[i].rel == rel && ReadFile(t, Target(dest, items[i])).None?
  {
    if items != [] {
      CreatedExactly(t, dest, items[1..], rel);
      assert forall i :: 0 <= i < |items| - 1 ==> items[1..][i] == items[i + 1];
      if i :| 0 <= i < |items| && items[i].rel == rel && ReadFile(t, Target(dest, items[i])).None? {
        if i > 0 { assert items[1..][i - 1] == items[i]; }
      }
    }
  }

  // Created paths, as positions in the item list.
  lemma CreatedTargets(t: Tree, dest: Path, items: seq<Item>, p: Path)
    ensures p in Below(dest, CreatedRels(t, dest, items)) <==>
      exists i :: 0 <= i < |items| && Targets(dest, items)[i] == p && ReadFile(t, p).None?
  {
    var created := CreatedRels(t, dest, items);
    BelowExactly(dest, created, p);
    if p in Below(dest, created) {
      CreatedExactly(t, dest, items, p[|dest|..]);
      var i :| 0 <= i < |items| && items[i].rel == p[|dest|..] && ReadFile(t, Target(dest, items[i])).None?;
      TargetSplits(dest, items[i], p);
      assert Targets(dest, items)[i] == p;
    }
    if i :| 0 <= i < |items| && Targets(dest, items)[i] == p && ReadFile(t, p).None? {
      assert p == dest + items[i].rel;
      CreatedExactly(t, dest, items, items[i].rel);
    }
  }

  lemma TargetSplits(dest: Path, item: Item, p: Path)
    requires dest <= p
    ensures item.rel == p[|dest|..] <==> Target(dest, item) == p
    ensures p[|dest|..] <= item.rel <==> p <= Target(dest, item)
  {
    assert p == dest + p[|dest|..];
    assert Target(dest, item)[|dest|..] == item.rel;
    if p <= Target(dest, item) {
      assert Target(dest, item)[..|p|][|dest|..] == item.rel[..|p| - |dest|];
    }
    if p[|dest|..] <= item.rel {
      assert item.rel == p[|dest|..] + item.rel[|p| - |dest|..];
      Assoc(dest, p[|dest|..], item.rel[|p| - |dest|..]);
    }
  }

  lemma TailPrefixFree(ps: seq<Path>)
    requires PrefixFree(ps) && ps != []
    ensures PrefixFree(ps[1..])
    ensures forall p :: p in ps[1..] ==> !(ps[0] <= p) && !(p <= ps[0])
  {
    forall i, j | 0 <= i < |ps| - 1 && 0 <= j < |ps| - 1 && i != j ensures !(ps[1..][i] <= ps[1..][j]) {
      assert ps[1..][i] == ps[i + 1] && ps[1..][j] == ps[j + 1];
    }
    forall p | p in ps[1..] ensures !(ps[0] <= p) && !(p <= ps[0]) {
      var i :| 0 <= i < |ps| - 1 && ps[1..][i] == p;
      assert ps[i + 1] == p;
    }
  }

  lemma {:induction false} CreatedPrefixFree(t: Tree, dest: Path, items: seq<Item>)
    requires PrefixFree(Targets(dest, items))
    ensures PrefixFree(Below(dest, CreatedRels(t, dest, items)))
  {
    if items != [] {
      var ts := Targets(dest, items);
      assert ts[1..] == Targets(dest, items[1..]);
      TailPrefixFree(ts);
      CreatedPrefixFree(t, dest, items[1..]);
      var rest := Below(dest, CreatedRels(t, dest, items[1..]));
      forall k | 0 <= k < |rest| ensures !(ts[0] <= rest[k]) && !(rest[k] <= ts[0]) {
        assert rest[k] in rest;
        CreatedTargets(t, dest, items[1..], rest[k]);
      }
      if ReadFile(t, Target(dest, items[0])).None? {
        ConsPrefixFree(Below(dest, CreatedRels(t, dest, items)), rest);
      }
    }
  }

  lemma ConsPrefixFree(bs: seq<Path>, b: seq<Path>)
    requires |bs| == |b| + 1 && PrefixFree(b)
    requires forall k :: 0 <= k < |b| ==> bs[k + 1] == b[k]
    requires forall k :: 0 <= k < |b| ==> !(bs[0] <= b[k]) && !(b[k] <= bs[0])
    ensures PrefixFree(bs)
  {
    forall i, j | 0 <= i < |bs| && 0 <= j < |bs| && i != j ensures !(bs[i] <= bs[j]) {
      if i > 0 { assert bs[i] == b[i - 1]; }
      if j > 0 { assert bs[j] == b[j - 1]; }
    }
  }

  lemma NothingAboveTarget(targets: seq<Path>, i: nat)
    requires PrefixFree(targets) && i < |targets|
    ensures !OnTheWay(targets[i], targets)
    ensures forall q, lo, hi :: q <= targets[i] && q != targets[i] ==> !WrittenAt(q, targets, lo, hi)
  {
  }

  /** Placing does not change whether removing a target throws. */
  lemma GrownKeepsRemovalThrows(t: Tree, r: Tree, targets: seq<Path>, hi: nat, i: nat)
    requires Grown(t, r, targets, 0, hi) && PrefixFree(targets) && i < |targets|
    ensures RemovalThrows(r, targets[i]) <==> RemovalThrows(t, targets[i])
  {
    var p := targets[i];
    NothingAboveTarget(targets, i);
    forall k | 0 <= k < |p| ensures IsFile(r, p[..k]) <==> IsFile(t, p[..k]) {
      assert p[..k] <= p;
      assert !WrittenAt(p[..k], targets, 0, hi);
    }
    assert IsDir(r, p) <==> IsDir(t, p);
  }

  // Setting of the undo: the initial tree, the tree at the failure, and lists.
  ghost predicate UndoSetting(t: Tree, r: Tree, dest: Path, items: seq<Item>, hi: nat) {
    && WfTree(t)
    && (forall i :: 0 <= i < |items| ==> items[i].rel != [])
    && PrefixFree(Targets(dest, items))
    && Grown(t, r, Targets(dest, items), 0, hi)
  }

  function PruneDirs(t: Tree, dest: Path, items: seq<Item>): seq<Path> {
    Below(dest, PruneOrder(CreatedRels(t, dest, items)))
  }

  lemma PruneDirsExactly(t: Tree, dest: Path, items: seq<Item>, d: Path)
    ensures d in PruneDirs(t, dest, items) <==>
      && dest <= d && d != dest
      && exists i :: 0 <= i < |items| && d <= Target(dest, items[i]) && d != Target(dest, items[i])
                     && ReadFile(t, Target(dest, items[i])).None?
  {
    var created := CreatedRels(t, dest, items);
    BelowExactly(dest, PruneOrder(created), d);
    if dest <= d {
      var e := d[|dest|..];
      PruneOrderExactly(created, e);
      forall i | 0 <= i < |items|
        ensures e <= items[i].rel && e != items[i].rel <==> d <= Target(dest, items[i]) && d != Target(dest, items[i])
      {
        TargetSplits(dest, items[i], d);
      }
      CreatedLonger(t, dest, items, e);
    }
  }

  lemma CreatedLonger(t: Tree, dest: Path, items: seq<Item>, e: Path)
    ensures var created := CreatedRels(t, dest, items);
      (exists c :: 0 <= c < |created| && e <= created[c] && e != created[c]) <==>
      (exists i :: 0 <= i < |items| && e <= items[i].rel && e != items[i].rel
                   && ReadFile(t, Target(dest, items[i])).None?)
  {
    var created := CreatedRels(t, dest, items);
    if c :| 0 <= c < |created| && e <= created[c] && e != created[c] {
      CreatedExactly(t, dest, items, created[c]);
    }
    if i :| 0 <= i < |items| && e <= items[i].rel && e != items[i].rel
            && ReadFile(t, Target(dest, items[i])).None? {
      CreatedExactly(t, dest, items, items[i].rel);
    }
  }

  function CreatedPaths(t: Tree, dest: Path, items: seq<Item>): seq<Path> {
    Below(dest, CreatedRels(t, dest, items))
  }

  /** The initial tree without whatever stood, unreadable, at a created path. */
  function Stripped(t: Tree, dest: Path, items: seq<Item>): Tree {
    Without(t, CreatedPaths(t, dest, items))
  }

  lemma PrefixesCompare(p: Path, q: Path, whole: Path)
    requires p <= whole && q <= whole
    ensures p <= q || (q <= p && q != p)
  {
    if |p| <= |q| {
      assert whole[..|q|][..|p|] == whole[..|p|];
    } else {
      assert whole[..|p|][..|q|] == whole[..|q|];
    }
  }

  lemma NewWay(t: Tree, dest: Path, items: seq<Item>, i: nat, p: Path)
    requires WfTree(t) && p !in t && i < |items|
    requires p <= Target(dest, items[i]) && p != Target(dest, items[i])
    ensures p <= dest || p in PruneDirs(t, dest, items)
  {
    var target := Target(dest, items[i]);
    assert target !in t by {
      if target in t { PrefixInTree(t, target, p); }
    }
    PrefixesCompare(p, dest, target);
    if !(p <= dest) {
      PruneDirsExactly(t, dest, items, p);
      assert ReadFile(t, Target(dest, items[i])).None?;
    }
  }

  lemma NewNode(t: Tree, r: Tree, dest: Path, items: seq<Item>, hi: nat, p: Path)
    requires UndoSetting(t, r, dest, items, hi) && p in r && p !in t
    ensures p <= dest || (r[p] == Dir && p in PruneDirs(t, dest, items)) || p in CreatedPaths(t, dest, items)
  {
    var ts := Targets(dest, items);
    if r[p] == Dir {
      var i :| 0 <= i < |ts| && p <= ts[i] && p != ts[i];
      NewWay(t, dest, items, i, p);
    } else {
      CreatedTargets(t, dest, items, p);
      assert WrittenAt(p, ts, 0, hi);
    }
  }

  lemma WithoutLeavesIsWf(t: Tree, ps: seq<Path>)
    requires WfTree(t) && forall p :: p in ps ==> !IsDir(t, p)
    ensures WfTree(Without(t, ps))
  {
  }

  // Below a directory the run made, everything left is such a directory.
  lemma BelowNewDir(t: Tree, r: Tree, dest: Path, items: seq<Item>, hi: nat, p: Path, q: Path)
    requires UndoSetting(t, r, dest, items, hi)
    requires p !in t && !(p <= dest) && p <= q
    requires q in r && q !in CreatedPaths(t, dest, items)
    ensures r[q] == Dir && q in PruneDirs(t, dest, items)
  {
    assert q !in t by {
      if q in t { PrefixInTree(t, q, p); }
    }
    NewNode(t, r, dest, items, hi, q);
    if q <= dest { PrefixOfPrefix(p, q, dest); }
  }

  lemma PrefixOfPrefix(p: Path, q: Path, whole: Path)
    requires p <= q && q <= whole
    ensures p <= whole
  {
    assert whole[..|q|][..|p|] == whole[..|p|];
  }

  // Left over below a directory the run may prune: kept from the initial tree,
  // or made by the run and prunable itself.
  lemma BelowPrunable(t: Tree, r: Tree, dest: Path, items: seq<Item>, hi: nat, p: Path, q: Path)
    requires UndoSetting(t, r, dest, items, hi)
    requires p in PruneDirs(t, dest, items) && p <= q
    requires q in r && q !in t && q !in CreatedPaths(t, dest, items)
    ensures r[q] == Dir && q in PruneDirs(t, dest, items)
  {
    NewNode(t, r, dest, items, hi, q);
    if q <= dest {
      PruneDirsExactly(t, dest, items, p);
      PrefixOfPrefix(p, q, dest);
    }
  }

  lemma KeptNodes(t: Tree, r: Tree, targets: seq<Path>, hi: nat, cs: seq<Path>)
    requires Grown(t, r, targets, 0, hi)
    ensures forall q :: q in Without(t, cs) ==> q in Without(r, cs) && (Without(r, cs)[q] == Dir <==> t[q] == Dir)
    ensures forall q :: q in Without(r, cs) && q in t ==> q in Without(t, cs)
  {
  }

  lemma HollowUnchanged(t: Tree, r: Tree, dest: Path, items: seq<Item>, hi: nat, p: Path)
    requires UndoSetting(t, r, dest, items, hi) && p in t
    ensures Hollow(Without(r, CreatedPaths(t, dest, items)), PruneDirs(t, dest, items), p)
       <==> Hollow(Stripped(t, dest, items), PruneDirs(t, dest, items), p)
  {
    var ds, cs := PruneDirs(t, dest, items), CreatedPaths(t, dest, items);
    var x, s := Without(r, cs), Without(t, cs);
    KeptNodes(t, r, Targets(dest, items), hi, cs);
    if p in ds && p in s {
      forall q | q in x && p <= q && q !in s ensures q in ds && x[q] == Dir {
        BelowPrunable(t, r, dest, items, hi, p, q);
      }
      SameHollow(x, s, ds, p);
    }
  }

  lemma SameHollow(x: Tree, s: Tree, ds: seq<Path>, p: Path)
    requires p in s
    requires forall q :: q in s ==> q in x && (x[q] == Dir <==> s[q] == Dir)
    requires forall q :: q in x && p <= q && q !in s ==> q in ds && x[q] == Dir
    ensures Hollow(x, ds, p) <==> Hollow(s, ds, p)
  {
  }

  lemma NewDirsAreHollow(t: Tree, r: Tree, dest: Path, items: seq<Item>, hi: nat, p: Path)
    requires UndoSetting(t, r, dest, items, hi)
    requires p in Without(r, CreatedPaths(t, dest, items)) && p !in t
    ensures Hollow(Without(r, CreatedPaths(t, dest, items)), PruneDirs(t, dest, items), p) <==> !(p <= dest)
  {
    var x := Without(r, CreatedPaths(t, dest, items));
    if p <= dest {
      PruneDirsExactly(t, dest, items, p);
    } else {
      BelowNewDir(t, r, dest, items, hi, p, p);
      forall q | q in x && p <= q ensures q in PruneDirs(t, dest, items) && x[q] == Dir {
        BelowNewDir(t, r, dest, items, hi, p, q);
      }
    }
  }

  /** What the undo leaves, exactly: the initial tree without what stood at the
      created paths and without the directories that are then hollow, plus the
      directories made for the destination itself. */
  lemma UndoExactly(t: Tree, r: Tree, dest: Path, items: seq<Item>, hi: nat)
    requires UndoSetting(t, r, dest, items, hi)
    ensures var u := Undo(r, dest, CreatedRels(t, dest, items));
      && (u.ok <==> forall p :: p in CreatedPaths(t, dest, items) ==> !RemovalThrows(t, p))
      && (u.ok ==>
           && WfTree(u.tree)
           && (forall p :: p in u.tree <==>
                 || (p in Stripped(t, dest, items) && !Hollow(Stripped(t, dest, items), PruneDirs(t, dest, items), p))
                 || (p in r && p !in t && p <= dest))
           && (forall p :: p in u.tree ==> p in r && u.tree[p] == r[p]))
  {
    var created := CreatedRels(t, dest, items);
    var cs, ds := CreatedPaths(t, dest, items), PruneDirs(t, dest, items);
    CreatedPrefixFree(t, dest, items);
    RemoveFilesExactly(r, cs);
    CreatedThrowsAlike(t, r, dest, items, hi);
    var x := Without(r, cs);
    if forall i :: 0 <= i < |cs| ==> !RemovalThrows(r, cs[i]) {
      WithoutLeavesIsWf(r, cs);
      PruneOrderIsInnermostFirst(created);
      BelowKeepsInnermostFirst(dest, PruneOrder(created));
      PruneRemovesExactlyHollow(x, ds);
      UndoneDomain(t, r, dest, items, hi);
    }
  }

  lemma CreatedThrowsAlike(t: Tree, r: Tree, dest: Path, items: seq<Item>, hi: nat)
    requires UndoSetting(t, r, dest, items, hi)
    ensures forall i :: 0 <= i < |CreatedPaths(t, dest, items)| ==>
      (RemovalThrows(r, CreatedPaths(t, dest, items)[i]) <==> RemovalThrows(t, CreatedPaths(t, dest, items)[i]))
  {
    var cs := CreatedPaths(t, dest, items);
    forall k | 0 <= k < |cs| ensures RemovalThrows(r, cs[k]) <==> RemovalThrows(t, cs[k]) {
      assert cs[k] in cs;
      CreatedTargets(t, dest, items, cs[k]);
      var i :| 0 <= i < |items| && Targets(dest, items)[i] == cs[k];
      GrownKeepsRemovalThrows(t, r, Targets(dest, items), hi, i);
    }
  }

  lemma UndoneDomain(t: Tree, r: Tree, dest: Path, items: seq<Item>, hi: nat)
    requires UndoSetting(t, r, dest, items, hi)
    ensures var cs, ds := CreatedPaths(t, dest, items), PruneDirs(t, dest, items);
      forall p :: p in Without(r, cs) && !Hollow(Without(r, cs), ds, p) <==>
        || (p in Stripped(t, dest, items) && !Hollow(Stripped(t, dest, items), ds, p))
        || (p in r && p !in t && p <= dest)
  {
    var cs, ds := CreatedPaths(t, dest, items), PruneDirs(t, dest, items);
    var x := Without(r, cs);
    forall p
      ensures p in x && !Hollow(x, ds, p) <==>
        || (p in Stripped(t, dest, items) && !Hollow(Stripped(t, dest, items), ds, p))
        || (p in r && p !in t && p <= dest)
    {
      if p in t {
        HollowUnchanged(t, r, dest, items, hi, p);
      } else if p in x {
        NewDirsAreHollow(t, r, dest, items, hi, p);
      } else if p in r {
        CreatedIsNotAboveDest(t, dest, items, p);
      }
    }
  }

  lemma CreatedIsNotAboveDest(t: Tree, dest: Path, items: seq<Item>, p: Path)
    requires forall i :: 0 <= i < |items| ==> items[i].rel != []
    requires p in CreatedPaths(t, dest, items)
    ensures !(p <= dest)
  {
    CreatedTargets(t, dest, items, p);
    var i :| 0 <= i < |items| && Targets(dest, items)[i] == p;
    assert |p| == |dest| + |items[i].rel|;
  }
}
