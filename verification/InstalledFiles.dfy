// What a placed run leaves on disk, entry by entry of the index it was given.
module InstalledFiles {
  import opened Sequences
  import opened Texts
  import opened Utf8
  import opened SafePath
  import opened PayloadIndex
  import opened TrustPolicy
  import opened FileTree
  import opened Install
  import opened Managed
  import opened InstallRun
  import opened InstallTheorems
  import opened InstallSafety

  /** The entry is one of the two lists whose files a run installs. */
  ghost predicate Installs(index: Index, e: IndexEntry) {
    e in index.skills || e in index.supportingFiles
  }

  /** The path is the entry's place: below the destination, at the parts of what
      follows payload/skills/ in its path. */
  ghost predicate IsPlaceOf(p: Path, dest: Path, e: IndexEntry) {
    exists rest: Text :: e.path == Lit("payload/skills/") + rest && p == dest + Split(rest)
  }

  ghost function MarkerOf(dest: Path): Path {
    dest + [Lit(".csm-bootstrap.json")]
  }

  ghost predicate HoldsEntry(r: Tree, dest: Path, e: IndexEntry, m: Machine) {
    exists p :: IsPlaceOf(p, dest, e) && IsFile(r, p)
      && if p == MarkerOf(dest) then r[p].bytes == m.marker else m.digest(r[p].bytes) == e.sha256
  }

  ghost predicate IsEntryPlace(p: Path, dest: Path, index: Index) {
    exists e :: Installs(index, e) && IsPlaceOf(p, dest, e)
  }

  ghost predicate LeadsToEntry(p: Path, dest: Path, index: Index) {
    exists q :: IsEntryPlace(q, dest, index) && p <= q && p != q
  }

  // In the directory of a skill, which is the first part of an entry's place.
  ghost predicate InEntrySkill(p: Path, dest: Path, index: Index) {
    exists q :: IsEntryPlace(q, dest, index) && dest <= p && |dest| < |p| && |dest| < |q| && p[|dest|] == q[|dest|]
  }

  /** A marker that can be read and is recognised stands in the destination. */
  ghost predicate HasMarker(t: Tree, dest: Path, m: Machine) {
    && MarkerOf(dest) in t && t[MarkerOf(dest)].File? && t[MarkerOf(dest)].readable
    && m.isMarker(t[MarkerOf(dest)].bytes)
  }

  // ----- the lists and the items -----

  lemma ItemAt(index: Index, i: nat)
    requires i < |index.skills| + |index.supportingFiles|
    ensures |PlacedItems(index)| == |index.skills| + |index.supportingFiles|
    ensures PlacedItems(index)[i]
         == ItemOf(if i < |index.skills| then index.skills[i] else index.supportingFiles[i - |index.skills|])
  {
  }

  lemma ItemCount(index: Index)
    ensures |PlacedItems(index)| == |index.skills| + |index.supportingFiles|
  {
  }

  lemma EntryHasItem(index: Index, e: IndexEntry) returns (i: nat)
    requires Installs(index, e)
    ensures i < |PlacedItems(index)| && PlacedItems(index)[i] == ItemOf(e)
    ensures e in PlacedEntries(index)
  {
    if e in index.skills {
      i :| 0 <= i < |index.skills| && index.skills[i] == e;
    } else {
      var k :| 0 <= k < |index.supportingFiles| && index.supportingFiles[k] == e;
      i := |index.skills| + k;
    }
    ItemAt(index, i);
  }

  lemma ItemHasEntry(index: Index, i: nat) returns (e: IndexEntry)
    requires i < |PlacedItems(index)|
    ensures Installs(index, e) && PlacedItems(index)[i] == ItemOf(e)
  {
    ItemCount(index);
    ItemAt(index, i);
    e := if i < |index.skills| then index.skills[i] else index.supportingFiles[i - |index.skills|];
  }

  lemma PlaceOfItem(e: IndexEntry, dest: Path, p: Path)
    requires StartsWith(e.path, PLACED_PREFIX)
    ensures IsPlaceOf(p, dest, e) <==> p == dest + ItemOf(e).rel
  {
    var n := |PLACED_PREFIX|;
    assert PLACED_PREFIX == Lit("payload/skills/");
    assert e.path == Lit("payload/skills/") + e.path[n..];
    if IsPlaceOf(p, dest, e) {
      var rest: Text :| e.path == Lit("payload/skills/") + rest && p == dest + Split(rest);
      assert rest == e.path[n..];
    }
  }

  lemma EntryPlaced(index: Index, dest: Path, i: nat)
    requires IndexProblem(index) == None && i < |PlacedItems(index)|
    ensures IsEntryPlace(Target(dest, PlacedItems(index)[i]), dest, index)
  {
    var e := ItemHasEntry(index, i);
    PrefixOfInstalled(index, e);
    PlaceOfItem(e, dest, Target(dest, PlacedItems(index)[i]));
  }

  lemma PrefixOfInstalled(index: Index, e: IndexEntry)
    requires IndexProblem(index) == None && Installs(index, e)
    ensures StartsWith(e.path, PLACED_PREFIX)
  {
    PlacedEntriesChecked(index);
    var i := EntryHasItem(index, e);
    var k :| 0 <= k < |PlacedEntries(index)| && PlacedEntries(index)[k] == e;
  }

  // ----- what the overlay holds -----

  lemma HoldsAtPlace(placed: Tree, dest: Path, e: IndexEntry, m: Machine, p: Path)
    requires IsPlaceOf(p, dest, e) && IsFile(placed, p) && m.digest(placed[p].bytes) == e.sha256
    ensures HoldsEntry(placed[MarkerOf(dest) := Fresh(m.marker, 0x1A4)], dest, e, m)
  {
  }

  lemma InPlaceAt(base: Tree, placed: Tree, dest: Path, items: seq<Item>, digest: Bytes -> Text, i: nat)
    requires IsOverlay(base, placed, dest, items, digest) && i < |items|
    ensures IsFile(placed, Target(dest, items[i]))
    ensures digest(placed[Target(dest, items[i])].bytes) == items[i].sha256
  {
    assert InPlace(placed, Target(dest, items[i]), items[i].sha256, digest);
  }

  lemma OverlayHolds(base: Tree, placed: Tree, dest: Path, index: Index, m: Machine, e: IndexEntry)
    requires IndexProblem(index) == None && IsOverlay(base, placed, dest, PlacedItems(index), m.digest)
    requires Installs(index, e)
    ensures HoldsEntry(placed[MarkerOf(dest) := Fresh(m.marker, 0x1A4)], dest, e, m)
  {
    var i := EntryHasItem(index, e);
    PrefixOfInstalled(index, e);
    InPlaceAt(base, placed, dest, PlacedItems(index), m.digest, i);
    PlaceOfItem(e, dest, Target(dest, PlacedItems(index)[i]));
    HoldsAtPlace(placed, dest, e, m, Target(dest, PlacedItems(index)[i]));
  }

  // A node the overlay adds or changes is a target or lies above one.
  lemma AddedAt(base: Tree, placed: Tree, dest: Path, items: seq<Item>, digest: Bytes -> Text, p: Path)
    returns (i: nat)
    requires IsOverlay(base, placed, dest, items, digest)
    requires p in placed && (p !in base || placed[p] != base[p])
    ensures i < |items| && p <= Target(dest, items[i])
    ensures if p == Target(dest, items[i]) then placed[p].File? else placed[p] == Dir
  {
    var ts := Targets(dest, items);
    if p in ts {
      i :| 0 <= i < |ts| && ts[i] == p;
      InPlaceAt(base, placed, dest, items, digest, i);
    } else {
      assert Reached(p, ts);
      i :| 0 <= i < |ts| && p <= ts[i];
    }
  }

  lemma OverlayAdds(base: Tree, placed: Tree, dest: Path, index: Index, digest: Bytes -> Text, p: Path)
    requires IndexProblem(index) == None && IsOverlay(base, placed, dest, PlacedItems(index), digest)
    requires p in placed && (p !in base || placed[p] != base[p])
    ensures (placed[p].File? && IsEntryPlace(p, dest, index)) || (placed[p] == Dir && LeadsToEntry(p, dest, index))
  {
    var i := AddedAt(base, placed, dest, PlacedItems(index), digest, p);
    EntryPlaced(index, dest, i);
  }

  lemma SkillOfEntry(index: Index, dest: Path, p: Path)
    requires IndexProblem(index) == None && UnderSkills(p, dest, SkillDirs(PlacedItems(index)))
    ensures InEntrySkill(p, dest, index)
  {
    var items := PlacedItems(index);
    var names := FirstNames(items);
    SameMultisetSameMembers(SkillDirs(items), Dedup(names), p[|dest|]);
    var i :| 0 <= i < |names| && names[i] == p[|dest|];
    EntryPlaced(index, dest, i);
    assert Target(dest, items[i])[|dest|] == names[i];
  }

  lemma BaseDiffers(t: Tree, dest: Path, index: Index, m: Machine, p: Path)
    requires IndexProblem(index) == None && p in t && p !in Base(t, dest, PlacedItems(index), m)
    ensures HasMarker(t, dest, m) && InEntrySkill(p, dest, index)
  {
    SkillOfEntry(index, dest, p);
    assert MARKER_NAME == Lit(".csm-bootstrap.json");
  }

  ghost predicate NewOrChanged(t: Tree, r: Tree, p: Path) {
    p in r && (p !in t || r[p] != t[p])
  }

  // Everything a placed run comes to, over the tree its files are placed on.
  lemma PlacedRunParts(input: Input, t: Tree, m: Machine, s: Schedule) returns (dest: Path, base: Tree, placed: Tree)
    requires WfTree(t) && RunProtocol(input, t, m, s).outcome.Placed?
    ensures IndexProblem(input.index) == None && base == Base(t, dest, PlacedItems(input.index), m)
    ensures RunProtocol(input, t, m, s).outcome == Placed(dest, |input.index.skills| + |input.index.supportingFiles|)
    ensures IsOverlay(base, placed, dest, PlacedItems(input.index), m.digest)
    ensures RunProtocol(input, t, m, s).tree == placed[MarkerOf(dest) := Fresh(m.marker, 0x1A4)]
    ensures (input.destination == Absolute(dest)
             || (input.confirmation.Answer? && input.confirmation.destination == Absolute(dest)))
  {
    PlacedRunIsOverlay(input, t, m, s);
    MaterializesOnlyWhenApproved(input, t, m, s);
    dest := Chosen(input, t).value;
    RunIsMaterialize(input, t, m, s);
    MaterializeEither(t, dest, input, m, s);
    base := Base(t, dest, PlacedItems(input.index), m);
    placed := PlacedTree(t, dest, PlacedItems(input.index), input.tmp, m, s).tree;
    ItemCount(input.index);
    assert MARKER_NAME == Lit(".csm-bootstrap.json");
  }

  /** A placed run: every entry of the skills and of the supporting files stands at
      its place below the destination with its digest, and they are what is counted;
      every other new or changed file is the marker, every new directory leads to an
      entry; what is gone stood in an entry's skill of a marked destination. */
  lemma PlacedRunInstallsTheLists(input: Input, t: Tree, m: Machine, s: Schedule)
    requires WfTree(t) && RunProtocol(input, t, m, s).outcome.Placed?
    ensures var r := RunProtocol(input, t, m, s);
      var dest := r.outcome.destination;
      && (input.destination == Absolute(dest)
          || (input.confirmation.Answer? && input.confirmation.destination == Absolute(dest)))
      && r.outcome.verified == |input.index.skills| + |input.index.supportingFiles|
      && (forall e :: Installs(input.index, e) ==> HoldsEntry(r.tree, dest, e, m))
      && MarkerOf(dest) in r.tree && r.tree[MarkerOf(dest)] == File(m.marker, 420, true)
      && (forall p :: NewOrChanged(t, r.tree, p) ==>
            || p == MarkerOf(dest)
            || (r.tree[p].File? && IsEntryPlace(p, dest, input.index))
            || (r.tree[p] == Dir && LeadsToEntry(p, dest, input.index)))
      && (forall p :: p in t && p !in r.tree ==> HasMarker(t, dest, m) && InEntrySkill(p, dest, input.index))
  {
    var r, index := RunProtocol(input, t, m, s), input.index;
    var dest, base, placed := PlacedRunParts(input, t, m, s);
    forall e | Installs(index, e) ensures HoldsEntry(r.tree, dest, e, m) {
      OverlayHolds(base, placed, dest, index, m, e);
    }
    forall p | NewOrChanged(t, r.tree, p) && p != MarkerOf(dest)
      ensures (r.tree[p].File? && IsEntryPlace(p, dest, index)) || (r.tree[p] == Dir && LeadsToEntry(p, dest, index))
    {
      OverlayAdds(base, placed, dest, index, m.digest, p);
    }
    forall p | p in t && p !in r.tree ensures HasMarker(t, dest, m) && InEntrySkill(p, dest, index) {
      BaseDiffers(t, dest, index, m, p);
    }
  }
}
