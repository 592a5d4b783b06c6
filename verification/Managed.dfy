// Replacing a managed installation: backup, removal, placement, restore.
module Managed {
  import opened Texts
  import opened Utf8
  import opened FileTree
  import opened Install
  import opened AllOrNothing

  /** Inside (or at) one of the skill directories of the destination. */
  predicate UnderSkills(p: Path, dest: Path, skills: seq<Text>) {
    dest <= p && |dest| < |p| && p[|dest|] in skills
  }

  function WithoutSkills(t: Tree, dest: Path, skills: seq<Text>): (r: Tree)
    ensures forall p :: p in r <==> p in t && !UnderSkills(p, dest, skills)
    ensures forall p :: p in r ==> r[p] == t[p]
  {
    map p | p in t && !UnderSkills(p, dest, skills) :: t[p]
  }

  /** copyTree of the skill directories: links are not copied. */
  function BackupOf(t: Tree, dest: Path, skills: seq<Text>): (r: Tree)
    ensures forall p :: p in r <==> p in t && UnderSkills(p, dest, skills) && t[p] != Link
    ensures forall p :: p in r ==> r[p] == t[p]
  {
    map p | p in t && UnderSkills(p, dest, skills) && t[p] != Link :: t[p]
  }

  predicate SkillsPresent(t: Tree, dest: Path, skills: seq<Text>) {
    forall i :: 0 <= i < |skills| ==> IsDir(t, dest + [skills[i]])
  }

  /** The node goes when everything at or below it, in its skill, is gone. */
  predicate TornAway(t: Tree, dest: Path, skill: Text, gone: set<Path>, p: Path) {
    UnderSkills(p, dest, [skill]) && forall q :: q in t && p <= q ==> q in gone
  }

  /** A recursive removal of one skill that fails when these nodes are gone. */
  function Torn(t: Tree, dest: Path, skill: Text, gone: set<Path>): (r: Tree)
    ensures forall p :: p in r <==> p in t && !TornAway(t, dest, skill, gone, p)
    ensures forall p :: p in r ==> r[p] == t[p]
  {
    map p | p in t && !TornAway(t, dest, skill, gone, p) :: t[p]
  }

  /** What such a removal leaves is a file tree again, and any part of the skill that
      holds all that lies below it can be what has gone. */
  lemma TornExactly(t: Tree, dest: Path, skill: Text, gone: set<Path>)
    requires WfTree(t)
    ensures WfTree(Torn(t, dest, skill, gone))
    ensures (forall p, q :: p in gone && q in t && p <= q ==> q in gone) ==>
      forall p :: p in Torn(t, dest, skill, gone) <==> p in t && !(p in gone && UnderSkills(p, dest, [skill]))
  {
    forall p | p in Torn(t, dest, skill, gone) && p != [] ensures Parent(p) in Torn(t, dest, skill, gone) {
      assert Parent(p) <= p;
    }
  }

  /** Removing the skills one by one, when step stop fails halfway. */
  function Cleared(t: Tree, dest: Path, skills: seq<Text>, stop: nat, gone: set<Path>): Tree {
    if stop >= |skills| then WithoutSkills(t, dest, skills)
    else Torn(WithoutSkills(t, dest, skills[..stop]), dest, skills[stop], gone)
  }

  datatype Replaced = Replaced(tree: Tree, error: Option<PlaceError>, restoreFailed: bool)

  function Restore(t: Tree, r: Tree, dest: Path, skills: seq<Text>, stop: nat, gone: set<Path>): Replaced {
    var n := |skills|;
    var cleared := Cleared(r, dest, skills, stop, gone);
    if stop < n then Replaced(cleared, None, true)
    else if stop < 2 * n then Replaced(cleared + BackupOf(t, dest, skills[..stop - n]), None, true)
    else Replaced(cleared + BackupOf(t, dest, skills), None, false)
  }

  /** Finalisation on a managed destination. */
  function FinalizeManaged(t: Tree, dest: Path, items: seq<Item>, skills: seq<Text>, f: Faults, tmp: Text,
                           digest: Bytes -> Text): Replaced
    requires forall i :: 0 <= i < |items| ==> items[i].rel != []
  {
    var n := |skills|;
    if !CopiesSkills(t, dest, skills, f) then Replaced(t, Some(Interrupted), false)
    else if f.backupStop < 2 * n then
      Replaced(Cleared(t, dest, skills, f.backupStop - n, f.gone), Some(Interrupted), false)
    else
      var p := PlaceFrom(WithoutSkills(t, dest, skills), dest, items, f.place, tmp, digest, 0);
      if p.error.None? then Replaced(p.tree, None, false)
      else
        var r := Restore(t, p.tree, dest, skills, f.restoreStop, f.restoreGone);
        r.(error := p.error)
  }

  // The backup area could be made and every skill be copied to it.
  predicate CopiesSkills(t: Tree, dest: Path, skills: seq<Text>, f: Faults) {
    f.backupReady && SkillsPresent(t, dest, skills) && f.backupStop >= |skills|
  }

  // The skills were backed up and removed.
  predicate BackedUp(t: Tree, dest: Path, skills: seq<Text>, f: Faults) {
    CopiesSkills(t, dest, skills, f) && f.backupStop >= 2 * |skills|
  }

  // ----- what a failed replacement leaves -----

  /** The initial tree without the symbolic links inside the skill directories. */
  function WithoutSkillLinks(t: Tree, dest: Path, skills: seq<Text>): (r: Tree)
    ensures forall p :: p in r <==> p in t && !(UnderSkills(p, dest, skills) && t[p] == Link)
    ensures forall p :: p in r ==> r[p] == t[p]
  {
    map p | p in t && !(UnderSkills(p, dest, skills) && t[p] == Link) :: t[p]
  }

  ghost predicate ManagedSetting(t: Tree, dest: Path, items: seq<Item>, skills: seq<Text>) {
    && WfTree(t) && IsDir(t, dest)
    && PrefixFree(Targets(dest, items))
    && forall i :: 0 <= i < |items| ==> items[i].rel != [] && items[i].rel[0] in skills
  }

  lemma TargetUnderSkills(dest: Path, items: seq<Item>, skills: seq<Text>, i: nat)
    requires i < |items| && items[i].rel != [] && items[i].rel[0] in skills
    ensures UnderSkills(Target(dest, items[i]), dest, skills)
  {
  }

  lemma WithoutSkillsIsWf(t: Tree, dest: Path, skills: seq<Text>)
    requires WfTree(t)
    ensures WfTree(WithoutSkills(t, dest, skills))
  {
    forall p | p != [] && UnderSkills(Parent(p), dest, skills) ensures UnderSkills(p, dest, skills) {
      assert Parent(p) <= p;
    }
  }

  // A node on the way to a target is on the way to the destination or inside a skill.
  lemma WayUnderSkills(dest: Path, items: seq<Item>, skills: seq<Text>, i: nat, p: Path)
    requires i < |items| && items[i].rel != [] && items[i].rel[0] in skills
    requires p <= Target(dest, items[i])
    ensures p <= dest || UnderSkills(p, dest, skills)
  {
    var target := Target(dest, items[i]);
    PrefixesCompare(p, dest, target);
    if !(p <= dest) {
      assert p[|dest|] == target[|dest|] == items[i].rel[0];
    }
  }

  /** Placement on a managed destination changes nothing outside the skills. */
  lemma PlacementStaysUnderSkills(t: Tree, dest: Path, items: seq<Item>, skills: seq<Text>, r: Tree, hi: nat)
    requires ManagedSetting(t, dest, items, skills)
    requires Grown(WithoutSkills(t, dest, skills), r, Targets(dest, items), 0, hi)
    ensures WithoutSkills(r, dest, skills) == WithoutSkills(t, dest, skills)
  {
    var ts, base := Targets(dest, items), WithoutSkills(t, dest, skills);
    forall p | p in r && !UnderSkills(p, dest, skills) ensures p in base && r[p] == base[p] {
      if p in base {
        if r[p] != base[p] {
          var i :| 0 <= i < |ts| && ts[i] == p;
          TargetUnderSkills(dest, items, skills, i);
        }
      } else {
        var i :| 0 <= i < |ts| && p <= ts[i];
        WayUnderSkills(dest, items, skills, i, p);
        PrefixInTree(t, dest, p);
      }
    }
  }

  lemma BackupGivesBack(t: Tree, dest: Path, skills: seq<Text>)
    ensures WithoutSkills(t, dest, skills) + BackupOf(t, dest, skills) == WithoutSkillLinks(t, dest, skills)
  {
  }

  lemma RestoreExactly(t: Tree, r: Tree, dest: Path, skills: seq<Text>, stop: nat, gone: set<Path>)
    requires WithoutSkills(r, dest, skills) == WithoutSkills(t, dest, skills)
    ensures var x := Restore(t, r, dest, skills, stop, gone);
      !x.restoreFailed ==> x.tree == WithoutSkillLinks(t, dest, skills)
  {
    BackupGivesBack(t, dest, skills);
  }

  lemma PlacedOutsideSkills(t: Tree, dest: Path, items: seq<Item>, skills: seq<Text>, place: nat -> PlaceFault,
                            tmp: Text, digest: Bytes -> Text)
    requires ManagedSetting(t, dest, items, skills) && Clean(place)
    ensures var p := PlaceFrom(WithoutSkills(t, dest, skills), dest, items, place, tmp, digest, 0);
      WithoutSkills(p.tree, dest, skills) == WithoutSkills(t, dest, skills)
  {
    var base := WithoutSkills(t, dest, skills);
    WithoutSkillsIsWf(t, dest, skills);
    PlaceFromGrows(base, dest, items, place, tmp, digest, 0);
    var p := PlaceFrom(base, dest, items, place, tmp, digest, 0);
    PlacementStaysUnderSkills(t, dest, items, skills, p.tree, Reach(p));
  }

  // A temporary file is left behind beside the skills, where no restore removes it.
  predicate LeavesOutside(t: Tree, dest: Path, items: seq<Item>, skills: seq<Text>, place: nat -> PlaceFault, tmp: Text,
                          digest: Bytes -> Text)
    requires forall i :: 0 <= i < |items| ==> items[i].rel != []
  {
    var base := WithoutSkills(t, dest, skills);
    var p := PlaceFrom(base, dest, items, place, tmp, digest, 0);
    && p.tree != PlaceFrom(base, dest, items, Cleaned(place), tmp, digest, 0).tree
    && p.done < |items| && !UnderSkills(LeftName(dest, items, p.done, tmp), dest, skills)
  }

  // What placement did outside the skills: nothing, or one temporary file.
  lemma OutsideSkills(t: Tree, dest: Path, items: seq<Item>, skills: seq<Text>, place: nat -> PlaceFault, tmp: Text,
                      digest: Bytes -> Text)
    requires ManagedSetting(t, dest, items, skills)
    ensures var p := PlaceFrom(WithoutSkills(t, dest, skills), dest, items, place, tmp, digest, 0);
      if LeavesOutside(t, dest, items, skills, place, tmp, digest) then
        && LeftName(dest, items, p.done, tmp) in WithoutSkills(p.tree, dest, skills)
        && LeftName(dest, items, p.done, tmp) !in t
      else WithoutSkills(p.tree, dest, skills) == WithoutSkills(t, dest, skills)
  {
    var base := WithoutSkills(t, dest, skills);
    var p := PlaceFrom(base, dest, items, place, tmp, digest, 0);
    var q := PlaceFrom(base, dest, items, Cleaned(place), tmp, digest, 0);
    LeftoverIsAll(base, dest, items, place, tmp, digest, 0);
    PlacedOutsideSkills(t, dest, items, skills, Cleaned(place), tmp, digest);
    if p.tree != q.tree {
      TempOutsideSkills(t, q.tree, p.tree, dest, skills, LeftName(dest, items, p.done, tmp));
    }
  }

  lemma TempOutsideSkills(t: Tree, q: Tree, r: Tree, dest: Path, skills: seq<Text>, left: Path)
    requires WithoutSkills(q, dest, skills) == WithoutSkills(t, dest, skills) && left !in q
    requires left in r && r == q[left := r[left]]
    ensures UnderSkills(left, dest, skills) ==> WithoutSkills(r, dest, skills) == WithoutSkills(t, dest, skills)
    ensures !UnderSkills(left, dest, skills) ==> left in WithoutSkills(r, dest, skills) && left !in t
  {
    assert left in WithoutSkills(t, dest, skills) <==> left in t && !UnderSkills(left, dest, skills);
    assert left !in WithoutSkills(q, dest, skills);
  }

  lemma RestoreKeepsOutside(t: Tree, r: Tree, dest: Path, skills: seq<Text>, stop: nat, gone: set<Path>, p: Path)
    requires p in WithoutSkills(r, dest, skills) && !Restore(t, r, dest, skills, stop, gone).restoreFailed
    ensures p in Restore(t, r, dest, skills, stop, gone).tree
  {
  }

  /** A replacement that fails and whose removal and restore were not
      interrupted leaves the initial tree without the links in the skills, and
      beside it at most a temporary file. */
  lemma FailedReplacementExactly(t: Tree, dest: Path, items: seq<Item>, skills: seq<Text>, f: Faults, tmp: Text,
                                 digest: Bytes -> Text)
    requires ManagedSetting(t, dest, items, skills) && BackedUp(t, dest, skills, f)
    ensures var r := FinalizeManaged(t, dest, items, skills, f, tmp, digest);
      r.error.Some? && !r.restoreFailed ==>
        if LeavesOutside(t, dest, items, skills, f.place, tmp, digest) then r.tree != t
        else r.tree == WithoutSkillLinks(t, dest, skills)
  {
    var p := PlaceFrom(WithoutSkills(t, dest, skills), dest, items, f.place, tmp, digest, 0);
    OutsideSkills(t, dest, items, skills, f.place, tmp, digest);
    var r := Restore(t, p.tree, dest, skills, f.restoreStop, f.restoreGone);
    if p.error.Some? && !r.restoreFailed {
      if LeavesOutside(t, dest, items, skills, f.place, tmp, digest) {
        RestoreKeepsOutside(t, p.tree, dest, skills, f.restoreStop, f.restoreGone, LeftName(dest, items, p.done, tmp));
      } else {
        RestoreExactly(t, p.tree, dest, skills, f.restoreStop, f.restoreGone);
      }
    }
  }

  predicate HasSkillLink(t: Tree, dest: Path, skills: seq<Text>) {
    exists p :: p in t && UnderSkills(p, dest, skills) && t[p] == Link
  }

  /** The removal before placing fails before anything is gone. */
  predicate RemovesNothing(t: Tree, dest: Path, skills: seq<Text>, f: Faults) {
    f.backupStop == |skills| && skills != [] && forall p :: p in t ==> !TornAway(t, dest, skills[0], f.gone, p)
  }

  lemma InterruptedRemovalExactly(t: Tree, dest: Path, skills: seq<Text>, f: Faults)
    requires CopiesSkills(t, dest, skills, f) && f.backupStop < 2 * |skills|
    ensures Cleared(t, dest, skills, f.backupStop - |skills|, f.gone) == t <==> RemovesNothing(t, dest, skills, f)
  {
    var k := f.backupStop - |skills|;
    var cleared := Cleared(t, dest, skills, k, f.gone);
    if k == 0 {
      assert WithoutSkills(t, dest, skills[..0]) == t;
      if RemovesNothing(t, dest, skills, f) { assert cleared == t; }
    } else {
      var first := dest + [skills[0]];
      assert skills[..k][0] == skills[0];
      assert first in t && first !in cleared;
    }
  }

  lemma LinksAreLost(t: Tree, dest: Path, skills: seq<Text>)
    ensures WithoutSkillLinks(t, dest, skills) == t <==> !HasSkillLink(t, dest, skills)
  {
    if HasSkillLink(t, dest, skills) {
      var p :| p in t && UnderSkills(p, dest, skills) && t[p] == Link;
      assert p !in WithoutSkillLinks(t, dest, skills);
    } else {
      assert WithoutSkillLinks(t, dest, skills) == t;
    }
  }

  lemma EarlyReplacement(t: Tree, dest: Path, items: seq<Item>, skills: seq<Text>, f: Faults, tmp: Text,
                         digest: Bytes -> Text)
    requires (forall i :: 0 <= i < |items| ==> items[i].rel != []) && !BackedUp(t, dest, skills, f)
    ensures FinalizeManaged(t, dest, items, skills, f, tmp, digest) ==
      Replaced(if !CopiesSkills(t, dest, skills, f) then t
               else Cleared(t, dest, skills, f.backupStop - |skills|, f.gone), Some(Interrupted), false)
  {
  }

  // The replacement stopped before removing anything, or got past the removal,
  // the skills held no link and no temporary file is left beside them.
  predicate RestoresAll(t: Tree, dest: Path, items: seq<Item>, skills: seq<Text>, f: Faults, tmp: Text,
                        digest: Bytes -> Text)
    requires forall i :: 0 <= i < |items| ==> items[i].rel != []
  {
    || !CopiesSkills(t, dest, skills, f)
    || RemovesNothing(t, dest, skills, f)
    || (BackedUp(t, dest, skills, f) && !HasSkillLink(t, dest, skills)
        && !LeavesOutside(t, dest, items, skills, f.place, tmp, digest))
  }

  /** A failed replacement without the restore-failed limitation leaves the tree
      as it was exactly when it stopped before removing anything, or got past the
      removal, the skills held no link and no temporary file is left beside them. */
  lemma ManagedRestoresExactly(t: Tree, dest: Path, items: seq<Item>, skills: seq<Text>, f: Faults, tmp: Text,
                               digest: Bytes -> Text)
    requires ManagedSetting(t, dest, items, skills)
    requires FinalizeManaged(t, dest, items, skills, f, tmp, digest).error.Some?
    requires !FinalizeManaged(t, dest, items, skills, f, tmp, digest).restoreFailed
    ensures FinalizeManaged(t, dest, items, skills, f, tmp, digest).tree == t <==>
      RestoresAll(t, dest, items, skills, f, tmp, digest)
  {
    if BackedUp(t, dest, skills, f) {
      FailedReplacementExactly(t, dest, items, skills, f, tmp, digest);
      LinksAreLost(t, dest, skills);
    } else {
      EarlyReplacement(t, dest, items, skills, f, tmp, digest);
      if CopiesSkills(t, dest, skills, f) { InterruptedRemovalExactly(t, dest, skills, f); }
    }
  }
}
