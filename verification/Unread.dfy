/** What a boot does when it has a baseline and the file cannot be read: absent, blank, corrupt, or of the wrong
    shape. Nothing is captured, and nothing captured before is lost. */
module Unread {
  import opened Values
  import opened Engine
  import opened Enforce
  import opened LiteralNull
  import opened Narrow
  import opened Reading
  import opened Writing
  import opened Compose
  import opened StateRender
  import opened BootRuns
  import opened Survival

  /** The last render of a key holds no literal null, which only the file could carry on. */
  ghost predicate NullsAside(l: Layers, disk: Disk, k: string) {
    Read(l, disk.lastRender).Some? && SkeletonAt(At(Read(l, disk.lastRender).value, k)).None?
  }

  /** A boot over a file it cannot read keeps every edit of the boots before it. At a key whose last render holds no
      literal null, the config has the same numbers, strings and tables again, and the overlay the stored entry
      as JSON reads it, or none if with the layers as they are it no longer shows. */
  lemma {:induction false} UnreadFileLosesNothing(l: Layers, disk: Disk, overlay: Table, marks: Table, edit: FileContent, k: string)
    requires Rendered(l, disk, overlay, marks) && Read(l, edit).None? && NullsAside(l, disk, k)
    requires BootSpec(l, Edited(disk, edit)).Ok?
    ensures var after := BootSpec(l, Edited(disk, edit)).value;
            var stored := RereadAt(Json, At(overlay, k));
            && Same(Child(Some(after.config), k), At(Read(l, disk.lastRender).value, k))
            && At(after.overlay, k) == (if KeyConfig(l, k, stored, None) == KeyConfig(l, k, None, None) then None else stored)
            && (stored == At(overlay, k) ==>
                  At(after.overlay, k) == At(overlay, k) && Child(Some(after.config), k) == KeyConfig(l, k, At(overlay, k), At(marks, k)))
  {
    var next := Edited(disk, edit);
    var stored, was := RereadAt(Json, At(overlay, k)), KeyConfig(l, k, At(overlay, k), At(marks, k));
    BootOk(l, next);
    TrustedBaseline(l, disk, overlay, marks, k);
    RereadSkeleton(l.surface.codec, was);
    KeyRerenders(l, k, At(overlay, k), At(marks, k));
    assert KeyConfig(l, k, At(overlay, k), None) == was;
    UnreadKey(l, disk, overlay, marks, edit, k);
    JsonAfterAt(Json, At(overlay, k));
    JsonAfterAt(l.surface.codec, was);
    KeyRendersSame(l, k, stored, At(overlay, k), None);
    if k in overlay {
      assert k in RetireSpec(l, marks, overlay);
      ConvergedIff(l, marks, k, overlay[k]);
      KeyStaysKept(l, k, overlay[k], At(marks, k));
    }
  }

  lemma {:induction false} UnreadKey(l: Layers, disk: Disk, overlay: Table, marks: Table, edit: FileContent, k: string)
    requires Rendered(l, disk, overlay, marks) && Read(l, edit).None? && Read(l, disk.lastRender).Some? && Tabular(l)
    ensures var next := Edited(disk, edit);
            var stored := RereadAt(Json, At(overlay, k));
            && Child(Some(ConfigOf(l, Object(Kept(l, next)), FileMarks(l, next))), k) == KeyConfig(l, k, stored, None)
            && At(Kept(l, next), k) == (if KeyConfig(l, k, stored, None) == KeyConfig(l, k, None, None) then None else stored)
  {
    var next := Edited(disk, edit);
    RestoredAt(overlay, k);
    assert Decided(l, next) == Restored(overlay) && FileMarks(l, next) == map[];
    RestoredSettled(l, overlay, k);
    KeyFromNarrowed(l, next, k);
    if k in Restored(overlay) { ConvergedIff(l, map[], k, Restored(overlay)[k]); }
  }

  /** Every boot of the run has its baseline, and finds the file unreadable or with the key as it was rendered. */
  ghost predicate LeavesOrLoses(l: Layers, disk: Disk, edits: seq<FileContent>, k: string)
    decreases |edits|
  {
    edits != [] ==>
      && Read(l, disk.lastRender).Some?
      && (Read(l, edits[0]).Some? ==> At(Read(l, edits[0]).value, k) == At(Read(l, disk.lastRender).value, k))
      && LeavesOrLoses(l, NextBoot(l, Edited(disk, edits[0])), edits[1..], k)
  }

  /** Through any run of boots, edits elsewhere, corruptions and removals of the file, a key without literal nulls
      that the user does not touch renders the same, up to the kinds of its numbers; and exactly so where JSON
      reads its stored entry as it was. */
  lemma {:induction false} NothingLostForGood(l: Layers, disk: Disk, overlay: Table, marks: Table, edits: seq<FileContent>, k: string)
    requires Rendered(l, disk, overlay, marks) && NullsAside(l, disk, k) && LeavesOrLoses(l, disk, edits, k)
    requires Read(l, RunBoots(l, disk, edits).lastRender).Some?
    ensures var first, last := At(Read(l, disk.lastRender).value, k), At(Read(l, RunBoots(l, disk, edits).lastRender).value, k);
            Same(last, first) && (RereadAt(Json, At(overlay, k)) == At(overlay, k) ==> last == first)
    decreases |edits|
  {
    if edits != [] {
      var next := Edited(disk, edits[0]);
      var then' := NextBoot(l, next);
      if BootSpec(l, next).Ok? {
        BootOk(l, next);
        BootLeavesRendered(l, next);
        if Read(l, then'.lastRender).Some? {
          StepLosesNothing(l, disk, overlay, marks, edits[0], k);
          NothingLostForGood(l, then', Kept(l, next), FileMarks(l, next), edits[1..], k);
        }
      } else {
        assert Rendered(l, then', overlay, marks);
        NothingLostForGood(l, then', overlay, marks, edits[1..], k);
      }
    }
  }

  lemma {:induction false} StepLosesNothing(l: Layers, disk: Disk, overlay: Table, marks: Table, edit: FileContent, k: string)
    requires Rendered(l, disk, overlay, marks) && NullsAside(l, disk, k)
    requires Read(l, edit).Some? ==> At(Read(l, edit).value, k) == At(Read(l, disk.lastRender).value, k)
    requires BootSpec(l, Edited(disk, edit)).Ok? && Read(l, NextBoot(l, Edited(disk, edit)).lastRender).Some?
    ensures var next := Edited(disk, edit);
            var first, last := At(Read(l, disk.lastRender).value, k), At(Read(l, NextBoot(l, next).lastRender).value, k);
            && Same(last, first) && SkeletonAt(last).None?
            && (RereadAt(Json, At(overlay, k)) == At(overlay, k) ==> last == first)
            && RereadAt(Json, At(Kept(l, next), k)) == At(Kept(l, next), k)
  {
    var next := Edited(disk, edit);
    var first, last := At(Read(l, disk.lastRender).value, k), At(Read(l, NextBoot(l, next).lastRender).value, k);
    if Read(l, edit).Some? {
      UntouchedStep(l, disk, overlay, marks, edit, k);
    } else {
      UnreadFileLosesNothing(l, disk, overlay, marks, edit, k);
      BootOk(l, next);
      BootLeavesRendered(l, next);
      TrustedBaseline(l, disk, overlay, marks, k);
      TrustedBaseline(l, NextBoot(l, next), Kept(l, next), FileMarks(l, next), k);
      ConfigByKey(l, Object(Kept(l, next)), FileMarks(l, next), k);
      JsonAfterAt(l.surface.codec, KeyConfig(l, k, At(Kept(l, next), k), At(FileMarks(l, next), k)));
      JsonAfterAt(Json, At(overlay, k));
    }
    RereadSkeleton(Json, first);
    RereadSkeleton(Json, last);
  }
}
