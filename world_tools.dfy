/** The world-tools controller: global isolate and ghost mode, the focused
    set with its own isolate, ghost and restore, and the missing-reference
    finder. The global state (`hiddenActors`, `ghostedActors`,
    `originalMaterials`) and the focus state (`focusedActors`,
    `focusHiddenActors`, `focusOriginalMaterials`) are separate fields, and
    every method's `modifies` clause names the fields of one family only. */
module WorldTools {
  import opened Wrappers
  import opened Editor

  class WorldTools {
    var hiddenActors: seq<ActorId>
    var ghostedActors: seq<ActorId>
    var originalMaterials: map<ActorId, Slots>
    var focusedActors: seq<ActorId>
    var focusHiddenActors: seq<ActorId>
    var focusOriginalMaterials: map<ActorId, Slots>

    constructor ()
      ensures hiddenActors == [] && ghostedActors == [] && originalMaterials == map[]
      ensures focusedActors == [] && focusHiddenActors == [] && focusOriginalMaterials == map[]
    {
      hiddenActors := [];
      ghostedActors := [];
      originalMaterials := map[];
      focusedActors := [];
      focusHiddenActors := [];
      focusOriginalMaterials := map[];
    }

    // ----------------------------------------------------------------
    // Global visibility
    // ----------------------------------------------------------------

    /** `isolate_selected`: the record is cleared first; with a selection,
        every other level actor is hidden and recorded, in level order. */
    method IsolateSelected(level: Level, selected: seq<ActorId>)
      modifies this`hiddenActors, level`hidden
      ensures selected == [] ==> hiddenActors == [] && level.hidden == old(level.hidden)
      ensures selected != [] ==> hiddenActors == Outside(level.actors, selected)
      ensures level.hidden == old(level.hidden) + Elems(hiddenActors)
    {
      var all := level.actors;
      hiddenActors := [];
      if selected == [] {
        return;
      }
      hiddenActors := HideOutside(level, all, selected);
    }

    /** `restore_visibility`: every recorded actor still in the level is
        shown again, the record is emptied, and its old length reported. */
    method RestoreVisibility(level: Level) returns (count: nat)
      modifies this`hiddenActors, level`hidden
      ensures count == |old(hiddenActors)|
      ensures hiddenActors == []
      ensures level.hidden == old(level.hidden) - Live(level.actors, old(hiddenActors))
    {
      UnhideRecorded(level, hiddenActors);
      count := |hiddenActors|;
      hiddenActors := [];
    }

    /** `enable_ghost_mode`: nothing changes when the wireframe material does
        not load; otherwise every non-selected actor with a
        StaticMeshComponent has its first component's slot list saved and
        slot 0 overwritten, and is recorded. */
    method EnableGhostMode(level: Level, selected: seq<ActorId>, ghostMat: Option<MaterialId>)
      requires level.Valid()
      modifies this`ghostedActors, this`originalMaterials, level`comps
      ensures ghostMat.None? ==>
                ghostedActors == old(ghostedActors) && originalMaterials == old(originalMaterials) && level.comps == old(level.comps)
      ensures ghostMat.Some? ==>
                ghostedActors == GhostTargets(level.actors, selected, old(level.comps)) &&
                originalMaterials == SavedFirst(old(level.comps), Elems(ghostedActors)) &&
                level.comps == GhostFirst(old(level.comps), Elems(ghostedActors), ghostMat.value)
    {
      var all := level.actors;
      if ghostMat.None? {
        return;
      }
      ghostedActors := [];
      originalMaterials := map[];
      ghostedActors, originalMaterials := GhostFirstComponents(level, all, selected, ghostMat.value);
    }

    /** `disable_ghost_mode`: every saved list is written back to the first
        component of its actor where one is still found; those actors are
        counted, and both records are emptied. */
    method DisableGhostMode(level: Level) returns (restored: nat)
      modifies this`ghostedActors, this`originalMaterials, level`comps
      ensures restored == |Found(old(level.comps), old(originalMaterials).Keys)|
      ensures level.comps == RestoreFirstAll(old(level.comps), old(originalMaterials))
      ensures originalMaterials == map[] && ghostedActors == []
    {
      restored := RestoreFirstComponents(level, originalMaterials);
      originalMaterials := map[];
      ghostedActors := [];
    }

    // ----------------------------------------------------------------
    // The focused set
    // ----------------------------------------------------------------

    /** `create_focused_set_from_selection`: the selection replaces the
        focused set, unless it is empty. */
    method CreateFocusedSetFromSelection(selected: seq<ActorId>)
      modifies this`focusedActors
      ensures focusedActors == if selected == [] then old(focusedActors) else selected
    {
      if selected == [] {
        return;
      }
      focusedActors := selected;
    }

    /** `add_selection_to_focused_set`: the selected actors that were not in
        the focused set when the call began are appended in selection order,
        and counted. */
    method AddSelectionToFocusedSet(selected: seq<ActorId>) returns (addedCount: nat)
      modifies this`focusedActors
      ensures focusedActors == old(focusedActors) + Outside(selected, old(focusedActors))
      ensures addedCount == |focusedActors| - |old(focusedActors)|
    {
      if selected == [] {
        assert Outside(selected, focusedActors) == [];
        return 0;
      }
      var existing := focusedActors;
      addedCount := 0;
      for i := 0 to |selected|
        invariant focusedActors == existing + Outside(selected[..i], existing)
        invariant addedCount == |Outside(selected[..i], existing)|
      {
        assert selected[..i + 1][..i] == selected[..i];
        var actor := selected[i];
        if actor !in existing {
          focusedActors := focusedActors + [actor];
          addedCount := addedCount + 1;
        }
      }
      assert selected[..|selected|] == selected;
    }

    /** `focus_isolate_only_focused`: nothing happens while the focused set
        is empty; otherwise the focus record is cleared and every level actor
        outside the focused set is hidden and recorded, in level order. */
    method FocusIsolateOnlyFocused(level: Level)
      modifies this`focusHiddenActors, level`hidden
      ensures focusedActors == [] ==> focusHiddenActors == old(focusHiddenActors) && level.hidden == old(level.hidden)
      ensures focusedActors != [] ==>
                focusHiddenActors == Outside(level.actors, focusedActors) &&
                level.hidden == old(level.hidden) + Elems(focusHiddenActors)
    {
      if focusedActors == [] {
        return;
      }
      var all := level.actors;
      focusHiddenActors := [];
      focusHiddenActors := HideOutside(level, all, focusedActors);
    }

    /** `focus_ghost_world_except_focused`: nothing happens while the focused
        set is empty or when the wireframe material does not load; otherwise
        the focus material record is cleared, and every actor outside the
        focused set with a StaticMeshComponent has its first component saved
        and slot 0 overwritten, and is counted. */
    method FocusGhostWorldExceptFocused(level: Level, ghostMat: Option<MaterialId>) returns (ghostedCount: nat)
      requires level.Valid()
      modifies this`focusOriginalMaterials, level`comps
      ensures focusedActors == [] || ghostMat.None? ==>
                ghostedCount == 0 && focusOriginalMaterials == old(focusOriginalMaterials) && level.comps == old(level.comps)
      ensures focusedActors != [] && ghostMat.Some? ==>
                var targets := GhostTargets(level.actors, focusedActors, old(level.comps));
                ghostedCount == |targets| &&
                focusOriginalMaterials == SavedFirst(old(level.comps), Elems(targets)) &&
                level.comps == GhostFirst(old(level.comps), Elems(targets), ghostMat.value)
    {
      if focusedActors == [] {
        return 0;
      }
      if ghostMat.None? {
        return 0;
      }
      var all := level.actors;
      focusOriginalMaterials := map[];
      var targets;
      targets, focusOriginalMaterials := GhostFirstComponents(level, all, focusedActors, ghostMat.value);
      ghostedCount := |targets|;
    }

    /** `focus_restore_world`: the actors hidden by the focus isolate are
        shown again and the focus materials written back, and both focus
        records emptied. The global records are outside this method's frame. */
    method FocusRestoreWorld(level: Level) returns (unhid: nat, restoredVisuals: nat)
      modifies this`focusHiddenActors, this`focusOriginalMaterials, level`hidden, level`comps
      ensures level.hidden == old(level.hidden) - Live(level.actors, old(focusHiddenActors))
      ensures unhid == |old(focusHiddenActors)| && focusHiddenActors == []
      ensures level.comps == RestoreFirstAll(old(level.comps), old(focusOriginalMaterials))
      ensures restoredVisuals == |Found(old(level.comps), old(focusOriginalMaterials).Keys)|
      ensures focusOriginalMaterials == map[]
    {
      UnhideRecorded(level, focusHiddenActors);
      unhid := |focusHiddenActors|;
      focusHiddenActors := [];
      restoredVisuals := RestoreFirstComponents(level, focusOriginalMaterials);
      focusOriginalMaterials := map[];
    }

    // ----------------------------------------------------------------
    // Missing references
    // ----------------------------------------------------------------

    /** `find_missing_references`: scan the selection, or the whole level
        when nothing is selected; report each component without a mesh by
        its actor and each empty material slot by its actor and slot index. */
    method FindMissingReferences(level: Level, selected: seq<ActorId>)
      returns (missingMeshes: seq<ActorId>, missingMats: seq<(ActorId, int)>, total: nat)
      ensures missingMeshes == MissingMeshes(ScanSet(level.actors, selected), level.comps)
      ensures missingMats == MissingMats(ScanSet(level.actors, selected), level.comps)
      ensures total == |missingMeshes| + |missingMats|
    {
      var scan := selected;
      if scan == [] {
        scan := level.actors;
      }
      missingMeshes, missingMats := [], [];
      for i := 0 to |scan|
        invariant missingMeshes == MissingMeshes(scan[..i], level.comps)
        invariant missingMats == MissingMats(scan[..i], level.comps)
      {
        assert scan[..i + 1][..i] == scan[..i];
        var actor := scan[i];
        var comps := CompsOf(level.comps, actor);
        if comps == [] {
          continue;
        }
        var meshGaps, matGaps := ScanComponents(actor, comps);
        missingMeshes := missingMeshes + meshGaps;
        missingMats := missingMats + matGaps;
      }
      assert scan[..|scan|] == scan;
      total := |missingMeshes| + |missingMats|;
    }
  }

  /** The component loop of `find_missing_references` for one actor. */
  method ScanComponents(actor: ActorId, comps: seq<Component>) returns (meshGaps: seq<ActorId>, matGaps: seq<(ActorId, int)>)
    ensures meshGaps == MeshGaps(actor, comps)
    ensures matGaps == MatGaps(actor, comps)
  {
    meshGaps, matGaps := [], [];
    for j := 0 to |comps|
      invariant meshGaps == MeshGaps(actor, comps[..j])
      invariant matGaps == MatGaps(actor, comps[..j])
    {
      assert comps[..j + 1][..j] == comps[..j];
      var comp := comps[j];
      if comp.mesh.None? {
        meshGaps := meshGaps + [actor];
      }
      var slotGaps := FindEmptySlots(actor, comp.slots);
      matGaps := matGaps + slotGaps;
    }
    assert comps[..|comps|] == comps;
  }

  /** The inner slot loop of `find_missing_references`. */
  method FindEmptySlots(actor: ActorId, slots: Slots) returns (gaps: seq<(ActorId, int)>)
    ensures gaps == SlotGaps(actor, slots)
  {
    gaps := [];
    for idx := 0 to |slots|
      invariant gaps == SlotGaps(actor, slots[..idx])
    {
      assert slots[..idx + 1][..idx] == slots[..idx];
      if slots[idx].None? {
        gaps := gaps + [(actor, idx)];
      }
    }
    assert slots[..|slots|] == slots;
  }

  /** What `find_missing_references` scans. */
  function ScanSet(actors: seq<ActorId>, selected: seq<ActorId>): seq<ActorId>
  {
    if selected == [] then actors else selected
  }

  /** (actor, index) for every empty slot, in slot order. */
  function SlotGaps(a: ActorId, slots: Slots): seq<(ActorId, int)>
  {
    if slots == [] then []
    else SlotGaps(a, slots[..|slots| - 1]) + if slots[|slots| - 1].None? then [(a, |slots| - 1)] else []
  }

  /** The actor once for every one of its components without a mesh. */
  function MeshGaps(a: ActorId, cs: seq<Component>): seq<ActorId>
  {
    if cs == [] then []
    else MeshGaps(a, cs[..|cs| - 1]) + if cs[|cs| - 1].mesh.None? then [a] else []
  }

  /** The empty slots of all of an actor's components, component by component. */
  function MatGaps(a: ActorId, cs: seq<Component>): seq<(ActorId, int)>
  {
    if cs == [] then []
    else MatGaps(a, cs[..|cs| - 1]) + SlotGaps(a, cs[|cs| - 1].slots)
  }

  function MissingMeshes(scan: seq<ActorId>, comps: Components): seq<ActorId>
  {
    if scan == [] then []
    else MissingMeshes(scan[..|scan| - 1], comps) + MeshGaps(scan[|scan| - 1], CompsOf(comps, scan[|scan| - 1]))
  }

  function MissingMats(scan: seq<ActorId>, comps: Components): seq<(ActorId, int)>
  {
    if scan == [] then []
    else MissingMats(scan[..|scan| - 1], comps) + MatGaps(scan[|scan| - 1], CompsOf(comps, scan[|scan| - 1]))
  }

  /** An entry names an empty slot of the actor, and every empty slot has one. */
  lemma {:induction false} SlotGapsMember(a: ActorId, slots: Slots, b: ActorId, idx: int)
    ensures (b, idx) in SlotGaps(a, slots) <==> b == a && 0 <= idx < |slots| && slots[idx].None?
  {
    if slots != [] {
      var front := slots[..|slots| - 1];
      SlotGapsMember(a, front, b, idx);
      if 0 <= idx < |front| {
        assert front[idx] == slots[idx];
      }
    }
  }

  /** An empty slot of one of an actor's components. */
  predicate EmptySlotIn(cs: seq<Component>, idx: int)
  {
    exists j :: 0 <= j < |cs| && 0 <= idx < |cs[j].slots| && cs[j].slots[idx].None?
  }

  lemma {:induction false} MatGapsMember(a: ActorId, cs: seq<Component>, b: ActorId, idx: int)
    ensures (b, idx) in MatGaps(a, cs) <==> b == a && EmptySlotIn(cs, idx)
  {
    if cs != [] {
      var front := cs[..|cs| - 1];
      var last := cs[|cs| - 1];
      MatGapsMember(a, front, b, idx);
      SlotGapsMember(a, last.slots, b, idx);
      EmptySlotInSplit(cs, idx);
    }
  }

  /** An empty slot of a component list is one of the front's or one of the
      last component's. */
  lemma EmptySlotInSplit(cs: seq<Component>, idx: int)
    requires cs != []
    ensures EmptySlotIn(cs, idx) <==>
              EmptySlotIn(cs[..|cs| - 1], idx) || (0 <= idx < |cs[|cs| - 1].slots| && cs[|cs| - 1].slots[idx].None?)
  {
    var front := cs[..|cs| - 1];
    if EmptySlotIn(cs, idx) {
      var j :| 0 <= j < |cs| && 0 <= idx < |cs[j].slots| && cs[j].slots[idx].None?;
      if j < |front| {
        assert front[j] == cs[j];
      }
    }
    if EmptySlotIn(front, idx) {
      var j :| 0 <= j < |front| && 0 <= idx < |front[j].slots| && front[j].slots[idx].None?;
      assert cs[j] == front[j];
    }
  }

  lemma {:induction false} MeshGapsMember(a: ActorId, cs: seq<Component>, b: ActorId)
    ensures b in MeshGaps(a, cs) <==> b == a && exists j :: 0 <= j < |cs| && cs[j].mesh.None?
  {
    if cs != [] {
      var front := cs[..|cs| - 1];
      MeshGapsMember(a, front, b);
      if exists j :: 0 <= j < |cs| && cs[j].mesh.None? {
        var j :| 0 <= j < |cs| && cs[j].mesh.None?;
        if j < |front| {
          assert front[j] == cs[j];
        }
      }
      if exists j :: 0 <= j < |front| && front[j].mesh.None? {
        var j :| 0 <= j < |front| && front[j].mesh.None?;
        assert cs[j] == front[j];
      }
    }
  }

  /** The reported materials are exactly the empty slots of the scanned
      actors, tagged with their slot index. */
  lemma {:induction false} MissingMatsMember(scan: seq<ActorId>, comps: Components, b: ActorId, idx: int)
    ensures (b, idx) in MissingMats(scan, comps) <==> b in scan && EmptySlotIn(CompsOf(comps, b), idx)
  {
    if scan != [] {
      var front := scan[..|scan| - 1];
      var last := scan[|scan| - 1];
      MissingMatsMember(front, comps, b, idx);
      MatGapsMember(last, CompsOf(comps, last), b, idx);
      assert scan == front + [last];
    }
  }

  /** The reported meshes are exactly the scanned actors with a component
      that has no mesh. */
  lemma {:induction false} MissingMeshesMember(scan: seq<ActorId>, comps: Components, b: ActorId)
    ensures b in MissingMeshes(scan, comps) <==>
              b in scan && exists j :: 0 <= j < |CompsOf(comps, b)| && CompsOf(comps, b)[j].mesh.None?
  {
    if scan != [] {
      var front := scan[..|scan| - 1];
      var last := scan[|scan| - 1];
      MissingMeshesMember(front, comps, b);
      MeshGapsMember(last, CompsOf(comps, last), b);
      assert scan == front + [last];
    }
  }

  /** Each component without a mesh is reported once: the report has one
      entry per such component. */
  lemma {:induction false} MeshGapsCount(a: ActorId, cs: seq<Component>)
    ensures |MeshGaps(a, cs)| == |set j | 0 <= j < |cs| && cs[j].mesh.None?|
  {
    if cs != [] {
      var front := cs[..|cs| - 1];
      MeshGapsCount(a, front);
      var before := set j | 0 <= j < |front| && front[j].mesh.None?;
      var after := set j | 0 <= j < |cs| && cs[j].mesh.None?;
      if cs[|cs| - 1].mesh.None? {
        assert after == before + {|cs| - 1};
      } else {
        assert after == before;
      }
    }
  }

  /** The focused set only grows, by the selected actors it did not hold,
      and never holds an actor twice when the selection has no repeats. */
  lemma AddedActorsAreNew(focused: seq<ActorId>, selected: seq<ActorId>)
    requires NoDup(focused) && NoDup(selected)
    ensures focused <= focused + Outside(selected, focused)
    ensures NoDup(focused + Outside(selected, focused))
    ensures forall a :: a in Outside(selected, focused) <==> a in selected && a !in focused
  {
    OutsideNoDup(selected, focused);
    var added := Outside(selected, focused);
    forall a ensures a in added <==> a in selected && a !in focused {
      OutsideMember(selected, focused, a);
    }
    var all := focused + added;
    forall i, j | 0 <= i < j < |all| ensures all[i] != all[j] {
      if j >= |focused| && i < |focused| {
        assert all[j] in added;
        assert all[i] in focused;
      } else if i >= |focused| {
        assert all[i] == added[i - |focused|] && all[j] == added[j - |focused|];
      }
    }
  }

  /** The focus isolate never hides a focused actor and hides every other
      level actor. */
  lemma FocusIsolateSparesFocused(actors: seq<ActorId>, focused: seq<ActorId>, a: ActorId)
    requires a in actors
    ensures a in Outside(actors, focused) <==> a !in focused
  {
    OutsideMember(actors, focused, a);
  }
}
