/** The stand-alone world-tools controller: global isolate, restore and the
    slot-0 ghost mode only. Its four operations behave like the global
    family of the full controller, so they are proved against the same
    specification functions of `Editor`. */
module WorldToolsMain {
  import opened Wrappers
  import opened Editor

  class WorldTools {
    var hiddenActors: seq<ActorId>
    var ghostedActors: seq<ActorId>
    var originalMaterials: map<ActorId, Slots>

    constructor ()
      ensures hiddenActors == [] && ghostedActors == [] && originalMaterials == map[]
    {
      hiddenActors := [];
      ghostedActors := [];
      originalMaterials := map[];
    }

    /** `isolate_selected`: the record is cleared first; with a selection,
        every other level actor is hidden and recorded, in level order. */
    method IsolateSelected(level: Level, selected: seq<ActorId>)
      modifies this`hiddenActors, level`hidden
      ensures selected == [] ==> hiddenActors == [] && level.hidden == old(level.hidden)
      ensures selected != [] ==> hiddenActors == Outside(level.actors, selected)
      ensures level.hidden == old(level.hidden) + Elems(hiddenActors)
    {
      var all := level.actors;
      hiddenActors := [];
      if selected == [] {
        return;
      }
      hiddenActors := HideOutside(level, all, selected);
    }

    /** `restore_visibility`: every recorded actor still in the level is
        shown again, the record is emptied, and its old length reported. */
    method RestoreVisibility(level: Level) returns (count: nat)
      modifies this`hiddenActors, level`hidden
      ensures count == |old(hiddenActors)|
      ensures hiddenActors == []
      ensures level.hidden == old(level.hidden) - Live(level.actors, old(hiddenActors))
    {
      UnhideRecorded(level, hiddenActors);
      count := |hiddenActors|;
      hiddenActors := [];
    }

    /** `enable_ghost_mode`: nothing changes when the wireframe material does
        not load; otherwise every non-selected actor with a
        StaticMeshComponent has its first component's slot list saved and
        slot 0 overwritten, and is recorded. */
    method EnableGhostMode(level: Level, selected: seq<ActorId>, ghostMat: Option<MaterialId>)
      requires level.Valid()
      modifies this`ghostedActors, this`originalMaterials, level`comps
      ensures ghostMat.None? ==>
                ghostedActors == old(ghostedActors) && originalMaterials == old(originalMaterials) && level.comps == old(level.comps)
      ensures ghostMat.Some? ==>
                ghostedActors == GhostTargets(level.actors, selected, old(level.comps)) &&
                originalMaterials == SavedFirst(old(level.comps), Elems(ghostedActors)) &&
                level.comps == GhostFirst(old(level.comps), Elems(ghostedActors), ghostMat.value)
    {
      var all := level.actors;
      if ghostMat.None? {
        return;
      }
      ghostedActors := [];
      originalMaterials := map[];
      ghostedActors, originalMaterials := GhostFirstComponents(level, all, selected, ghostMat.value);
    }

    /** `disable_ghost_mode`: every saved list is written back to the first
        component of its actor where one is still found; those actors are
        counted, and both records are emptied. */
    method DisableGhostMode(level: Level) returns (restored: nat)
      modifies this`ghostedActors, this`originalMaterials, level`comps
      ensures restored == |Found(old(level.comps), old(originalMaterials).Keys)|
      ensures level.comps == RestoreFirstAll(old(level.comps), old(originalMaterials))
      ensures originalMaterials == map[] && ghostedActors == []
    {
      restored := RestoreFirstComponents(level, originalMaterials);
      originalMaterials := map[];
      ghostedActors := [];
    }
  }
}
