/** The editor level the world tools act on: the actors of the level in the
    order the editor lists them, their temporary hidden-in-editor flags, and
    the material slots of their StaticMeshComponents. Every world tool
    changes the level only through `SetHidden` and `SetMaterial`. */
module Editor {
  import opened Wrappers

  type ActorId = int
  type MeshId = int
  type MaterialId = int

  /** The materials of a component, one entry per slot; None is an empty slot. */
  type Slots = seq<Option<MaterialId>>

  /** A StaticMeshComponent: its mesh (None when unassigned) and its slots. */
  datatype Component = Component(mesh: Option<MeshId>, slots: Slots)

  /** The StaticMeshComponents of every actor, in `get_components_by_class`
      order; the first is the one `get_component_by_class` returns. */
  type Components = map<ActorId, seq<Component>>

  predicate NoDup<T(==)>(xs: seq<T>)
  {
    forall i, j :: 0 <= i < j < |xs| ==> xs[i] != xs[j]
  }

  /** A non-empty set has an element to pick. */
  lemma Inhabited(s: set<ActorId>)
    requires s != {}
    ensures exists x :: x in s
  {
    if forall x :: x !in s {
      assert false;
    }
  }

  function Elems<T>(xs: seq<T>): set<T>
  {
    set x | x in xs
  }

  /** The components of an actor; none for an actor the map does not know. */
  function CompsOf(cs: Components, a: ActorId): seq<Component>
  {
    if a in cs then cs[a] else []
  }

  /** `set_material(i, m)` on a slot list; an index past the last slot
      leaves the list as it is. */
  function SetSlot(slots: Slots, i: nat, m: Option<MaterialId>): (r: Slots)
    ensures |r| == |slots|
    ensures forall t :: 0 <= t < |r| ==> r[t] == if t == i then m else slots[t]
  {
    if i < |slots| then slots[i := m] else slots
  }

  /** The slots after `set_material(t, mats[t])` for every t < k, where
      `onlySome` skips the writes of empty entries. */
  function Patch(slots: Slots, mats: Slots, k: nat, onlySome: bool): (r: Slots)
    ensures |r| == |slots|
  {
    seq(|slots|, t requires 0 <= t < |slots| =>
      if t < k && t < |mats| && (!onlySome || mats[t].Some?) then mats[t] else slots[t])
  }

  /** Component j of an actor with its slots replaced. */
  function WithSlots(cs: seq<Component>, j: nat, s: Slots): (r: seq<Component>)
    requires j < |cs|
    ensures |r| == |cs|
  {
    cs[j := cs[j].(slots := s)]
  }

  /** The editor level. */
  class Level {
    const actors: seq<ActorId>
    const classOf: map<ActorId, string>
    var hidden: set<ActorId>
    var comps: Components

    constructor (actors: seq<ActorId>, classOf: map<ActorId, string>, hidden: set<ActorId>, comps: Components)
      ensures this.actors == actors && this.classOf == classOf
      ensures this.hidden == hidden && this.comps == comps
    {
      this.actors := actors;
      this.classOf := classOf;
      this.hidden := hidden;
      this.comps := comps;
    }

    /** The editor lists every actor once. */
    predicate Valid()
    {
      NoDup(actors)
    }

    /** `set_is_temporarily_hidden_in_editor(h)`. */
    method SetHidden(a: ActorId, h: bool)
      modifies this`hidden
      ensures hidden == if h then old(hidden) + {a} else old(hidden) - {a}
    {
      if h {
        hidden := hidden + {a};
      } else {
        hidden := hidden - {a};
      }
    }

    /** `set_material(i, m)` on component j of actor a. */
    method SetMaterial(a: ActorId, j: nat, i: nat, m: Option<MaterialId>)
      requires j < |CompsOf(comps, a)|
      modifies this`comps
      ensures comps == old(comps)[a := WithSlots(old(comps)[a], j, SetSlot(old(comps)[a][j].slots, i, m))]
    {
      comps := comps[a := WithSlots(comps[a], j, SetSlot(comps[a][j].slots, i, m))];
    }

    /** `for i, mat in enumerate(mats): comp.set_material(i, mat)` on
        component j of actor a, skipping empty entries when `onlySome`. */
    method WriteSlots(a: ActorId, j: nat, mats: Slots, onlySome: bool)
      requires j < |CompsOf(comps, a)|
      modifies this`comps
      ensures comps == old(comps)[a := WithSlots(old(comps)[a], j, Patch(old(comps)[a][j].slots, mats, |mats|, onlySome))]
    {
      ghost var c0 := comps[a];
      assert Patch(c0[j].slots, mats, 0, onlySome) == c0[j].slots;
      assert WithSlots(c0, j, c0[j].slots) == c0;
      for i := 0 to |mats|
        invariant comps == old(comps)[a := WithSlots(c0, j, Patch(c0[j].slots, mats, i, onlySome))]
      {
        ghost var before := Patch(c0[j].slots, mats, i, onlySome);
        if !onlySome || mats[i].Some? {
          SetMaterial(a, j, i, mats[i]);
          assert WithSlots(WithSlots(c0, j, before), j, SetSlot(before, i, mats[i])) == WithSlots(c0, j, SetSlot(before, i, mats[i]));
          assert SetSlot(before, i, mats[i]) == Patch(c0[j].slots, mats, i + 1, onlySome);
        } else {
          assert before == Patch(c0[j].slots, mats, i + 1, onlySome);
        }
      }
    }
  }

  // ------------------------------------------------------------------
  // Which actors a tool hides
  // ------------------------------------------------------------------

  /** The actors of `all` that are not in `keep`, in the order of `all`. */
  function Outside(all: seq<ActorId>, keep: seq<ActorId>): (r: seq<ActorId>)
    ensures |r| <= |all|
  {
    if all == [] then []
    else
      var front := Outside(all[..|all| - 1], keep);
      if all[|all| - 1] in keep then front else front + [all[|all| - 1]]
  }

  /** An actor is hidden exactly when it is listed and not kept. */
  lemma {:induction false} OutsideMember(all: seq<ActorId>, keep: seq<ActorId>, a: ActorId)
    ensures a in Outside(all, keep) <==> a in all && a !in keep
  {
    if all != [] {
      var front := all[..|all| - 1];
      OutsideMember(front, keep, a);
      assert all == front + [all[|all| - 1]];
    }
  }

  /** Nobody is hidden twice. */
  lemma {:induction false} OutsideNoDup(all: seq<ActorId>, keep: seq<ActorId>)
    requires NoDup(all)
    ensures NoDup(Outside(all, keep))
  {
    if all != [] {
      var front := all[..|all| - 1];
      var last := all[|all| - 1];
      OutsideNoDup(front, keep);
      OutsideMember(front, keep, last);
      assert last !in front;
    }
  }

  /** Keeping more actors hides a shorter list: each kept actor drops out. */
  lemma {:induction false} OutsideEmptyKeep(all: seq<ActorId>)
    ensures Outside(all, []) == all
  {
    if all != [] {
      OutsideEmptyKeep(all[..|all| - 1]);
      assert all == all[..|all| - 1] + [all[|all| - 1]];
    }
  }

  /** Walk `all`, hide every actor not in `keep` and record it: the loop of
      each isolate operation. */
  method HideOutside(level: Level, all: seq<ActorId>, keep: seq<ActorId>) returns (hid: seq<ActorId>)
    modifies level`hidden
    ensures hid == Outside(all, keep)
    ensures level.hidden == old(level.hidden) + Elems(hid)
  {
    hid := [];
    for i := 0 to |all|
      invariant hid == Outside(all[..i], keep)
      invariant level.hidden == old(level.hidden) + Elems(hid)
    {
      assert all[..i + 1][..i] == all[..i];
      var actor := all[i];
      if actor !in keep {
        level.SetHidden(actor, true);
        hid := hid + [actor];
      }
    }
    assert all[..|all|] == all;
  }

  /** The recorded actors that still exist in the level. */
  function Live(actors: seq<ActorId>, recorded: seq<ActorId>): set<ActorId>
  {
    set a | a in recorded && a in actors
  }

  /** `for actor in recorded: if actor: actor.set_is_temporarily_hidden_in_editor(False)`. */
  method UnhideRecorded(level: Level, recorded: seq<ActorId>)
    modifies level`hidden
    ensures level.hidden == old(level.hidden) - Live(level.actors, recorded)
  {
    for i := 0 to |recorded|
      invariant level.hidden == old(level.hidden) - Live(level.actors, recorded[..i])
    {
      assert recorded[..i + 1] == recorded[..i] + [recorded[i]];
      if recorded[i] in level.actors {
        level.SetHidden(recorded[i], false);
      }
    }
    assert recorded[..|recorded|] == recorded;
  }

  /** An isolate followed by a restore leaves every actor it hid visible and
      every other actor as it was. */
  lemma IsolateThenRestore(actors: seq<ActorId>, keep: seq<ActorId>, h: set<ActorId>, a: ActorId)
    ensures a in (h + Elems(Outside(actors, keep))) - Live(actors, Outside(actors, keep)) <==>
              a in h && (a !in actors || a in keep)
  {
    OutsideMember(actors, keep, a);
  }

  // ------------------------------------------------------------------
  // Ghosting the first component of each actor
  // ------------------------------------------------------------------

  /** The actors of `all` that are not kept and have a StaticMeshComponent,
      in the order of `all`. */
  function GhostTargets(all: seq<ActorId>, keep: seq<ActorId>, cs: Components): (r: seq<ActorId>)
    ensures |r| <= |all|
  {
    if all == [] then []
    else
      var front := GhostTargets(all[..|all| - 1], keep, cs);
      var a := all[|all| - 1];
      if a !in keep && CompsOf(cs, a) != [] then front + [a] else front
  }

  lemma {:induction false} GhostTargetsMember(all: seq<ActorId>, keep: seq<ActorId>, cs: Components, a: ActorId)
    ensures a in GhostTargets(all, keep, cs) <==> a in all && a !in keep && CompsOf(cs, a) != []
  {
    if all != [] {
      var front := all[..|all| - 1];
      GhostTargetsMember(front, keep, cs, a);
      assert all == front + [all[|all| - 1]];
    }
  }

  lemma {:induction false} GhostTargetsNoDup(all: seq<ActorId>, keep: seq<ActorId>, cs: Components)
    requires NoDup(all)
    ensures NoDup(GhostTargets(all, keep, cs))
  {
    if all != [] {
      var front := all[..|all| - 1];
      var last := all[|all| - 1];
      GhostTargetsNoDup(front, keep, cs);
      GhostTargetsMember(front, keep, cs, last);
      assert last !in front;
    }
  }

  /** Slot 0 of the first component set to the ghost material. */
  function GhostSlotZero(cs: seq<Component>, g: MaterialId): (r: seq<Component>)
    ensures |r| == |cs|
  {
    if cs == [] then cs else WithSlots(cs, 0, SetSlot(cs[0].slots, 0, Some(g)))
  }

  /** The level's components after the actors in `t` are ghosted on slot 0. */
  function GhostFirst(cs: Components, t: set<ActorId>, g: MaterialId): (r: Components)
    ensures r.Keys == cs.Keys
  {
    map a | a in cs :: if a in t then GhostSlotZero(cs[a], g) else cs[a]
  }

  /** The full slot list of the first component of each actor in `t`. */
  function SavedFirst(cs: Components, t: set<ActorId>): map<ActorId, Slots>
  {
    map a | a in t && CompsOf(cs, a) != [] :: CompsOf(cs, a)[0].slots
  }

  /** The level's components after every saved list is written back to the
      first component of its actor, where that actor still has one. */
  function RestoreFirstAll(cs: Components, saved: map<ActorId, Slots>): (r: Components)
    ensures r.Keys == cs.Keys
  {
    map a | a in cs :: if a in saved then RestoreEntry(cs[a], saved[a]) else cs[a]
  }

  /** A saved list written back to the first component, if there is one. */
  function RestoreEntry(cs: seq<Component>, mats: Slots): (r: seq<Component>)
    ensures |r| == |cs|
  {
    if cs == [] then cs else WithSlots(cs, 0, Patch(cs[0].slots, mats, |mats|, false))
  }

  /** The saved actors that still have a StaticMeshComponent. */
  function Found(cs: Components, saved: set<ActorId>): set<ActorId>
  {
    set a | a in saved && CompsOf(cs, a) != []
  }

  /** Walk `all` and ghost slot 0 of the first component of every actor not
      in `keep`, saving its full slot list first: the loop of each slot-0
      ghost operation. */
  method GhostFirstComponents(level: Level, all: seq<ActorId>, keep: seq<ActorId>, g: MaterialId)
    returns (targets: seq<ActorId>, saved: map<ActorId, Slots>)
    requires NoDup(all)
    modifies level`comps
    ensures targets == GhostTargets(all, keep, old(level.comps))
    ensures saved == SavedFirst(old(level.comps), Elems(targets))
    ensures level.comps == GhostFirst(old(level.comps), Elems(targets), g)
  {
    ghost var c0 := level.comps;
    targets := [];
    saved := map[];
    for i := 0 to |all|
      invariant targets == GhostTargets(all[..i], keep, c0)
      invariant saved == SavedFirst(c0, Elems(targets))
      invariant level.comps == GhostFirst(c0, Elems(targets), g)
    {
      assert all[..i + 1][..i] == all[..i];
      var actor := all[i];
      GhostTargetsMember(all[..i], keep, c0, actor);
      assert actor !in Elems(targets);
      ghost var t := Elems(targets);
      assert CompsOf(level.comps, actor) == CompsOf(c0, actor);
      if actor !in keep {
        if CompsOf(level.comps, actor) != [] {
          var mats := level.comps[actor][0].slots;
          saved := saved[actor := mats];
          level.SetMaterial(actor, 0, 0, Some(g));
          targets := targets + [actor];
          GhostFirstStep(c0, t, g, actor);
          assert Elems(targets) == t + {actor};
        }
      }
    }
    assert all[..|all|] == all;
  }

  /** Ghosting one more actor changes its entry and no other. */
  lemma GhostFirstStep(cs: Components, t: set<ActorId>, g: MaterialId, a: ActorId)
    requires a !in t && CompsOf(cs, a) != []
    ensures GhostFirst(cs, t + {a}, g) == GhostFirst(cs, t, g)[a := GhostSlotZero(cs[a], g)]
    ensures SavedFirst(cs, t + {a}) == SavedFirst(cs, t)[a := cs[a][0].slots]
    ensures GhostFirst(cs, t, g)[a] == cs[a]
  {
  }

  /** For every saved actor whose first component is still found, write its
      saved list back slot by slot, and count those actors: the loop of each
      slot-0 restore. */
  method RestoreFirstComponents(level: Level, saved: map<ActorId, Slots>) returns (restored: nat)
    modifies level`comps
    ensures level.comps == RestoreFirstAll(old(level.comps), saved)
    ensures restored == |Found(old(level.comps), saved.Keys)|
  {
    ghost var c0 := level.comps;
    var keys: set<ActorId> := saved.Keys;
    restored := 0;
    while keys != {}
      invariant keys <= saved.Keys
      invariant RestoredUpTo(level.comps, c0, saved, saved.Keys - keys)
      invariant restored == |Found(c0, saved.Keys - keys)|
      decreases |keys|
    {
      Inhabited(keys);
      var actor :| actor in keys;
      ghost var done := saved.Keys - keys;
      FoundStep(c0, done, actor);
      var hit := RestoreOneFirst(level, c0, saved, done, actor);
      if hit {
        assert |Found(c0, done) + {actor}| == |Found(c0, done)| + 1;
        restored := restored + 1;
      }
      keys := keys - {actor};
      assert saved.Keys - keys == done + {actor};
    }
    assert saved.Keys - keys == saved.Keys;
    RestoredAll(c0, saved, level.comps);
  }

  /** The components after the saved lists of the actors in `done` are
      written back. */
  predicate RestoredUpTo(now: Components, c0: Components, saved: map<ActorId, Slots>, done: set<ActorId>)
    requires done <= saved.Keys
  {
    now.Keys == c0.Keys &&
    forall a :: a in c0 ==> now[a] == if a in done then RestoreEntry(c0[a], saved[a]) else c0[a]
  }

  lemma RestoredAll(c0: Components, saved: map<ActorId, Slots>, now: Components)
    requires RestoredUpTo(now, c0, saved, saved.Keys)
    ensures now == RestoreFirstAll(c0, saved)
  {
    var want := RestoreFirstAll(c0, saved);
    assert now.Keys == want.Keys;
    forall a | a in now ensures now[a] == want[a] {
    }
  }

  /** One step of `RestoreFirstComponents`: the saved list of `actor` written
      back, if its first component is still found. */
  method RestoreOneFirst(level: Level, ghost c0: Components, saved: map<ActorId, Slots>, ghost done: set<ActorId>, actor: ActorId)
    returns (hit: bool)
    requires actor in saved && actor !in done && done <= saved.Keys
    requires RestoredUpTo(level.comps, c0, saved, done)
    modifies level`comps
    ensures hit <==> CompsOf(c0, actor) != []
    ensures RestoredUpTo(level.comps, c0, saved, done + {actor})
  {
    assert CompsOf(level.comps, actor) == CompsOf(c0, actor);
    hit := CompsOf(level.comps, actor) != [];
    if hit {
      level.WriteSlots(actor, 0, saved[actor], false);
    }
  }

  lemma FoundStep(cs: Components, done: set<ActorId>, a: ActorId)
    requires a !in done
    ensures a !in Found(cs, done)
    ensures Found(cs, done + {a}) == Found(cs, done) + (if CompsOf(cs, a) != [] then {a} else {})
  {
  }

  /** Writing a saved list back over a list of the same length gives the
      saved list. */
  lemma PatchRestores(now: Slots, saved: Slots)
    requires |now| == |saved|
    ensures Patch(now, saved, |saved|, false) == saved
  {
  }

  /** Ghosting slot 0 leaves every kept actor, and every actor without a
      StaticMeshComponent, exactly as it was. */
  lemma GhostFirstSparesKept(all: seq<ActorId>, keep: seq<ActorId>, cs: Components, g: MaterialId, a: ActorId)
    requires a in cs && (a in keep || a !in all || cs[a] == [])
    ensures GhostFirst(cs, Elems(GhostTargets(all, keep, cs)), g)[a] == cs[a]
  {
  }

  /** Ghosting slot 0 of some actors and then restoring what was saved gives
      back the components as they were. */
  lemma GhostFirstThenRestore(cs: Components, t: set<ActorId>, g: MaterialId)
    ensures RestoreFirstAll(GhostFirst(cs, t, g), SavedFirst(cs, t)) == cs
  {
    var ghosted := GhostFirst(cs, t, g);
    var saved := SavedFirst(cs, t);
    forall a | a in cs
      ensures RestoreFirstAll(ghosted, saved)[a] == cs[a]
    {
      if a in saved {
        var s := cs[a][0].slots;
        PatchRestores(ghosted[a][0].slots, s);
        assert cs[a][0 := cs[a][0].(slots := s)] == cs[a];
      }
    }
  }
}
