/** The simple world-tools controller with lighting options: isolate and
    ghost mode that can keep lights visible, and a ghost mode that saves and
    overwrites every slot of every StaticMeshComponent, keyed by
    (actor, component index). The distance test of "Nearby Lights" is the
    parameter `within`, true when the second actor is within 5000 cm of the
    first. */
module FocusedView {
  import opened Wrappers
  import opened Naming
  import opened Editor

  /** The choice of the lighting dialog; a cancelled dialog is None. */
  datatype LightingMode = NoLights | NearbyLights | AllLights

  /** A (actor, component index) key of the saved materials. */
  type CompKey = (ActorId, int)

  /** An actor whose class name contains "Light". */
  predicate IsLight(classOf: map<ActorId, string>, a: ActorId)
  {
    a in classOf && Contains(classOf[a], "Light")
  }

  /** A light of the level, not selected, within the radius of some
      selected actor. */
  predicate NearbyLight(actors: seq<ActorId>, classOf: map<ActorId, string>, selected: seq<ActorId>,
                        within: (ActorId, ActorId) -> bool, a: ActorId)
  {
    a in actors && a !in selected && IsLight(classOf, a) && exists s :: s in selected && within(s, a)
  }

  /** `[a for a in all_actors if "Light" in a.get_class().get_name()]`. */
  function AllLightsIn(actors: seq<ActorId>, classOf: map<ActorId, string>): (r: seq<ActorId>)
    ensures |r| <= |actors|
  {
    if actors == [] then []
    else
      var front := AllLightsIn(actors[..|actors| - 1], classOf);
      var a := actors[|actors| - 1];
      if IsLight(classOf, a) then front + [a] else front
  }

  lemma {:induction false} AllLightsInMember(actors: seq<ActorId>, classOf: map<ActorId, string>, a: ActorId)
    ensures a in AllLightsIn(actors, classOf) <==> a in actors && IsLight(classOf, a)
  {
    if actors != [] {
      var front := actors[..|actors| - 1];
      AllLightsInMember(front, classOf, a);
      assert actors == front + [actors[|actors| - 1]];
    }
  }

  /** `list(set(xs))`: the elements once each, in no particular order. */
  method Deduplicate(s: set<ActorId>) returns (xs: seq<ActorId>)
    ensures NoDup(xs) && Elems(xs) == s
  {
    var rest := s;
    xs := [];
    while rest != {}
      invariant rest !! Elems(xs) && rest + Elems(xs) == s
      invariant NoDup(xs)
      decreases |rest|
    {
      Inhabited(rest);
      var a :| a in rest;
      xs := xs + [a];
      rest := rest - {a};
    }
  }

  /** The lights of `all`, not in `selected`, within the radius of `sel`. */
  function NearOne(all: seq<ActorId>, classOf: map<ActorId, string>, selected: seq<ActorId>,
                   within: (ActorId, ActorId) -> bool, sel: ActorId): seq<ActorId>
  {
    if all == [] then []
    else
      var front := NearOne(all[..|all| - 1], classOf, selected, within, sel);
      var a := all[|all| - 1];
      if a !in selected && IsLight(classOf, a) && within(sel, a) then front + [a] else front
  }

  /** The `nearby` list after the selected actors `sels` are walked. */
  function NearAll(sels: seq<ActorId>, all: seq<ActorId>, classOf: map<ActorId, string>, selected: seq<ActorId>,
                   within: (ActorId, ActorId) -> bool): seq<ActorId>
  {
    if sels == [] then []
    else NearAll(sels[..|sels| - 1], all, classOf, selected, within) + NearOne(all, classOf, selected, within, sels[|sels| - 1])
  }

  lemma {:induction false} NearOneMember(all: seq<ActorId>, classOf: map<ActorId, string>, selected: seq<ActorId>,
                                         within: (ActorId, ActorId) -> bool, sel: ActorId, a: ActorId)
    ensures a in NearOne(all, classOf, selected, within, sel) <==>
              a in all && a !in selected && IsLight(classOf, a) && within(sel, a)
  {
    if all != [] {
      var front := all[..|all| - 1];
      NearOneMember(front, classOf, selected, within, sel, a);
      assert all == front + [all[|all| - 1]];
    }
  }

  lemma {:induction false} NearAllMember(sels: seq<ActorId>, all: seq<ActorId>, classOf: map<ActorId, string>,
                                         selected: seq<ActorId>, within: (ActorId, ActorId) -> bool, a: ActorId)
    ensures a in NearAll(sels, all, classOf, selected, within) <==>
              a in all && a !in selected && IsLight(classOf, a) && exists s :: s in sels && within(s, a)
  {
    if sels != [] {
      var front := sels[..|sels| - 1];
      var last := sels[|sels| - 1];
      NearAllMember(front, all, classOf, selected, within, a);
      NearOneMember(all, classOf, selected, within, last, a);
      assert sels == front + [last];
      if exists s :: s in sels && within(s, a) {
        var s :| s in sels && within(s, a);
        if s != last {
          assert s in front;
        }
      }
    }
  }

  /** `get_lights_in_radius`: every light of the level that is not selected
      and lies within the radius of a selected actor, once each. */
  method GetLightsInRadius(level: Level, selected: seq<ActorId>, within: (ActorId, ActorId) -> bool)
    returns (lights: seq<ActorId>)
    ensures NoDup(lights)
    ensures forall a :: a in lights <==> NearbyLight(level.actors, level.classOf, selected, within, a)
  {
    var all := level.actors;
    var nearby := [];
    for i := 0 to |selected|
      invariant nearby == NearAll(selected[..i], all, level.classOf, selected, within)
    {
      assert selected[..i + 1][..i] == selected[..i];
      var sel := selected[i];
      for n := 0 to |all|
        invariant nearby == NearAll(selected[..i], all, level.classOf, selected, within) +
                            NearOne(all[..n], level.classOf, selected, within, sel)
      {
        assert all[..n + 1][..n] == all[..n];
        var actor := all[n];
        if actor in selected {
          continue;
        }
        if IsLight(level.classOf, actor) {
          if within(sel, actor) {
            nearby := nearby + [actor];
          }
        }
      }
      assert all[..|all|] == all;
    }
    assert selected[..|selected|] == selected;
    lights := Deduplicate(Elems(nearby));
    forall a ensures a in lights <==> NearbyLight(level.actors, level.classOf, selected, within, a) {
      NearAllMember(selected, all, level.classOf, selected, within, a);
      assert a in lights <==> a in Elems(lights);
      assert a in nearby <==> a in Elems(nearby);
    }
  }

  /** What `extra_lights` must be for a lighting mode. */
  ghost predicate ExtraLightsFor(level: Level, selected: seq<ActorId>, mode: LightingMode,
                           within: (ActorId, ActorId) -> bool, extra: seq<ActorId>)
  {
    match mode
    case NoLights => extra == []
    case AllLights => extra == AllLightsIn(level.actors, level.classOf)
    case NearbyLights => NoDup(extra) && forall a :: a in extra <==> NearbyLight(level.actors, level.classOf, selected, within, a)
  }

  /** The `extra_lights` branch of isolate and ghost mode. */
  method ExtraLights(level: Level, selected: seq<ActorId>, mode: LightingMode, within: (ActorId, ActorId) -> bool)
    returns (extra: seq<ActorId>)
    ensures ExtraLightsFor(level, selected, mode, within, extra)
  {
    extra := [];
    if mode == NearbyLights {
      extra := GetLightsInRadius(level, selected, within);
    } else if mode == AllLights {
      extra := AllLightsIn(level.actors, level.classOf);
    }
  }

  /** The actors kept visible are the selection and the extra lights: with
      "All Lights" no light is ever hidden, with "Nearby Lights" no nearby
      light is. */
  lemma KeptLights(level: Level, selected: seq<ActorId>, mode: LightingMode,
                   within: (ActorId, ActorId) -> bool, extra: seq<ActorId>, a: ActorId)
    requires ExtraLightsFor(level, selected, mode, within, extra)
    ensures a in Outside(level.actors, selected + extra) <==> a in level.actors && a !in selected && a !in extra
    ensures mode == AllLights && a in Outside(level.actors, selected + extra) ==> !IsLight(level.classOf, a)
    ensures mode == NearbyLights && a in Outside(level.actors, selected + extra) ==>
              !NearbyLight(level.actors, level.classOf, selected, within, a)
  {
    OutsideMember(level.actors, selected + extra, a);
    if mode == AllLights {
      AllLightsInMember(level.actors, level.classOf, a);
    }
  }

  // ------------------------------------------------------------------
  // Ghosting every slot of every component
  // ------------------------------------------------------------------

  /** Every slot of every component set to the ghost material. */
  function GhostEvery(cs: seq<Component>, g: MaterialId): (r: seq<Component>)
    ensures |r| == |cs|
  {
    seq(|cs|, j requires 0 <= j < |cs| => cs[j].(slots := Fill(|cs[j].slots|, g)))
  }

  function Fill(n: nat, g: MaterialId): (r: Slots)
    ensures |r| == n
  {
    seq(n, t => Some(g))
  }

  /** The level's components after the actors in `t` are ghosted. */
  function GhostAll(cs: Components, t: set<ActorId>, g: MaterialId): (r: Components)
    ensures r.Keys == cs.Keys
  {
    map a | a in cs :: if a in t then GhostEvery(cs[a], g) else cs[a]
  }

  /** The (actor, component) keys of the actors in `t`. */
  function KeysOf(cs: Components, t: set<ActorId>): set<CompKey>
  {
    set a, j | a in t && 0 <= j < |CompsOf(cs, a)| :: (a, j)
  }

  /** The slot list of every component of the actors in `t`. */
  function SavedAll(cs: Components, t: set<ActorId>): map<CompKey, Slots>
  {
    map k | k in KeysOf(cs, t) :: CompsOf(cs, k.0)[k.1].slots
  }

  /** The first j components of an actor ghosted, the rest as they were. */
  function GhostedUpTo(comps: seq<Component>, j: nat, g: MaterialId): (r: seq<Component>)
    requires j <= |comps|
    ensures |r| == |comps|
  {
    GhostEvery(comps[..j], g) + comps[j..]
  }

  /** The slot lists of the first j components of an actor. */
  function SavedUpTo(actor: ActorId, comps: seq<Component>, j: nat): map<CompKey, Slots>
    requires j <= |comps|
  {
    map k | k in (set t | 0 <= t < j :: (actor, t)) :: comps[k.1].slots
  }

  lemma GhostActorStep(actor: ActorId, comps: seq<Component>, j: nat, g: MaterialId)
    requires j < |comps|
    ensures GhostedUpTo(comps, j + 1, g) ==
              WithSlots(GhostedUpTo(comps, j, g), j, Patch(comps[j].slots, Fill(|comps[j].slots|, g), |comps[j].slots|, false))
    ensures SavedUpTo(actor, comps, j + 1) == SavedUpTo(actor, comps, j)[(actor, j) := comps[j].slots]
  {
    var lhs := GhostedUpTo(comps, j + 1, g);
    var rhs := WithSlots(GhostedUpTo(comps, j, g), j, Patch(comps[j].slots, Fill(|comps[j].slots|, g), |comps[j].slots|, false));
    forall t | 0 <= t < |comps| ensures lhs[t] == rhs[t] {
    }
  }

  lemma GhostActorDone(cs: Components, actor: ActorId, g: MaterialId)
    ensures GhostedUpTo(CompsOf(cs, actor), |CompsOf(cs, actor)|, g) == GhostEvery(CompsOf(cs, actor), g)
    ensures actor in cs ==> cs[actor := GhostEvery(cs[actor], g)] == GhostAll(cs, {actor}, g)
    ensures actor !in cs ==> cs == GhostAll(cs, {actor}, g)
    ensures SavedUpTo(actor, CompsOf(cs, actor), |CompsOf(cs, actor)|) == SavedAll(cs, {actor})
  {
    var comps := CompsOf(cs, actor);
    assert comps[..|comps|] == comps;
    assert KeysOf(cs, {actor}) == set t | 0 <= t < |comps| :: (actor, t);
  }

  /** One step of `enable_ghost_mode`: every component of `actor` has its
      slot list saved and each slot overwritten. */
  method GhostActor(level: Level, actor: ActorId, g: MaterialId) returns (saved: map<CompKey, Slots>)
    modifies level`comps
    ensures saved == SavedAll(old(level.comps), {actor})
    ensures level.comps == GhostAll(old(level.comps), {actor}, g)
  {
    ghost var c0 := level.comps;
    var comps := CompsOf(level.comps, actor);
    saved := map[];
    assert GhostedUpTo(comps, 0, g) == comps;
    assert actor in c0 ==> c0[actor := comps] == c0;
    for j := 0 to |comps|
      invariant level.comps == if actor in c0 then c0[actor := GhostedUpTo(comps, j, g)] else c0
      invariant saved == SavedUpTo(actor, comps, j)
    {
      var mats := comps[j].slots;
      saved := saved[(actor, j) := mats];
      GhostActorStep(actor, comps, j, g);
      level.WriteSlots(actor, j, Fill(|mats|, g), false);
    }
    GhostActorDone(c0, actor, g);
  }

  lemma GhostAllKeeps(cs: Components, t: set<ActorId>, a: ActorId, g: MaterialId)
    requires a !in t
    ensures CompsOf(GhostAll(cs, t, g), a) == CompsOf(cs, a)
    ensures GhostAll(GhostAll(cs, t, g), {a}, g) == GhostAll(cs, t + {a}, g)
  {
  }

  lemma KeysOfUnion(cs: Components, t: set<ActorId>, a: ActorId)
    ensures KeysOf(cs, t + {a}) == KeysOf(cs, t) + KeysOf(cs, {a})
  {
  }

  lemma SavedAllStep(cs: Components, t: set<ActorId>, a: ActorId, g: MaterialId)
    requires a !in t
    ensures SavedAll(GhostAll(cs, t, g), {a}) == SavedAll(cs, {a})
    ensures SavedAll(cs, t) + SavedAll(cs, {a}) == SavedAll(cs, t + {a})
  {
    GhostAllKeeps(cs, t, a, g);
    assert KeysOf(GhostAll(cs, t, g), {a}) == KeysOf(cs, {a});
    KeysOfUnion(cs, t, a);
  }

  lemma NoCompsStep(cs: Components, t: set<ActorId>, a: ActorId, g: MaterialId)
    requires CompsOf(cs, a) == []
    ensures GhostAll(cs, t + {a}, g) == GhostAll(cs, t, g)
    ensures SavedAll(cs, {a}) == map[]
  {
    assert KeysOf(cs, {a}) == {};
  }

  /** Ghosting leaves every kept actor (the selection and the extra
      lights), and every actor without components, exactly as it was. */
  lemma GhostAllSparesKept(all: seq<ActorId>, keep: seq<ActorId>, cs: Components, g: MaterialId, a: ActorId)
    requires a in cs && (a in keep || a !in all || cs[a] == [])
    ensures GhostAll(cs, Elems(GhostTargets(all, keep, cs)), g)[a] == cs[a]
  {
  }

  /** One step of the outer loop: ghost one actor that is not kept. */
  method GhostStep(level: Level, ghost c0: Components, ghost t: set<ActorId>, actor: ActorId, g: MaterialId)
    returns (here: map<CompKey, Slots>, hasComps: bool)
    requires actor !in t
    requires level.comps == GhostAll(c0, t, g)
    modifies level`comps
    ensures hasComps <==> CompsOf(c0, actor) != []
    ensures SavedAll(c0, t) + here == SavedAll(c0, if hasComps then t + {actor} else t)
    ensures level.comps == GhostAll(c0, if hasComps then t + {actor} else t, g)
  {
    GhostAllKeeps(c0, t, actor, g);
    SavedAllStep(c0, t, actor, g);
    if CompsOf(c0, actor) == [] {
      NoCompsStep(c0, t, actor, g);
      assert SavedAll(c0, t) + map[] == SavedAll(c0, t);
    }
    hasComps := CompsOf(level.comps, actor) != [];
    here := GhostActor(level, actor, g);
  }

  /** The outer loop of `enable_ghost_mode`: every actor of `all` that is not
      kept has all its components saved and ghosted, and is recorded when it
      has at least one. */
  method GhostAllComponents(level: Level, all: seq<ActorId>, keep: seq<ActorId>, g: MaterialId)
    returns (targets: seq<ActorId>, saved: map<CompKey, Slots>)
    requires NoDup(all)
    modifies level`comps
    ensures targets == GhostTargets(all, keep, old(level.comps))
    ensures saved == SavedAll(old(level.comps), Elems(targets))
    ensures level.comps == GhostAll(old(level.comps), Elems(targets), g)
  {
    ghost var c0 := level.comps;
    targets := [];
    saved := map[];
    assert SavedAll(c0, {}) == map[];
    assert GhostAll(c0, {}, g) == c0;
    for i := 0 to |all|
      invariant targets == GhostTargets(all[..i], keep, c0)
      invariant saved == SavedAll(c0, Elems(targets))
      invariant level.comps == GhostAll(c0, Elems(targets), g)
    {
      assert all[..i + 1][..i] == all[..i];
      var actor := all[i];
      if actor in keep {
        continue;
      }
      GhostTargetsMember(all[..i], keep, c0, actor);
      assert actor !in Elems(targets);
      ghost var t := Elems(targets);
      var here, hasComps := GhostStep(level, c0, t, actor, g);
      saved := saved + here;
      if hasComps {
        targets := targets + [actor];
        assert Elems(targets) == t + {actor};
      }
    }
    assert all[..|all|] == all;
  }

  // ------------------------------------------------------------------
  // Restoring every saved component
  // ------------------------------------------------------------------

  /** A saved component whose actor and component still exist and whose
      `set_material` calls do not raise. */
  predicate Restorable(actors: seq<ActorId>, cs: Components, raising: set<CompKey>, k: CompKey)
  {
    k.0 in actors && 0 <= k.1 < |CompsOf(cs, k.0)| && k !in raising
  }

  /** The saved components that are restored and counted. */
  function RestoredKeys(actors: seq<ActorId>, cs: Components, raising: set<CompKey>, saved: set<CompKey>): set<CompKey>
  {
    set k | k in saved && Restorable(actors, cs, raising, k)
  }

  /** Component j of actor a after its saved list, if any, is written back. */
  function RestoredComp(actors: seq<ActorId>, cs: Components, raising: set<CompKey>, saved: map<CompKey, Slots>,
                        done: set<CompKey>, a: ActorId, j: int): Component
    requires a in cs && 0 <= j < |cs[a]|
  {
    var k := (a, j);
    if k in saved && k in done && Restorable(actors, cs, raising, k)
    then cs[a][j].(slots := Patch(cs[a][j].slots, saved[k], |saved[k]|, true))
    else cs[a][j]
  }

  /** The components after the saved lists of the keys in `done` that can be
      restored are written back, skipping empty entries. */
  predicate RestoredNonNullUpTo(now: Components, actors: seq<ActorId>, cs: Components, raising: set<CompKey>,
                                saved: map<CompKey, Slots>, done: set<CompKey>)
  {
    now.Keys == cs.Keys &&
    forall a :: a in cs ==>
      |now[a]| == |cs[a]| &&
      forall j :: 0 <= j < |cs[a]| ==> now[a][j] == RestoredComp(actors, cs, raising, saved, done, a, j)
  }

  /** The components after `disable_ghost_mode`. */
  function RestoreNonNull(actors: seq<ActorId>, cs: Components, raising: set<CompKey>, saved: map<CompKey, Slots>): (r: Components)
    ensures r.Keys == cs.Keys
  {
    map a | a in cs :: seq(|cs[a]|, j requires 0 <= j < |cs[a]| => RestoredComp(actors, cs, raising, saved, saved.Keys, a, j))
  }

  lemma InhabitedKeys(s: set<CompKey>)
    requires s != {}
    ensures exists k :: k in s
  {
    if forall k :: k !in s {
      assert false;
    }
  }

  /** One step of `disable_ghost_mode`. */
  method RestoreOneComp(level: Level, ghost c0: Components, raising: set<CompKey>, saved: map<CompKey, Slots>,
                        ghost done: set<CompKey>, key: CompKey) returns (hit: bool)
    requires key in saved && key !in done
    requires RestoredNonNullUpTo(level.comps, level.actors, c0, raising, saved, done)
    modifies level`comps
    ensures hit <==> Restorable(level.actors, c0, raising, key)
    ensures RestoredNonNullUpTo(level.comps, level.actors, c0, raising, saved, done + {key})
  {
    var (actor, j) := key;
    if actor !in level.actors || !(0 <= j < |CompsOf(level.comps, actor)|) {
      return false;
    }
    if key in raising {
      return false;
    }
    level.WriteSlots(actor, j, saved[key], true);
    hit := true;
  }

  lemma RestoredNonNullAll(now: Components, actors: seq<ActorId>, cs: Components, raising: set<CompKey>, saved: map<CompKey, Slots>)
    requires RestoredNonNullUpTo(now, actors, cs, raising, saved, saved.Keys)
    ensures now == RestoreNonNull(actors, cs, raising, saved)
  {
    var want := RestoreNonNull(actors, cs, raising, saved);
    forall a | a in now ensures now[a] == want[a] {
      assert |now[a]| == |want[a]|;
    }
  }

  lemma RestoredKeysStep(actors: seq<ActorId>, cs: Components, raising: set<CompKey>, done: set<CompKey>, k: CompKey)
    requires k !in done
    ensures k !in RestoredKeys(actors, cs, raising, done)
    ensures RestoredKeys(actors, cs, raising, done + {k}) ==
              RestoredKeys(actors, cs, raising, done) + (if Restorable(actors, cs, raising, k) then {k} else {})
  {
  }

  /** The loop of `disable_ghost_mode`: every saved list whose actor and
      component still exist is written back, skipping empty entries, and
      counted unless its `set_material` calls raise. */
  method RestoreAllComponents(level: Level, saved: map<CompKey, Slots>, raising: set<CompKey>) returns (restored: nat)
    modifies level`comps
    ensures level.comps == RestoreNonNull(level.actors, old(level.comps), raising, saved)
    ensures restored == |RestoredKeys(level.actors, old(level.comps), raising, saved.Keys)|
  {
    ghost var c0 := level.comps;
    var keys: set<CompKey> := saved.Keys;
    restored := 0;
    while keys != {}
      invariant keys <= saved.Keys
      invariant RestoredNonNullUpTo(level.comps, level.actors, c0, raising, saved, saved.Keys - keys)
      invariant restored == |RestoredKeys(level.actors, c0, raising, saved.Keys - keys)|
      decreases |keys|
    {
      InhabitedKeys(keys);
      var key :| key in keys;
      ghost var done := saved.Keys - keys;
      RestoredKeysStep(level.actors, c0, raising, done, key);
      var hit := RestoreOneComp(level, c0, raising, saved, done, key);
      if hit {
        assert |RestoredKeys(level.actors, c0, raising, done) + {key}| == |RestoredKeys(level.actors, c0, raising, done)| + 1;
        restored := restored + 1;
      }
      keys := keys - {key};
      assert saved.Keys - keys == done + {key};
    }
    assert saved.Keys - keys == saved.Keys;
    RestoredNonNullAll(level.comps, level.actors, c0, raising, saved);
  }

  // ------------------------------------------------------------------
  // Ghost then restore
  // ------------------------------------------------------------------

  /** Every slot that held a material keeps it; every empty slot holds the
      ghost material. */
  function RefillEmpty(slots: Slots, g: MaterialId): (r: Slots)
    ensures |r| == |slots|
  {
    seq(|slots|, t requires 0 <= t < |slots| => if slots[t].Some? then slots[t] else Some(g))
  }

  /** The components of the actors in `t`, with their empty slots ghosted. */
  function GhostEmptySlots(cs: Components, t: set<ActorId>, g: MaterialId): (r: Components)
    ensures r.Keys == cs.Keys
  {
    map a | a in cs :: if a in t then seq(|cs[a]|, j requires 0 <= j < |cs[a]| => cs[a][j].(slots := RefillEmpty(cs[a][j].slots, g))) else cs[a]
  }

  /** Ghosting every slot and then writing back the saved non-empty entries
      puts every saved material back, and leaves the ghost material in the
      slots that were empty. */
  lemma GhostAllThenRestore(actors: seq<ActorId>, cs: Components, t: set<ActorId>, g: MaterialId)
    requires t <= Elems(actors)
    ensures RestoreNonNull(actors, GhostAll(cs, t, g), {}, SavedAll(cs, t)) == GhostEmptySlots(cs, t, g)
  {
    var ghosted := GhostAll(cs, t, g);
    var saved := SavedAll(cs, t);
    var lhs := RestoreNonNull(actors, ghosted, {}, saved);
    var rhs := GhostEmptySlots(cs, t, g);
    forall a | a in cs ensures lhs[a] == rhs[a] {
      if a in t {
        assert a in actors;
        forall j | 0 <= j < |cs[a]| ensures lhs[a][j] == rhs[a][j] {
          assert (a, j) in KeysOf(cs, t);
          assert Restorable(actors, ghosted, {}, (a, j));
          var s := cs[a][j].slots;
          assert saved[(a, j)] == s;
          assert Patch(Fill(|s|, g), s, |s|, true) == RefillEmpty(s, g);
        }
      } else {
        forall j | 0 <= j < |cs[a]| ensures lhs[a][j] == rhs[a][j] {
          assert (a, j) !in KeysOf(cs, t);
        }
      }
    }
  }

  /** When no ghosted component had an empty slot, the round trip gives the
      components back exactly. */
  lemma GhostAllThenRestoreExact(actors: seq<ActorId>, cs: Components, t: set<ActorId>, g: MaterialId)
    requires t <= Elems(actors)
    requires forall a, j, n :: a in t && a in cs && 0 <= j < |cs[a]| && 0 <= n < |cs[a][j].slots| ==> cs[a][j].slots[n].Some?
    ensures RestoreNonNull(actors, GhostAll(cs, t, g), {}, SavedAll(cs, t)) == cs
  {
    GhostAllThenRestore(actors, cs, t, g);
    var rhs := GhostEmptySlots(cs, t, g);
    forall a | a in cs ensures rhs[a] == cs[a] {
      if a in t {
        forall j | 0 <= j < |cs[a]| ensures rhs[a][j] == cs[a][j] {
          assert RefillEmpty(cs[a][j].slots, g) == cs[a][j].slots;
        }
      }
    }
  }

  // ------------------------------------------------------------------
  // The controller
  // ------------------------------------------------------------------

  class WorldToolsSimple {
    var hiddenActors: seq<ActorId>
    var ghostedActors: seq<ActorId>
    var originalMaterials: map<CompKey, Slots>

    constructor ()
      ensures hiddenActors == [] && ghostedActors == [] && originalMaterials == map[]
    {
      hiddenActors := [];
      ghostedActors := [];
      originalMaterials := map[];
    }

    /** `isolate_selected`: the record is cleared first; with a selection and
        a lighting mode, every level actor that is neither selected nor one
        of the mode's extra lights is hidden and recorded, in level order. */
    method IsolateSelected(level: Level, selected: seq<ActorId>, mode: Option<LightingMode>,
                           within: (ActorId, ActorId) -> bool) returns (extra: seq<ActorId>)
      modifies this`hiddenActors, level`hidden
      ensures selected == [] || mode.None? ==> hiddenActors == [] && extra == []
      ensures selected != [] && mode.Some? ==>
                ExtraLightsFor(level, selected, mode.value, within, extra) &&
                hiddenActors == Outside(level.actors, selected + extra)
      ensures level.hidden == old(level.hidden) + Elems(hiddenActors)
    {
      var all := level.actors;
      hiddenActors := [];
      extra := [];
      if selected == [] {
        return;
      }
      if mode.None? {
        return;
      }
      extra := ExtraLights(level, selected, mode.value, within);
      var keepVisible := selected + extra;
      hiddenActors := HideOutside(level, all, keepVisible);
    }

    /** `restore_visibility`. */
    method RestoreVisibility(level: Level) returns (count: nat)
      modifies this`hiddenActors, level`hidden
      ensures count == |old(hiddenActors)|
      ensures hiddenActors == []
      ensures level.hidden == old(level.hidden) - Live(level.actors, old(hiddenActors))
    {
      UnhideRecorded(level, hiddenActors);
      count := |hiddenActors|;
      hiddenActors := [];
    }

    /** `enable_ghost_mode`: nothing changes when the dialog is cancelled or
        the wireframe material does not load; otherwise every component of
        every actor outside the selection and the extra lights has its slot
        list saved under (actor, component) and all its slots overwritten,
        and the actors with at least one component are recorded. Unlike
        isolate, an empty selection is not refused. */
    method EnableGhostMode(level: Level, selected: seq<ActorId>, mode: Option<LightingMode>,
                           within: (ActorId, ActorId) -> bool, ghostMat: Option<MaterialId>) returns (extra: seq<ActorId>)
      requires level.Valid()
      modifies this`ghostedActors, this`originalMaterials, level`comps
      ensures mode.None? || ghostMat.None? ==>
                ghostedActors == old(ghostedActors) && originalMaterials == old(originalMaterials) && level.comps == old(level.comps)
      ensures mode.Some? && ghostMat.Some? ==>
                ExtraLightsFor(level, selected, mode.value, within, extra) &&
                ghostedActors == GhostTargets(level.actors, selected + extra, old(level.comps)) &&
                originalMaterials == SavedAll(old(level.comps), Elems(ghostedActors)) &&
                level.comps == GhostAll(old(level.comps), Elems(ghostedActors), ghostMat.value)
    {
      var all := level.actors;
      extra := [];
      if mode.None? {
        return;
      }
      extra := ExtraLights(level, selected, mode.value, within);
      var keepVisible := selected + extra;
      if ghostMat.None? {
        return;
      }
      ghostedActors := [];
      originalMaterials := map[];
      ghostedActors, originalMaterials := GhostAllComponents(level, all, keepVisible, ghostMat.value);
    }

    /** `disable_ghost_mode`: entries whose actor or component is gone are
        skipped; the rest have their non-empty saved entries written back and
        are counted, except those whose `set_material` raises; both records
        are always emptied. */
    method DisableGhostMode(level: Level, raising: set<CompKey>) returns (restored: nat)
      modifies this`ghostedActors, this`originalMaterials, level`comps
      ensures level.comps == RestoreNonNull(level.actors, old(level.comps), raising, old(originalMaterials))
      ensures restored == |RestoredKeys(level.actors, old(level.comps), raising, old(originalMaterials).Keys)|
      ensures originalMaterials == map[] && ghostedActors == []
    {
      restored := RestoreAllComponents(level, originalMaterials, raising);
      originalMaterials := map[];
      ghostedActors := [];
    }
  }
}
