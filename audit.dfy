/** The audit and remediation passes over the asset registry. The registry
    is a sequence of records; every engine call a pass makes on a record
    (load, flag read, flag write, referencer lookup, rename) has its outcome
    stored in the record, and a raised exception is one of those outcomes. */
module Audit {
  import opened Wrappers
  import opened Naming

  // ------------------------------------------------------------------
  // Records and issues
  // ------------------------------------------------------------------

  /** What `load_asset_safe` gives: an object, or None. */
  datatype LoadOutcome = Loaded | LoadFails

  /** Reading `nanite_settings.enabled`: true, false, or the read raises. */
  datatype NaniteRead = NaniteOn | NaniteOff | ReadRaises

  /** Setting the flag and saving the mesh: done, or one of the calls raises
      (the stored flag is then left as it was). */
  datatype WriteOutcome = WriteOk | WriteRaises

  /** `rename_asset`: returns true, returns false, or raises. */
  datatype RenameOutcome = RenameOk | RenameRefused | RenameRaises

  /** `find_package_referencers_for_asset`: the referencer list, or it raises. */
  datatype RefLookup = Referencers(refs: seq<string>) | LookupRaises

  /** One registry entry together with the outcome of each engine call on it. */
  datatype Record = Record(
    packageName: string,        // e.g. "/Game/Props/SM_Crate"
    packagePath: string,        // e.g. "/Game/Props"
    assetName: string,          // e.g. "SM_Crate"
    classPath: Option<string>,  // asset_class_path.asset_name; None when the access raises
    legacyClass: string,        // str(asset_class), the fallback for the naming fix
    load: LoadOutcome,
    nanite: NaniteRead,
    naniteWrite: WriteOutcome,
    refs: RefLookup,
    rename: RenameOutcome)

  function ObjectPath(r: Record): string { BuildObjectPath(r.packageName, r.assetName) }

  predicate InGame(r: Record) { IsUnderGame(r.packageName) }

  /** `is_static_mesh_asset`: false when the class access raises. */
  predicate IsStaticMesh(r: Record): (b: bool)
    ensures b <==> r.classPath.Some? && r.classPath.value == "StaticMesh"
    ensures r.classPath.None? ==> !b
  {
    r.classPath == Some("StaticMesh")
  }

  /** The class the naming fix takes its prefix from: the class path's name,
      or the legacy class string when reading the class path raises. A
      static mesh, as the Nanite passes see it, is given the mesh prefix. */
  function NamingClass(r: Record): (c: string)
    ensures r.classPath.Some? ==> c == r.classPath.value
    ensures r.classPath.None? ==> c == r.legacyClass
    ensures IsStaticMesh(r) ==> PrefixForClass(c) == "SM_"
  {
    r.classPath.GetOr(r.legacyClass)
  }

  datatype IssueKind = LoadFailure | BadNaming(problem: NameProblem) | NaniteDisabled | Unused

  /** An (object path, message) pair of a scan pass. */
  datatype Issue = Issue(path: string, kind: IssueKind)

  // ------------------------------------------------------------------
  // Registry walks
  // ------------------------------------------------------------------

  /** The values a per-record test yields over a walk of the registry, in
      registry order. */
  function Pick<T>(rs: seq<Record>, f: Record -> Option<T>): (r: seq<T>)
    ensures |r| <= |rs|
  {
    if rs == [] then []
    else
      var front := Pick(rs[..|rs| - 1], f);
      match f(rs[|rs| - 1])
      case Some(x) => front + [x]
      case None => front
  }

  /** How many records of the walk satisfy `p`. */
  function Count(rs: seq<Record>, p: Record -> bool): (n: nat)
    ensures n <= |rs|
  {
    if rs == [] then 0
    else Count(rs[..|rs| - 1], p) + (if p(rs[|rs| - 1]) then 1 else 0)
  }

  lemma {:induction false} PickMember<T>(rs: seq<Record>, f: Record -> Option<T>, x: T)
    ensures x in Pick(rs, f) <==> exists i :: 0 <= i < |rs| && f(rs[i]) == Some(x)
  {
    if rs != [] {
      var front := rs[..|rs| - 1];
      PickMember(front, f, x);
      assert forall i :: 0 <= i < |front| ==> front[i] == rs[i];
    }
  }

  /** One step of a walk. */
  lemma PickStep<T>(rs: seq<Record>, f: Record -> Option<T>)
    requires rs != []
    ensures Pick(rs, f) == Pick(rs[..|rs| - 1], f) + (match f(rs[|rs| - 1]) case Some(x) => [x] case None => [])
  {
  }

  lemma {:induction false} PickEmpty<T>(rs: seq<Record>, f: Record -> Option<T>)
    ensures Pick(rs, f) == [] <==> forall i :: 0 <= i < |rs| ==> f(rs[i]).None?
  {
    if rs != [] {
      var front := rs[..|rs| - 1];
      PickEmpty(front, f);
      assert forall i :: 0 <= i < |front| ==> front[i] == rs[i];
    }
  }

  /** Issues of earlier records come before issues of later ones. */
  lemma {:induction false} PickAppend<T>(a: seq<Record>, b: seq<Record>, f: Record -> Option<T>)
    ensures Pick(a + b, f) == Pick(a, f) + Pick(b, f)
    decreases |b|
  {
    if b == [] {
      assert a + b == a;
    } else {
      var b' := b[..|b| - 1];
      assert (a + b)[..|a + b| - 1] == a + b';
      PickAppend(a, b', f);
    }
  }

  lemma {:induction false} CountNone(rs: seq<Record>, p: Record -> bool)
    requires forall i :: 0 <= i < |rs| ==> !p(rs[i])
    ensures Count(rs, p) == 0
  {
    if rs != [] {
      var front := rs[..|rs| - 1];
      assert forall i :: 0 <= i < |front| ==> front[i] == rs[i];
      CountNone(front, p);
    }
  }

  // ------------------------------------------------------------------
  // The scan passes
  // ------------------------------------------------------------------

  function MissingCheck(r: Record): Option<Issue>
  {
    if InGame(r) && r.load == LoadFails then Some(Issue(ObjectPath(r), LoadFailure)) else None
  }

  /** A /Game record with an empty name makes the validator raise, so this
      test is only taken when the pass has not aborted. */
  function NamingCheck(r: Record): Option<Issue>
  {
    if InGame(r) && |r.assetName| > 0 then
      match BadName(r.assetName)
      case Some(p) => Some(Issue(ObjectPath(r), BadNaming(p)))
      case None => None
    else None
  }

  /** A loaded /Game static mesh whose flag reads false or cannot be read. */
  predicate NaniteFlagged(r: Record)
  {
    InGame(r) && IsStaticMesh(r) && r.load == Loaded && r.nanite != NaniteOn
  }

  function NaniteCheck(r: Record): Option<Issue>
  {
    if NaniteFlagged(r) then Some(Issue(ObjectPath(r), NaniteDisabled)) else None
  }

  function GameOnly(r: Record): Option<Record>
  {
    if InGame(r) then Some(r) else None
  }

  /** The /Game records, in registry order. */
  function GameAssets(rs: seq<Record>): seq<Record>
  {
    Pick(rs, GameOnly)
  }

  function UnusedCheck(r: Record): Option<Issue>
  {
    if r.refs == Referencers([]) then Some(Issue(ObjectPath(r), Unused)) else None
  }

  predicate NamingRaises(rs: seq<Record>)
  {
    exists i :: 0 <= i < |rs| && InGame(rs[i]) && |rs[i].assetName| == 0
  }

  predicate LookupRaisesIn(rs: seq<Record>)
  {
    exists i :: 0 <= i < |rs| && InGame(rs[i]) && rs[i].refs == LookupRaises
  }

  /** `find_missing_or_broken_assets`. */
  method FindMissingOrBrokenAssets(reg: Registry) returns (issues: seq<Issue>)
    ensures issues == Pick(reg.assets, MissingCheck)
  {
    var all := reg.assets;
    issues := [];
    for i := 0 to |all|
      invariant issues == Pick(all[..i], MissingCheck)
    {
      assert all[..i + 1][..i] == all[..i];
      var a := all[i];
      if !InGame(a) {
        continue;
      }
      var path := ObjectPath(a);
      if a.load == LoadFails {
        issues := issues + [Issue(path, LoadFailure)];
      }
    }
    assert all[..|all|] == all;
  }

  /** `audit_naming_and_nanite`: None when the validator raises on an empty
      /Game asset name, which nothing in the pass catches. */
  method AuditNamingAndNanite(reg: Registry) returns (result: Option<(seq<Issue>, seq<Issue>)>)
    ensures result.None? <==> NamingRaises(reg.assets)
    ensures result.Some? ==> result.value == (Pick(reg.assets, NamingCheck), Pick(reg.assets, NaniteCheck))
  {
    var all := reg.assets;
    var namingIssues, naniteIssues := [], [];
    for i := 0 to |all|
      invariant !NamingRaises(all[..i])
      invariant namingIssues == Pick(all[..i], NamingCheck)
      invariant naniteIssues == Pick(all[..i], NaniteCheck)
    {
      assert all[..i + 1][..i] == all[..i];
      var a := all[i];
      if !InGame(a) {
        assert !NamingRaises(all[..i + 1]);
        continue;
      }
      var path := ObjectPath(a);
      if |a.assetName| == 0 {
        assert all[i] == a;
        return None;
      }
      assert !NamingRaises(all[..i + 1]);
      var problem := BadName(a.assetName);
      if problem.Some? {
        namingIssues := namingIssues + [Issue(path, BadNaming(problem.value))];
      }
      if IsStaticMesh(a) {
        if a.load == Loaded {
          var enabled := a.nanite == NaniteOn;
          if !enabled {
            naniteIssues := naniteIssues + [Issue(path, NaniteDisabled)];
          }
        }
      }
    }
    assert all[..|all|] == all;
    result := Some((namingIssues, naniteIssues));
  }

  /** `find_unused_assets`: None when a referencer lookup raises, which
      nothing in the pass catches. */
  method FindUnusedAssets(reg: Registry) returns (result: Option<seq<Issue>>)
    ensures result.None? <==> LookupRaisesIn(reg.assets)
    ensures result.Some? ==> result.value == Pick(GameAssets(reg.assets), UnusedCheck)
  {
    var allAssets := GameAssets(reg.assets);
    var unused := [];
    for i := 0 to |allAssets|
      invariant forall j :: 0 <= j < i ==> allAssets[j].refs != LookupRaises
      invariant unused == Pick(allAssets[..i], UnusedCheck)
    {
      assert allAssets[..i + 1][..i] == allAssets[..i];
      var a := allAssets[i];
      var path := ObjectPath(a);
      match a.refs
      case LookupRaises =>
        GameAssetsMember(reg.assets, a);
        assert allAssets[i] in allAssets;
        return None;
      case Referencers(refs) =>
        if refs == [] {
          unused := unused + [Issue(path, Unused)];
        }
    }
    assert allAssets[..|allAssets|] == allAssets;
    NoLookupRaises(reg.assets);
    result := Some(unused);
  }

  lemma GameAssetsMember(rs: seq<Record>, a: Record)
    ensures a in GameAssets(rs) <==> exists i :: 0 <= i < |rs| && InGame(rs[i]) && rs[i] == a
  {
    PickMember(rs, GameOnly, a);
    if a in GameAssets(rs) {
      var i :| 0 <= i < |rs| && GameOnly(rs[i]) == Some(a);
    }
    if exists i :: 0 <= i < |rs| && InGame(rs[i]) && rs[i] == a {
      var i :| 0 <= i < |rs| && InGame(rs[i]) && rs[i] == a;
      assert GameOnly(rs[i]) == Some(a);
    }
  }

  lemma NoLookupRaises(rs: seq<Record>)
    requires forall j :: 0 <= j < |GameAssets(rs)| ==> GameAssets(rs)[j].refs != LookupRaises
    ensures !LookupRaisesIn(rs)
  {
    forall i | 0 <= i < |rs| && InGame(rs[i]) ensures rs[i].refs != LookupRaises {
      GameAssetsMember(rs, rs[i]);
    }
  }

  // ------------------------------------------------------------------
  // The registry, as far as the fix passes change it
  // ------------------------------------------------------------------

  /** The record an asset becomes when it is renamed in place. */
  function MovedTo(r: Record, newName: string): Record
  {
    r.(assetName := newName, packageName := r.packagePath + "/" + newName)
  }

  /** The asset registry of the editor. */
  class Registry {
    var assets: seq<Record>

    constructor (assets: seq<Record>)
      ensures this.assets == assets
    {
      this.assets := assets;
    }

    /** Set `nanite_settings.enabled` on asset i and save the asset. When
        one of the calls raises, the stored flag stays as it was. */
    method SetNaniteEnabled(i: nat) returns (ok: bool)
      requires i < |assets|
      modifies this
      ensures ok <==> old(assets[i]).naniteWrite == WriteOk
      ensures assets == if ok then old(assets)[i := old(assets[i]).(nanite := NaniteOn)] else old(assets)
    {
      ok := assets[i].naniteWrite == WriteOk;
      if ok {
        assets := assets[i := assets[i].(nanite := NaniteOn)];
      }
    }

    /** `rename_asset(old_path, "<package_path>/<new_name>")`. */
    method RenameAsset(i: nat, newName: string) returns (outcome: RenameOutcome)
      requires i < |assets|
      modifies this
      ensures outcome == old(assets[i]).rename
      ensures assets == if outcome == RenameOk then old(assets)[i := MovedTo(old(assets[i]), newName)] else old(assets)
    {
      outcome := assets[i].rename;
      if outcome == RenameOk {
        assets := assets[i := MovedTo(assets[i], newName)];
      }
    }
  }

  // ------------------------------------------------------------------
  // The Nanite fix
  // ------------------------------------------------------------------

  /** A record the Nanite fix enables and counts: a loaded /Game static mesh
      whose flag reads false and whose write and save do not raise. */
  predicate NaniteFixed(r: Record)
  {
    InGame(r) && IsStaticMesh(r) && r.load == Loaded && r.nanite == NaniteOff && r.naniteWrite == WriteOk
  }

  function NaniteFixOne(r: Record): Record
  {
    if NaniteFixed(r) then r.(nanite := NaniteOn) else r
  }

  function AfterNaniteFix(rs: seq<Record>): (after: seq<Record>)
    ensures |after| == |rs|
  {
    seq(|rs|, i requires 0 <= i < |rs| => NaniteFixOne(rs[i]))
  }

  /** `enable_nanite_for_all_flagged`. */
  method EnableNaniteForAllFlagged(reg: Registry) returns (changed: nat)
    modifies reg
    ensures changed == Count(old(reg.assets), NaniteFixed)
    ensures reg.assets == AfterNaniteFix(old(reg.assets))
  {
    var all := reg.assets;
    changed := 0;
    for i := 0 to |all|
      invariant |reg.assets| == |all|
      invariant forall j :: 0 <= j < i ==> reg.assets[j] == NaniteFixOne(all[j])
      invariant forall j :: i <= j < |all| ==> reg.assets[j] == all[j]
      invariant changed == Count(all[..i], NaniteFixed)
    {
      assert all[..i + 1][..i] == all[..i];
      var a := all[i];
      if !InGame(a) {
        continue;
      }
      if !IsStaticMesh(a) {
        continue;
      }
      if a.load == LoadFails {
        continue;
      }
      if a.nanite == ReadRaises {
        continue;
      }
      if a.nanite == NaniteOff {
        var ok := reg.SetNaniteEnabled(i);
        if !ok {
          continue;
        }
        changed := changed + 1;
      }
    }
    assert all[..|all|] == all;
  }

  /** After the fix nothing is left for a second run to enable, and a second
      run leaves the registry as the first one left it. */
  lemma NaniteFixIdempotent(rs: seq<Record>)
    ensures Count(AfterNaniteFix(rs), NaniteFixed) == 0
    ensures AfterNaniteFix(AfterNaniteFix(rs)) == AfterNaniteFix(rs)
  {
    var once := AfterNaniteFix(rs);
    CountNone(once, NaniteFixed);
    forall i | 0 <= i < |once| ensures NaniteFixOne(once[i]) == once[i] {
      assert !NaniteFixed(once[i]);
    }
  }

  /** Every mesh the fix enables drops out of the Nanite audit; the meshes
      it cannot enable stay flagged. */
  lemma {:induction false} NaniteFixClearsIssues(rs: seq<Record>)
    ensures |Pick(AfterNaniteFix(rs), NaniteCheck)| + Count(rs, NaniteFixed) == |Pick(rs, NaniteCheck)|
  {
    if rs != [] {
      var front := rs[..|rs| - 1];
      assert AfterNaniteFix(rs)[..|rs| - 1] == AfterNaniteFix(front);
      NaniteFixClearsIssues(front);
    }
  }

  // ------------------------------------------------------------------
  // The naming fix
  // ------------------------------------------------------------------

  /** A /Game record whose name does not start with its class prefix. */
  predicate NeedsRename(r: Record)
  {
    InGame(r) && !(PrefixForClass(NamingClass(r)) <= r.assetName)
  }

  function FixedName(r: Record): string
  {
    PrefixForClass(NamingClass(r)) + CleanAssetName(r.assetName)
  }

  predicate RenamedByFix(r: Record)
  {
    NeedsRename(r) && r.rename == RenameOk
  }

  function RenameCheck(r: Record): Option<(string, string)>
  {
    if RenamedByFix(r) then Some((r.assetName, FixedName(r))) else None
  }

  function AutoFixOne(r: Record): Record
  {
    if RenamedByFix(r) then MovedTo(r, FixedName(r)) else r
  }

  function AfterAutoFix(rs: seq<Record>): (after: seq<Record>)
    ensures |after| == |rs|
  {
    seq(|rs|, i requires 0 <= i < |rs| => AutoFixOne(rs[i]))
  }

  /** One step of `auto_fix_naming` on asset i: the rename it attempts and
      the pair it reports. */
  method FixOneName(reg: Registry, i: nat) returns (pair: Option<(string, string)>)
    requires i < |reg.assets|
    modifies reg
    ensures pair == RenameCheck(old(reg.assets[i]))
    ensures reg.assets == old(reg.assets)[i := AutoFixOne(old(reg.assets[i]))]
  {
    var a := reg.assets[i];
    if !InGame(a) {
      return None;
    }
    var oldName := a.assetName;
    var assetClass := match a.classPath case Some(c) => c case None => a.legacyClass;
    assert assetClass == NamingClass(a);
    var prefix := PrefixForClass(assetClass);
    if prefix <= oldName {
      assert !NeedsRename(a);
      return None;
    }
    assert NeedsRename(a);
    var newName := CleanAssetName(oldName);
    newName := prefix + newName;
    assert newName == FixedName(a);
    assert a.rename == RenameOk ==> AutoFixOne(a) == MovedTo(a, newName) && RenameCheck(a) == Some((oldName, newName));
    assert a.rename != RenameOk ==> AutoFixOne(a) == a && RenameCheck(a) == None;
    var outcome := reg.RenameAsset(i, newName);
    if outcome == RenameOk {
      pair := Some((oldName, newName));
    } else {
      pair := None;
    }
  }

  /** `auto_fix_naming`: no collision check; a refused or raising rename is
      skipped and the walk goes on. */
  method AutoFixNaming(reg: Registry) returns (renamed: seq<(string, string)>)
    modifies reg
    ensures renamed == Pick(old(reg.assets), RenameCheck)
    ensures reg.assets == AfterAutoFix(old(reg.assets))
  {
    var all := reg.assets;
    renamed := [];
    for i := 0 to |all|
      invariant |reg.assets| == |all|
      invariant forall j :: 0 <= j < i ==> reg.assets[j] == AutoFixOne(all[j])
      invariant forall j :: i <= j < |all| ==> reg.assets[j] == all[j]
      invariant renamed == Pick(all[..i], RenameCheck)
    {
      assert all[..i + 1][..i] == all[..i];
      var pair := FixOneName(reg, i);
      PickStep(all[..i + 1], RenameCheck);
      if pair.Some? {
        renamed := renamed + [pair.value];
      }
    }
    assert all[..|all|] == all;
    assert forall j :: 0 <= j < |all| ==> reg.assets[j] == AfterAutoFix(all)[j];
  }

  /** Every reported pair is (old name, prefix + cleaned old name) of a /Game
      record that needed renaming and whose rename succeeded, and the new
      name passes the naming audit. */
  lemma AutoFixPairs(rs: seq<Record>, pair: (string, string))
    requires pair in Pick(rs, RenameCheck)
    ensures exists i :: 0 <= i < |rs| && RenamedByFix(rs[i]) && pair == (rs[i].assetName, FixedName(rs[i]))
    ensures BadName(pair.1) == None
  {
    PickMember(rs, RenameCheck, pair);
    var i :| 0 <= i < |rs| && RenameCheck(rs[i]) == Some(pair);
    assert RenamedByFix(rs[i]) && pair == (rs[i].assetName, FixedName(rs[i]));
    FixedNamePassesAudit(NamingClass(rs[i]), rs[i].assetName);
  }

  /** After the fix a second run renames nothing more than what failed the
      first time: a record needs renaming afterwards exactly when it needed
      it before and its rename did not succeed. */
  lemma AutoFixRetriesOnlyFailures(rs: seq<Record>)
    ensures forall i :: 0 <= i < |rs| ==>
              (NeedsRename(AfterAutoFix(rs)[i]) <==> NeedsRename(rs[i]) && rs[i].rename != RenameOk)
  {
    forall i | 0 <= i < |rs|
      ensures NeedsRename(AfterAutoFix(rs)[i]) <==> NeedsRename(rs[i]) && rs[i].rename != RenameOk
    {
      var r := rs[i];
      if RenamedByFix(r) {
        var p := PrefixForClass(NamingClass(r));
        assert p <= p + CleanAssetName(r.assetName);
      }
    }
  }

  /** A second run of the naming fix over the renamed registry reports nothing. */
  lemma AutoFixIdempotent(rs: seq<Record>)
    ensures Pick(AfterAutoFix(rs), RenameCheck) == []
  {
    AutoFixRetriesOnlyFailures(rs);
    var after := AfterAutoFix(rs);
    forall i | 0 <= i < |after| ensures RenameCheck(after[i]).None? {
      assert after[i].rename == rs[i].rename;
    }
    PickEmpty(after, RenameCheck);
  }

  /** Every record the fix renamed stops raising a naming issue. */
  lemma AutoFixHealsNaming(rs: seq<Record>)
    ensures forall i :: 0 <= i < |rs| && RenamedByFix(rs[i]) ==> NamingCheck(AfterAutoFix(rs)[i]).None?
  {
    forall i | 0 <= i < |rs| && RenamedByFix(rs[i]) ensures NamingCheck(AfterAutoFix(rs)[i]).None? {
      FixedNamePassesAudit(NamingClass(rs[i]), rs[i].assetName);
    }
  }

  // ------------------------------------------------------------------
  // The audit report
  // ------------------------------------------------------------------

  /** The four sections of a project audit and the issue total. */
  datatype Report = Report(missing: seq<Issue>, naming: seq<Issue>, nanite: seq<Issue>, unused: seq<Issue>, total: nat)

  /** A /Game record the audit has nothing to say about. */
  predicate CleanRecord(r: Record)
  {
    InGame(r) ==>
      r.load == Loaded &&
      (|r.assetName| > 0 ==> BadName(r.assetName) == None) &&
      (IsStaticMesh(r) ==> r.nanite == NaniteOn) &&
      r.refs != Referencers([])
  }

  /** `on_audit`: the three passes in order, and the issue total. None when
      one of the passes raises. */
  method OnAudit(reg: Registry) returns (report: Option<Report>)
    ensures report.None? <==> NamingRaises(reg.assets) || LookupRaisesIn(reg.assets)
    ensures report.Some? ==>
              report.value.missing == Pick(reg.assets, MissingCheck) &&
              report.value.naming == Pick(reg.assets, NamingCheck) &&
              report.value.nanite == Pick(reg.assets, NaniteCheck) &&
              report.value.unused == Pick(GameAssets(reg.assets), UnusedCheck)
    ensures report.Some? ==>
              report.value.total == |report.value.missing| + |report.value.naming| + |report.value.nanite| + |report.value.unused|
    ensures report.Some? ==> (report.value.total == 0 <==> forall i :: 0 <= i < |reg.assets| ==> CleanRecord(reg.assets[i]))
  {
    var missing := FindMissingOrBrokenAssets(reg);
    var scan := AuditNamingAndNanite(reg);
    if scan.None? {
      return None;
    }
    var (namingIssues, naniteIssues) := scan.value;
    var unused := FindUnusedAssets(reg);
    if unused.None? {
      return None;
    }
    var total := |missing| + |namingIssues| + |naniteIssues| + |unused.value|;
    AuditCleanIff(reg.assets);
    report := Some(Report(missing, namingIssues, naniteIssues, unused.value, total));
  }

  /** All four sections are empty exactly when every record is clean. */
  lemma AuditCleanIff(rs: seq<Record>)
    ensures (Pick(rs, MissingCheck) == [] && Pick(rs, NamingCheck) == [] &&
             Pick(rs, NaniteCheck) == [] && Pick(GameAssets(rs), UnusedCheck) == [])
            <==> forall i :: 0 <= i < |rs| ==> CleanRecord(rs[i])
  {
    PickEmpty(rs, MissingCheck);
    PickEmpty(rs, NamingCheck);
    PickEmpty(rs, NaniteCheck);
    var game := GameAssets(rs);
    PickEmpty(game, UnusedCheck);
    forall i | 0 <= i < |rs| && InGame(rs[i])
      ensures rs[i] in game
    {
      GameAssetsMember(rs, rs[i]);
    }
    forall j | 0 <= j < |game|
      ensures exists i :: 0 <= i < |rs| && InGame(rs[i]) && rs[i] == game[j]
    {
      GameAssetsMember(rs, game[j]);
    }
  }

  /** A Nanite issue is reported for a path exactly when some /Game static
      mesh with that path loaded and its flag does not read as enabled. */
  lemma NaniteIssues(rs: seq<Record>, path: string)
    ensures Issue(path, NaniteDisabled) in Pick(rs, NaniteCheck) <==>
              exists i :: 0 <= i < |rs| && InGame(rs[i]) && IsStaticMesh(rs[i]) && rs[i].load == Loaded &&
                rs[i].nanite != NaniteOn && ObjectPath(rs[i]) == path
  {
    PickMember(rs, NaniteCheck, Issue(path, NaniteDisabled));
  }

  /** A static mesh whose flag cannot be read is reported, not passed over. */
  lemma NaniteReadFailureReported(rs: seq<Record>, i: nat)
    requires i < |rs| && InGame(rs[i]) && IsStaticMesh(rs[i]) && rs[i].load == Loaded && rs[i].nanite == ReadRaises
    ensures Issue(ObjectPath(rs[i]), NaniteDisabled) in Pick(rs, NaniteCheck)
  {
    PickMember(rs, NaniteCheck, Issue(ObjectPath(rs[i]), NaniteDisabled));
  }

  /** Every missing-asset issue names a /Game record that failed to load, and
      every such record is reported. */
  lemma MissingIssues(rs: seq<Record>, path: string)
    ensures Issue(path, LoadFailure) in Pick(rs, MissingCheck) <==>
              exists i :: 0 <= i < |rs| && InGame(rs[i]) && rs[i].load == LoadFails && ObjectPath(rs[i]) == path
  {
    PickMember(rs, MissingCheck, Issue(path, LoadFailure));
  }

  /** A naming issue with a given problem is reported for a path exactly
      when some /Game record with that path has a non-empty name in which the
      validator finds that problem. */
  lemma NamingIssues(rs: seq<Record>, path: string, problem: NameProblem)
    ensures Issue(path, BadNaming(problem)) in Pick(rs, NamingCheck) <==>
              exists i :: 0 <= i < |rs| && InGame(rs[i]) && |rs[i].assetName| > 0 &&
                BadName(rs[i].assetName) == Some(problem) && ObjectPath(rs[i]) == path
  {
    PickMember(rs, NamingCheck, Issue(path, BadNaming(problem)));
  }

  /** A /Game asset is reported unused exactly when its referencer list is empty. */
  lemma UnusedIssues(rs: seq<Record>, path: string)
    ensures Issue(path, Unused) in Pick(GameAssets(rs), UnusedCheck) <==>
              exists i :: 0 <= i < |rs| && InGame(rs[i]) && rs[i].refs == Referencers([]) && ObjectPath(rs[i]) == path
  {
    var game := GameAssets(rs);
    PickMember(game, UnusedCheck, Issue(path, Unused));
    forall i | 0 <= i < |rs| && InGame(rs[i])
      ensures rs[i] in game
    {
      GameAssetsMember(rs, rs[i]);
    }
    forall j | 0 <= j < |game|
      ensures exists i :: 0 <= i < |rs| && InGame(rs[i]) && rs[i] == game[j]
    {
      GameAssetsMember(rs, game[j]);
    }
  }
}
