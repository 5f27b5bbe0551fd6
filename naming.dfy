/** The pure naming helpers of the audit tool: object paths, the /Game
    filter, the naming-convention validator, the class-to-prefix table and
    the canonical-name cleaner. All of them are total functions on strings. */
module Naming {
  import opened Wrappers

  // ------------------------------------------------------------------
  // Characters (ASCII classes; the cleaner's regex is ASCII-only)
  // ------------------------------------------------------------------

  predicate IsUpper(c: char) { 'A' <= c <= 'Z' }
  predicate IsLower(c: char) { 'a' <= c <= 'z' }
  predicate IsDigit(c: char) { '0' <= c <= '9' }

  /** The class [A-Za-z0-9]. */
  predicate IsAlnum(c: char) { IsUpper(c) || IsLower(c) || IsDigit(c) }

  /** The class [A-Za-z0-9_]. */
  predicate IsWordChar(c: char) { IsAlnum(c) || c == '_' }

  /** ASCII lower-casing; every other character is its own lower case. */
  function Lower(c: char): (r: char)
    ensures IsUpper(c) ==> IsLower(r)
    ensures !IsUpper(c) ==> r == c
  {
    if IsUpper(c) then (c as int + 32) as char else c
  }

  /** ASCII upper-casing; every other character is its own upper case. */
  function Upper(c: char): (r: char)
    ensures IsLower(c) ==> IsUpper(r)
    ensures !IsLower(c) ==> r == c
  {
    if IsLower(c) then (c as int - 32) as char else c
  }

  /** Lower-casing forgets whether a character was upper- or lower-cased first. */
  lemma LowerIgnoresCase(c: char)
    ensures Lower(Upper(c)) == Lower(c) && Lower(Lower(c)) == Lower(c)
  {
  }

  // ------------------------------------------------------------------
  // Substrings
  // ------------------------------------------------------------------

  /** `sub in s` on Python strings: `sub` occurs somewhere in `s`. */
  predicate Contains(s: string, sub: string)
    decreases |s|
  {
    sub <= s || (|s| > 0 && Contains(s[1..], sub))
  }

  /** Whatever contains a string also contains every prefix of it. */
  lemma {:induction false} ContainsPrefixOf(s: string, sub: string, pre: string)
    ensures pre <= sub && Contains(s, sub) ==> Contains(s, pre)
    decreases |s|
  {
    if pre <= sub && Contains(s, sub) {
      if sub <= s {
        assert s[..|pre|] == sub[..|pre|];
      } else {
        ContainsPrefixOf(s[1..], sub, pre);
      }
    }
  }

  // ------------------------------------------------------------------
  // Object paths and the /Game filter
  // ------------------------------------------------------------------

  /** The object path "<package>.<asset>" used to load an asset. */
  function BuildObjectPath(packageName: string, assetName: string): (r: string)
    ensures |r| == |packageName| + 1 + |assetName|
    ensures r[..|packageName|] == packageName && r[|packageName|] == '.'
    ensures r[|packageName| + 1..] == assetName
  {
    packageName + "." + assetName
  }

  /** Position of the last '.' in `p`, if any. */
  function LastDot(p: string): (r: Option<nat>)
    ensures r.Some? ==> r.value < |p| && p[r.value] == '.'
    ensures r.Some? ==> forall j :: r.value < j < |p| ==> p[j] != '.'
    ensures r.None? ==> '.' !in p
  {
    if p == [] then None
    else if p[|p| - 1] == '.' then Some(|p| - 1)
    else
      var r := LastDot(p[..|p| - 1]);
      assert r.None? ==> forall j :: 0 <= j < |p| ==> p[j] != '.' by {
        if r.None? {
          forall j | 0 <= j < |p| ensures p[j] != '.' {
            if j < |p| - 1 { assert p[j] == p[..|p| - 1][j]; }
          }
        }
      }
      r
  }

  /** The inverse of BuildObjectPath: split an object path at its last '.'. */
  function SplitObjectPath(p: string): (r: Option<(string, string)>)
    ensures r.Some? ==> BuildObjectPath(r.value.0, r.value.1) == p && '.' !in r.value.1
    ensures r.None? ==> '.' !in p
  {
    match LastDot(p)
    case None => None
    case Some(k) =>
      var tail := p[k + 1..];
      assert p[..k] + "." + tail == p;
      assert forall j :: 0 <= j < |tail| ==> tail[j] == p[k + 1 + j];
      Some((p[..k], tail))
  }

  /** Asset names carry no '.', so the object path determines the package
      and the asset name. */
  lemma SplitBuildObjectPath(packageName: string, assetName: string)
    requires '.' !in assetName
    ensures SplitObjectPath(BuildObjectPath(packageName, assetName)) == Some((packageName, assetName))
  {
    var p := BuildObjectPath(packageName, assetName);
    var k := |packageName|;
    assert p[k] == '.';
    forall j | k < j < |p| ensures p[j] != '.' {
      assert p[j] == assetName[j - k - 1];
    }
    assert p[..k] == packageName;
    assert p[k + 1..] == assetName;
  }

  /** Distinct (package, asset) pairs give distinct object paths. */
  lemma BuildObjectPathInjective(pkg1: string, name1: string, pkg2: string, name2: string)
    requires '.' !in name1 && '.' !in name2
    requires BuildObjectPath(pkg1, name1) == BuildObjectPath(pkg2, name2)
    ensures pkg1 == pkg2 && name1 == name2
  {
    SplitBuildObjectPath(pkg1, name1);
    SplitBuildObjectPath(pkg2, name2);
  }

  /** `str(package_name).startswith("/Game")`. */
  predicate IsUnderGame(packageName: string): (r: bool)
    ensures r <==> |packageName| >= 5 && packageName[..5] == "/Game"
  {
    "/Game" <= packageName
  }

  /** The filter is a plain string-prefix test, not a path-segment test:
      "/GameplayX" passes it, while "/Engine/..." and "/game" do not. */
  lemma GameFilterIsPrefixTest()
    ensures IsUnderGame("/Game") && IsUnderGame("/Game/Maps/Arena") && IsUnderGame("/GameplayX")
    ensures !IsUnderGame("/Engine/BasicShapes") && !IsUnderGame("/game/Maps") && !IsUnderGame("/Gam")
  {
    assert "/GameplayX"[..5] == "/Game";
    assert "/Game/Maps/Arena"[..5] == "/Game";
    assert "/Engine/BasicShapes"[1] != "/Game"[1];
    assert "/game/Maps"[1] != "/Game"[1];
  }

  // ------------------------------------------------------------------
  // The naming-convention validator
  // ------------------------------------------------------------------

  /** The reasons the validator reports, in the order it tests them. */
  datatype NameProblem = ContainsSpaces | PlaceholderName | StartsLowercase

  predicate IsPlaceholder(name: string)
  {
    "New" <= name || "Untitled" <= name
  }

  /** The first of three naming violations that applies, or None. The first
      character counts as lower case when lower-casing leaves it unchanged,
      so a leading digit or '_' is reported as "starts lowercase". */
  function BadName(name: string): (r: Option<NameProblem>)
    requires |name| > 0
    ensures r == Some(ContainsSpaces) <==> ' ' in name
    ensures r == Some(PlaceholderName) <==> ' ' !in name && IsPlaceholder(name)
    ensures r == Some(StartsLowercase) <==> ' ' !in name && !IsPlaceholder(name) && !IsUpper(name[0])
    ensures r == None <==> ' ' !in name && !IsPlaceholder(name) && IsUpper(name[0])
    ensures ((IsDigit(name[0]) || name[0] == '_') && ' ' !in name && !IsPlaceholder(name))
              ==> r == Some(StartsLowercase)
  {
    if ' ' in name then Some(ContainsSpaces)
    else if IsPlaceholder(name) then Some(PlaceholderName)
    else if Lower(name[0]) == name[0] then Some(StartsLowercase)
    else None
  }

  // ------------------------------------------------------------------
  // The class-to-prefix table
  // ------------------------------------------------------------------

  /** Every prefix the table can produce. */
  const Prefixes: set<string> := {"SM_", "MI_", "M_", "T_", "BP_", "S_", "A_"}

  /** The naming prefix of an asset class. The class is matched by substring
      in a fixed order, most specific first, and "A_" is the fallback. */
  function PrefixForClass(assetClass: string): (r: string)
    ensures r in Prefixes
    ensures |r| >= 2 && r[|r| - 1] == '_' && IsUpper(r[0]) && ' ' !in r
    ensures r == "SM_" <==> Contains(assetClass, "StaticMesh")
    ensures Contains(assetClass, "MaterialInstance") ==> r != "M_"
    ensures Contains(assetClass, "MaterialInstance") && !Contains(assetClass, "StaticMesh") ==> r == "MI_"
    ensures r == "A_" <==>
              !Contains(assetClass, "StaticMesh") && !Contains(assetClass, "Material") &&
              !Contains(assetClass, "Texture") && !Contains(assetClass, "Blueprint") &&
              !Contains(assetClass, "Sound")
  {
    ContainsPrefixOf(assetClass, "MaterialInstance", "Material");
    if Contains(assetClass, "StaticMesh") then "SM_"
    else if Contains(assetClass, "MaterialInstance") then "MI_"
    else if Contains(assetClass, "Material") then "M_"
    else if Contains(assetClass, "Texture") then "T_"
    else if Contains(assetClass, "Blueprint") then "BP_"
    else if Contains(assetClass, "Sound") then "S_"
    else "A_"
  }

  /** Every class that mentions "MaterialInstance" also mentions "Material":
      were the "Material" test first, no asset would ever get "MI_". */
  lemma MaterialInstanceIsMaterial(assetClass: string)
    requires Contains(assetClass, "MaterialInstance")
    ensures Contains(assetClass, "Material")
  {
    ContainsPrefixOf(assetClass, "MaterialInstance", "Material");
  }

  // ------------------------------------------------------------------
  // The canonical-name cleaner
  // ------------------------------------------------------------------

  predicate AllWordChars(s: string) { forall i :: 0 <= i < |s| ==> IsWordChar(s[i]) }

  predicate NoUnderscore(s: string) { forall i :: 0 <= i < |s| ==> s[i] != '_' }

  /** A non-empty run of [A-Za-z0-9]. */
  predicate IsWord(w: string) { |w| > 0 && forall i :: 0 <= i < |w| ==> IsAlnum(w[i]) }

  /** Only [A-Za-z0-9_], no leading, trailing or doubled underscore. */
  predicate WellFormedName(s: string)
  {
    AllWordChars(s) &&
    (|s| > 0 ==> s[0] != '_' && s[|s| - 1] != '_') &&
    forall i :: 0 <= i < |s| - 1 ==> !(s[i] == '_' && s[i + 1] == '_')
  }

  /** First character not lower case, every later one not upper case. */
  predicate IsCapitalized(w: string)
  {
    |w| > 0 && !IsLower(w[0]) && forall i :: 1 <= i < |w| ==> !IsUpper(w[i])
  }

  /** `re.sub(r"[^A-Za-z0-9_]", "_", s)`. */
  function Sanitize(s: string): (r: string)
    ensures |r| == |s| && AllWordChars(r)
    ensures forall i :: 0 <= i < |s| && IsWordChar(s[i]) ==> r[i] == s[i]
    ensures forall i :: 0 <= i < |s| && !IsWordChar(s[i]) ==> r[i] == '_'
  {
    seq(|s|, i requires 0 <= i < |s| => if IsWordChar(s[i]) then s[i] else '_')
  }

  /** `s.replace(" ", "_")`. */
  function ReplaceSpaces(s: string): (r: string)
    ensures |r| == |s| && ' ' !in r
    ensures ' ' !in s ==> r == s
  {
    seq(|s|, i requires 0 <= i < |s| => if s[i] == ' ' then '_' else s[i])
  }

  /** Length of the leading run of characters other than '_'. */
  function RunLength(s: string): (k: nat)
    ensures k <= |s|
    ensures forall i :: 0 <= i < k ==> s[i] != '_'
    ensures k < |s| ==> s[k] == '_'
  {
    if s == [] || s[0] == '_' then 0 else 1 + RunLength(s[1..])
  }

  /** The non-empty pieces of `s.split("_")`, in order. */
  function Words(s: string): (ws: seq<string>)
    ensures forall w :: w in ws ==> |w| > 0 && NoUnderscore(w)
    ensures AllWordChars(s) ==> forall w :: w in ws ==> IsWord(w)
    decreases |s|
  {
    if s == [] then []
    else if s[0] == '_' then Words(s[1..])
    else
      var k := RunLength(s);
      [s[..k]] + Words(s[k..])
  }

  /** `"_".join(ws)`. */
  function Join(ws: seq<string>): (r: string)
    ensures (forall w :: w in ws ==> IsWord(w)) ==> WellFormedName(r) && (|ws| > 0 ==> |r| > 0)
  {
    if ws == [] then ""
    else if |ws| == 1 then
      assert ws[0] in ws;
      ws[0]
    else
      var w, rest := ws[0], Join(ws[1..]);
      var r := w + "_" + rest;
      assert (forall w :: w in ws ==> IsWord(w)) ==> WellFormedName(r) by {
        if forall w :: w in ws ==> IsWord(w) {
          assert IsWord(w) && ws[1] in ws[1..];
          forall i | |w| < i < |r| ensures r[i] == rest[i - |w| - 1] { }
        }
      }
      r
  }

  /** `w.capitalize()` on ASCII: first character upper case, the rest lower case. */
  function Capitalize(w: string): (r: string)
    ensures |r| == |w|
    ensures IsWord(w) ==> IsWord(r) && IsCapitalized(r)
    ensures IsCapitalized(w) ==> r == w
    ensures forall i :: 0 <= i < |w| ==> Lower(r[i]) == Lower(w[i])
  {
    var r := seq(|w|, i requires 0 <= i < |w| => if i == 0 then Upper(w[0]) else Lower(w[i]));
    assert forall i :: 0 <= i < |w| ==> Lower(r[i]) == Lower(w[i]) by {
      forall i | 0 <= i < |w| ensures Lower(r[i]) == Lower(w[i]) { LowerIgnoresCase(w[i]); }
    }
    r
  }

  function CapitalizeAll(ws: seq<string>): (r: seq<string>)
    ensures |r| == |ws|
    ensures forall i :: 0 <= i < |ws| ==> r[i] == Capitalize(ws[i])
  {
    seq(|ws|, i requires 0 <= i < |ws| => Capitalize(ws[i]))
  }

  /** The canonical spelling of an asset name: every character outside
      [A-Za-z0-9_] becomes '_', the name is cut at underscores, empty pieces
      are dropped and the rest are capitalised and rejoined with '_'. */
  function CleanAssetName(name: string): (r: string)
    ensures WellFormedName(r)
  {
    var ws := Words(ReplaceSpaces(Sanitize(name)));
    Join(CapitalizeAll(ws))
  }

  // ------------------------------------------------------------------
  // Properties of the cleaner
  // ------------------------------------------------------------------

  /** The leading run of `w + t` is `w` when `w` has no '_' and `t` is empty
      or starts with one. */
  lemma RunLengthOfWord(w: string, t: string)
    requires NoUnderscore(w)
    requires t == [] || t[0] == '_'
    ensures RunLength(w + t) == |w|
  {
    var s := w + t;
    assert forall i :: 0 <= i < |w| ==> s[i] == w[i];
    assert |t| > 0 ==> s[|w|] == '_';
  }

  /** A word followed by nothing or by a '_' is the first word. */
  lemma WordsOfWordThen(w: string, t: string)
    requires |w| > 0 && NoUnderscore(w)
    requires t == [] || t[0] == '_'
    ensures Words(w + t) == [w] + Words(t)
  {
    var s := w + t;
    RunLengthOfWord(w, t);
    assert s[..|w|] == w;
    assert s[|w|..] == t;
  }

  /** A leading '_' starts no word. */
  lemma WordsSkipUnderscore(t: string)
    ensures Words("_" + t) == Words(t)
  {
    assert ("_" + t)[1..] == t;
  }

  lemma WordsOfJoinOne(w: string)
    requires |w| > 0 && NoUnderscore(w)
    ensures Words(Join([w])) == [w]
  {
    WordsOfWordThen(w, []);
    assert w + [] == w;
  }

  lemma WordsOfJoinCons(w: string, rest: seq<string>)
    requires |w| > 0 && NoUnderscore(w) && rest != []
    requires Words(Join(rest)) == rest
    ensures Words(Join([w] + rest)) == [w] + rest
  {
    var ws := [w] + rest;
    assert ws[0] == w && ws[1..] == rest;
    var tail := "_" + Join(rest);
    assert Join(ws) == w + tail;
    WordsOfWordThen(w, tail);
    WordsSkipUnderscore(Join(rest));
  }

  /** Splitting a join gives back the words, as long as none of them is
      empty or holds a '_'. */
  lemma {:induction false} WordsOfJoin(ws: seq<string>)
    requires forall w :: w in ws ==> |w| > 0 && NoUnderscore(w)
    ensures Words(Join(ws)) == ws
    decreases |ws|
  {
    if ws == [] {
    } else if |ws| == 1 {
      assert ws[0] in ws;
      WordsOfJoinOne(ws[0]);
      assert ws == [ws[0]];
    } else {
      var w, rest := ws[0], ws[1..];
      assert w in ws;
      assert forall x :: x in rest ==> x in ws;
      WordsOfJoin(rest);
      WordsOfJoinCons(w, rest);
      assert ws == [w] + rest;
    }
  }

  /** A cleaned name holds no space. */
  lemma CleanAssetNameNoSpace(name: string)
    ensures ' ' !in CleanAssetName(name)
  {
    var c := CleanAssetName(name);
    forall i | 0 <= i < |c| ensures c[i] != ' ' { assert IsWordChar(c[i]); }
  }

  /** Capitalising alphanumeric words gives capitalised alphanumeric words. */
  lemma CapitalizeAllWords(ws: seq<string>)
    requires forall w :: w in ws ==> IsWord(w)
    ensures forall w :: w in CapitalizeAll(ws) ==> IsWord(w) && IsCapitalized(w) && NoUnderscore(w)
  {
    var cs := CapitalizeAll(ws);
    forall w | w in cs ensures IsWord(w) && IsCapitalized(w) && NoUnderscore(w) {
      var i :| 0 <= i < |cs| && cs[i] == w;
      assert ws[i] in ws;
    }
  }

  lemma SanitizeFixed(s: string)
    requires AllWordChars(s)
    ensures Sanitize(s) == s
  {
  }

  /** The cleaned name is the join of the capitalised words of the
      sanitised input. */
  lemma CleanAssetNameIsJoin(name: string)
    ensures CleanAssetName(name) == Join(CapitalizeAll(Words(Sanitize(name))))
  {
    var s := Sanitize(name);
    assert ' ' !in s by {
      forall i | 0 <= i < |s| ensures s[i] != ' ' { assert IsWordChar(s[i]); }
    }
  }

  /** The words of a cleaned name are the capitalised words of the input,
      where every character outside [A-Za-z0-9_] separates words. */
  lemma CleanAssetNameWords(name: string)
    ensures Words(CleanAssetName(name)) == CapitalizeAll(Words(Sanitize(name)))
    ensures forall w :: w in Words(CleanAssetName(name)) ==> IsWord(w) && IsCapitalized(w)
  {
    var s := Sanitize(name);
    var cs := CapitalizeAll(Words(s));
    CleanAssetNameIsJoin(name);
    CapitalizeAllWords(Words(s));
    WordsOfJoin(cs);
  }

  /** Capitalising already capitalised words changes nothing. */
  lemma CapitalizeAllFixed(ws: seq<string>)
    requires forall w :: w in ws ==> IsCapitalized(w)
    ensures CapitalizeAll(ws) == ws
  {
    forall i | 0 <= i < |ws| ensures Capitalize(ws[i]) == ws[i] {
      assert ws[i] in ws;
    }
  }

  /** Cleaning a cleaned name changes nothing. */
  lemma CleanAssetNameIdempotent(name: string)
    ensures CleanAssetName(CleanAssetName(name)) == CleanAssetName(name)
  {
    var c := CleanAssetName(name);
    var cs := CapitalizeAll(Words(Sanitize(name)));
    CleanAssetNameIsJoin(name);
    assert c == Join(cs);
    CleanAssetNameWords(name);
    assert Words(c) == cs;
    SanitizeFixed(c);
    CleanAssetNameIsJoin(c);
    assert CleanAssetName(c) == Join(CapitalizeAll(cs));
    CapitalizeAllFixed(cs);
  }

  /** No prefix of the table starts a placeholder word. */
  lemma PrefixStartsNoPlaceholder(p: string)
    requires p in Prefixes
    ensures |p| > 0 && p[0] != 'N' && p[0] != 'U'
  {
  }

  lemma NotPlaceholder(n: string)
    requires |n| > 0 && n[0] != 'N' && n[0] != 'U'
    ensures !IsPlaceholder(n)
  {
    assert "New"[0] == 'N' && "Untitled"[0] == 'U';
  }

  lemma NoSpaceConcat(a: string, b: string)
    requires ' ' !in a && ' ' !in b
    ensures ' ' !in a + b
  {
    forall i | 0 <= i < |a + b| ensures (a + b)[i] != ' ' {
      if i < |a| { assert (a + b)[i] == a[i]; } else { assert (a + b)[i] == b[i - |a|]; }
    }
  }

  /** The name the auto-fixer gives an asset passes the naming audit. */
  lemma FixedNamePassesAudit(assetClass: string, name: string)
    ensures |PrefixForClass(assetClass) + CleanAssetName(name)| > 0
    ensures BadName(PrefixForClass(assetClass) + CleanAssetName(name)) == None
  {
    var p, c := PrefixForClass(assetClass), CleanAssetName(name);
    var n := p + c;
    assert n[0] == p[0];
    CleanAssetNameNoSpace(name);
    NoSpaceConcat(p, c);
    PrefixStartsNoPlaceholder(p);
    NotPlaceholder(n);
  }
}
