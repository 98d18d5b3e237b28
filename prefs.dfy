/** Locating the data directories: `get_user_prefs` picks a profile from the
    parsed `profiles.ini`, and `get_path_pref` reads one setting from the
    lines of that profile's `prefs.js`. */
module Prefs {
  import opened Common

  /** One parsed section of `profiles.ini`: its name and its options. */
  datatype Section = Section(name: string, options: map<string, string>)

  datatype PrefsError =
    | NoProfiles              // no section has a `path` option
    | NoSuchProfile(name: string)
    | NoMatch(line: string)   // the value pattern did not match a line naming the setting

  predicate IsProfile(s: Section) {
    "path" in s.options
  }

  predicate HasName(s: Section, p: string) {
    "name" in s.options && s.options["name"] == p
  }

  predicate IsDefault(s: Section) {
    "default" in s.options && s.options["default"] == "1"
  }

  /** `config_dir / "zotero" / path / "prefs.js"`. */
  function PrefsFile(configDir: string, s: Section): string
    requires IsProfile(s)
  {
    Join(Join(Join(configDir, "zotero"), s.options["path"]), "prefs.js")
  }

  /** The sections that have a `path` option, in file order. */
  function Profiles(sections: seq<Section>): (ps: seq<Section>)
    ensures |ps| <= |sections|
    ensures forall s :: s in ps <==> s in sections && IsProfile(s)
  {
    if sections == [] then []
    else (if IsProfile(sections[0]) then [sections[0]] else []) + Profiles(sections[1..])
  }

  /** Position `i` of the profiles `ps` is the one `get_user_prefs` returns:
      the first with the requested name; without a name, the first marked
      default, or failing that the first profile. */
  ghost predicate Chosen(ps: seq<Section>, profile: Option<string>, i: int) {
    0 <= i < |ps| &&
    match profile
    case Some(p) => HasName(ps[i], p) && forall j :: 0 <= j < i ==> !HasName(ps[j], p)
    case None =>
      if exists j :: 0 <= j < |ps| && IsDefault(ps[j]) then
        IsDefault(ps[i]) && forall j :: 0 <= j < i ==> !IsDefault(ps[j])
      else i == 0
  }

  /** At most one position is chosen. */
  lemma ChosenIsUnique(ps: seq<Section>, profile: Option<string>, i: int, j: int)
    requires Chosen(ps, profile, i) && Chosen(ps, profile, j)
    ensures i == j
  {
  }

  /** Without a profile name a choice always exists once there is a profile. */
  lemma NoNameAlwaysChooses(ps: seq<Section>)
    requires |ps| > 0
    ensures exists i :: Chosen(ps, None, i)
  {
    if exists j :: 0 <= j < |ps| && IsDefault(ps[j]) {
      var i := FirstDefault(ps);
      assert Chosen(ps, None, i);
    } else {
      assert Chosen(ps, None, 0);
    }
  }

  /** The first profile marked default. */
  ghost function FirstDefault(ps: seq<Section>): (i: nat)
    requires exists j :: 0 <= j < |ps| && IsDefault(ps[j])
    ensures i < |ps| && IsDefault(ps[i])
    ensures forall j :: 0 <= j < i ==> !IsDefault(ps[j])
  {
    if IsDefault(ps[0]) then 0
    else
      assert exists j :: 0 <= j < |ps[1..]| && IsDefault(ps[1..][j]) by {
        var j :| 0 <= j < |ps| && IsDefault(ps[j]);
        assert ps[1..][j - 1] == ps[j];
      }
      1 + FirstDefault(ps[1..])
  }

  /** Which profile `get_user_prefs` looks for. */
  datatype Want = ByName(p: string) | ByDefault | AnyProfile

  predicate Wants(w: Want, s: Section) {
    match w
    case ByName(p) => HasName(s, p)
    case ByDefault => IsDefault(s)
    case AnyProfile => true
  }

  /** Section `j` is the first profile in the file that `w` accepts. */
  ghost predicate FirstWanted(sections: seq<Section>, j: int, w: Want) {
    && 0 <= j < |sections| && IsProfile(sections[j]) && Wants(w, sections[j])
    && forall l :: 0 <= l < j ==> !(IsProfile(sections[l]) && Wants(w, sections[l]))
  }

  /** What a profile name, or its absence, asks for in the file. */
  ghost function WantOf(sections: seq<Section>, profile: Option<string>): Want {
    if profile.Some? then ByName(profile.value)
    else if exists j :: 0 <= j < |sections| && IsProfile(sections[j]) && IsDefault(sections[j]) then ByDefault
    else AnyProfile
  }

  /** A first accepted section stays first when a section `w` does not
      accept is put in front. */
  lemma FirstWantedShift(sections: seq<Section>, j: int, w: Want)
    requires sections != [] && FirstWanted(sections[1..], j, w)
    requires !(IsProfile(sections[0]) && Wants(w, sections[0]))
    ensures FirstWanted(sections, j + 1, w) && sections[j + 1] == sections[1..][j]
  {
    assert forall l :: 1 <= l < j + 1 ==> sections[l] == sections[1..][l - 1];
  }

  /** The first accepted entry of `Profiles(sections)` is the first accepted
      profile section of the file. */
  lemma {:induction false} FirstInProfiles(sections: seq<Section>, w: Want, i: nat)
    requires i < |Profiles(sections)| && Wants(w, Profiles(sections)[i])
    requires forall k :: 0 <= k < i ==> !Wants(w, Profiles(sections)[k])
    ensures exists j :: FirstWanted(sections, j, w) && sections[j] == Profiles(sections)[i]
  {
    var s0, rest := sections[0], sections[1..];
    var ps, pr := Profiles(sections), Profiles(rest);
    var i' := if IsProfile(s0) then i - 1 else i;
    if IsProfile(s0) && i == 0 {
      assert ps[0] == s0;
      assert FirstWanted(sections, 0, w);
    } else {
      assert i' < |pr| && pr[i'] == ps[i] && !(IsProfile(s0) && Wants(w, s0))
        && forall k :: 0 <= k < i' ==> !Wants(w, pr[k]) by {
        if IsProfile(s0) {
          assert ps == [s0] + pr;
          assert ps[0] == s0 && !Wants(w, ps[0]);
          forall k | 0 <= k < i' ensures !Wants(w, pr[k]) {
            assert pr[k] == ps[k + 1];
          }
        } else {
          assert ps == pr;
        }
      }
      FirstInProfiles(rest, w, i');
      var j :| FirstWanted(rest, j, w) && rest[j] == pr[i'];
      FirstWantedShift(sections, j, w);
    }
  }

  /** The chosen profile, read back in the file: the first profile section
      with the requested name; without a name, the first profile section
      marked default, or failing that the first profile section. */
  lemma ChosenIsFirstInFile(sections: seq<Section>, profile: Option<string>, i: int)
    requires Chosen(Profiles(sections), profile, i)
    ensures exists j :: FirstWanted(sections, j, WantOf(sections, profile)) && sections[j] == Profiles(sections)[i]
  {
    var ps := Profiles(sections);
    var w := WantOf(sections, profile);
    assert (exists j :: 0 <= j < |ps| && IsDefault(ps[j])) <==>
           (exists j :: 0 <= j < |sections| && IsProfile(sections[j]) && IsDefault(sections[j])) by {
      if exists j :: 0 <= j < |ps| && IsDefault(ps[j]) {
        var j :| 0 <= j < |ps| && IsDefault(ps[j]);
        assert ps[j] in sections;
      }
      if exists j :: 0 <= j < |sections| && IsProfile(sections[j]) && IsDefault(sections[j]) {
        var j :| 0 <= j < |sections| && IsProfile(sections[j]) && IsDefault(sections[j]);
        assert sections[j] in ps;
      }
    }
    FirstInProfiles(sections, w, i);
  }

  /** `get_user_prefs` on the parsed sections of `profiles.ini`. */
  method UserPrefs(configDir: string, sections: seq<Section>, profile: Option<string>)
    returns (r: Result<string, PrefsError>)
    ensures var ps := Profiles(sections);
      && (ps == [] ==> r == Err(NoProfiles))
      && (ps != [] ==> (r.Ok? <==> exists i :: Chosen(ps, profile, i)))
      && (ps != [] && r.Err? ==> profile.Some? && r == Err(NoSuchProfile(profile.value)))
      && (r.Ok? ==> exists i :: Chosen(ps, profile, i) && r.value == PrefsFile(configDir, ps[i]))
  {
    var ps := Profiles(sections);
    if |ps| == 0 {
      return Err(NoProfiles);
    }
    assert forall s :: s in ps ==> IsProfile(s);
    if profile.Some? {
      var p := profile.value;
      for i := 0 to |ps|
        invariant forall j :: 0 <= j < i ==> !HasName(ps[j], p)
      {
        if HasName(ps[i], p) {
          assert Chosen(ps, profile, i);
          return Ok(PrefsFile(configDir, ps[i]));
        }
      }
      return Err(NoSuchProfile(p));
    }
    for i := 0 to |ps|
      invariant forall j :: 0 <= j < i ==> !IsDefault(ps[j])
    {
      if IsDefault(ps[i]) {
        assert Chosen(ps, profile, i);
        return Ok(PrefsFile(configDir, ps[i]));
      }
    }
    assert Chosen(ps, profile, 0);
    return Ok(PrefsFile(configDir, ps[0]));
  }

  /** `get_path_pref` on the lines of `prefs.js`: every line that mentions the
      setting overwrites the result with the value `extract` finds in it, so
      the last such line wins; no such line gives `None`. `extract` stands for
      the regular expression `,.*"(.*)"`, and `None` from it for a failed
      match, on which the script stops with an exception. */
  method PathPref(lines: seq<string>, preference: string, extract: string -> Option<string>)
    returns (r: Result<Option<string>, PrefsError>)
    ensures r.Err? <==> exists i :: 0 <= i < |lines| && Contains(lines[i], preference) && extract(lines[i]).None?
    ensures r == Ok(None) <==> forall i :: 0 <= i < |lines| ==> !Contains(lines[i], preference)
    ensures r.Ok? && r.value.Some? ==>
      exists i :: 0 <= i < |lines| && Contains(lines[i], preference) && extract(lines[i]) == r.value
        && forall j :: i < j < |lines| ==> !Contains(lines[j], preference)
  {
    var dataPath: Option<string> := None;
    ghost var last := -1;
    for i := 0 to |lines|
      invariant -1 <= last < i
      invariant forall j :: 0 <= j < i && Contains(lines[j], preference) ==> extract(lines[j]).Some?
      invariant last == -1 <==> forall j :: 0 <= j < i ==> !Contains(lines[j], preference)
      invariant last >= 0 ==> Contains(lines[last], preference) && extract(lines[last]) == dataPath
      invariant last >= 0 ==> forall j :: last < j < i ==> !Contains(lines[j], preference)
      invariant dataPath.None? <==> last == -1
    {
      if Contains(lines[i], preference) {
        var found := extract(lines[i]);
        if found.None? {
          return Err(NoMatch(lines[i]));
        }
        dataPath := found;
        last := i;
      }
    }
    return Ok(dataPath);
  }
}
