/** `detectVersion` (build/build.go): derive the project's version string and the
    Go version from the binary's embedded build information. */
module Build {
  import opened Wrappers

  const Unknown := "unknown"
  const DevRevision := "dev"
  const DirtySuffix := "-dirty"
  const RevisionKey := "vcs.revision"
  const ModifiedKey := "vcs.modified"

  /** How many characters of the commit hash the version keeps. */
  const RevisionLength := 10

  /** One `debug.BuildSetting`. */
  datatype Setting = Setting(key: string, value: string)

  /** The part of `debug.BuildInfo` the version is derived from. */
  datatype BuildInfo = BuildInfo(goVersion: string, settings: seq<Setting>)

  /** The value of the last setting named `key`, the one a loop that keeps
      overwriting ends with. */
  function LastValue(settings: seq<Setting>, key: string): (r: Option<string>)
    decreases |settings|
  {
    if settings == [] then None
    else if settings[|settings| - 1].key == key then Some(settings[|settings| - 1].value)
    else LastValue(settings[..|settings| - 1], key)
  }

  /** `LastValue` finds a setting named `key` that no later setting overrides, and
      finds nothing exactly when no setting has that name. */
  lemma {:induction false} LastValueIsLast(settings: seq<Setting>, key: string, v: string)
    ensures LastValue(settings, key) == Some(v) <==>
      exists i :: 0 <= i < |settings| && settings[i] == Setting(key, v) &&
        forall j :: i < j < |settings| ==> settings[j].key != key
    ensures LastValue(settings, key).None? <==> forall i :: 0 <= i < |settings| ==> settings[i].key != key
    decreases |settings|
  {
    if settings != [] {
      var n := |settings| - 1;
      var init := settings[..n];
      LastValueIsLast(init, key, v);
      assert forall i :: 0 <= i < n ==> init[i] == settings[i];
      if settings[n].key == key {
        if settings[n].value == v {
          assert settings[n] == Setting(key, v);
        } else {
          forall i | 0 <= i < |settings| && settings[i] == Setting(key, v)
            ensures exists j :: i < j < |settings| && settings[j].key == key
          {
            assert i < n && settings[n].key == key;
          }
        }
      } else {
        if exists i :: 0 <= i < |settings| && settings[i] == Setting(key, v) &&
            forall j :: i < j < |settings| ==> settings[j].key != key {
          var i :| 0 <= i < |settings| && settings[i] == Setting(key, v) &&
            forall j :: i < j < |settings| ==> settings[j].key != key;
          assert i < n;
          assert forall j :: i < j < n ==> init[j].key != key;
        }
      }
    }
  }

  /** The source slices every `vcs.revision` value to ten characters, which
      panics on a shorter one. */
  predicate RevisionsSliceable(settings: seq<Setting>) {
    forall i :: 0 <= i < |settings| && settings[i].key == RevisionKey ==> |settings[i].value| >= RevisionLength
  }

  /** `rev` after the loop: "dev", or the first ten characters of the last revision. */
  function Revision(settings: seq<Setting>): (rev: string)
    requires RevisionsSliceable(settings)
    ensures LastValue(settings, RevisionKey).None? ==> rev == DevRevision
    ensures LastValue(settings, RevisionKey).Some? ==>
      |rev| == RevisionLength && rev <= LastValue(settings, RevisionKey).value
  {
    match LastValue(settings, RevisionKey)
    case None => DevRevision
    case Some(v) =>
      assert |v| >= RevisionLength by {
        LastValueIsLast(settings, RevisionKey, v);
      }
      v[..RevisionLength]
  }

  /** `modified` after the loop: whether the last `vcs.modified` value is exactly "true". */
  function Modified(settings: seq<Setting>): (dirty: bool)
    // dirty exactly when the last `vcs.modified` setting says exactly "true"
    ensures dirty <==>
      exists i :: 0 <= i < |settings| && settings[i] == Setting(ModifiedKey, "true") &&
        forall j :: i < j < |settings| ==> settings[j].key != ModifiedKey
  {
    LastValueIsLast(settings, ModifiedKey, "true");
    LastValue(settings, ModifiedKey) == Some("true")
  }

  /** `(DetectedVersion, GoVersion)` after `detectVersion`, given what
      `debug.ReadBuildInfo` returns and the static version injected at build time. */
  function Versions(info: Option<BuildInfo>, injected: string): (r: (string, string))
    requires info.Some? && injected == "" ==> RevisionsSliceable(info.value.settings)
    // without build information both stay "unknown"
    ensures info.None? ==> r == (Unknown, Unknown)
    // with it, the Go version is always reported
    ensures info.Some? ==> r.1 == info.value.goVersion
    // an injected static version wins over the settings
    ensures info.Some? && injected != "" ==> r.0 == injected
    // otherwise: the revision, marked dirty exactly when the tree was modified
    ensures info.Some? && injected == "" ==>
      var rev := Revision(info.value.settings);
      r.0 == if Modified(info.value.settings) then rev + DirtySuffix else rev
  {
    match info
    case None => (Unknown, Unknown)
    case Some(bi) =>
      if injected != "" then (injected, bi.goVersion)
      else
        var rev := Revision(bi.settings);
        (if Modified(bi.settings) then rev + DirtySuffix else rev, bi.goVersion)
  }

  /** A version derived from the settings is "dev" or a ten-character hash
      prefix, with "-dirty" appended exactly when the last `vcs.modified` is "true". */
  lemma DerivedVersionShape(info: BuildInfo)
    requires RevisionsSliceable(info.settings)
    ensures var v := Versions(Some(info), "").0;
      var dirty := Modified(info.settings);
      && (dirty <==> |v| >= |DirtySuffix| && v[|v| - |DirtySuffix|..] == DirtySuffix &&
                      (v == DevRevision + DirtySuffix || |v| == RevisionLength + |DirtySuffix|))
      && (v[..|v| - (if dirty then |DirtySuffix| else 0)] == DevRevision <==>
          LastValue(info.settings, RevisionKey).None?)
  {
    var rev := Revision(info.settings);
    var v := Versions(Some(info), "").0;
    if Modified(info.settings) {
      assert v[..|v| - |DirtySuffix|] == rev;
      assert v[|v| - |DirtySuffix|..] == DirtySuffix;
    } else {
      assert v == rev;
      assert |v| == |DevRevision| || |v| == RevisionLength;
    }
  }

  /** With an injected static version, the VCS settings are not consulted at all. */
  lemma StaticIgnoresSettings(go: string, s1: seq<Setting>, s2: seq<Setting>, injected: string)
    requires injected != ""
    ensures Versions(Some(BuildInfo(go, s1)), injected) == Versions(Some(BuildInfo(go, s2)), injected) == (injected, go)
  {
  }

  /** The package's state: `DetectedVersion`, `GoVersion` and `staticVersion`. */
  class Package {
    var detectedVersion: string
    var goVersion: string
    var staticVersion: string

    /** `init()`, for a binary built with `injected` as its static version. */
    constructor(info: Option<BuildInfo>, injected: string)
      requires info.Some? && injected == "" ==> RevisionsSliceable(info.value.settings)
      ensures staticVersion == injected
      ensures (detectedVersion, goVersion) == Versions(info, injected)
    {
      staticVersion := injected;
      new;
      DetectVersion(info);
    }

    /** `detectVersion()`; `info` is what `debug.ReadBuildInfo` returns. The
        result does not depend on the previous values, so running it again
        changes nothing. */
    method DetectVersion(info: Option<BuildInfo>)
      requires info.Some? && staticVersion == "" ==> RevisionsSliceable(info.value.settings)
      modifies this
      ensures staticVersion == old(staticVersion)
      ensures (detectedVersion, goVersion) == Versions(info, staticVersion)
    {
      detectedVersion, goVersion := Unknown, Unknown;
      if info.None? {
        return;
      }
      var bi := info.value;
      goVersion := bi.goVersion;
      if staticVersion != "" {
        detectedVersion := staticVersion;
        return;
      }
      var rev := DevRevision;
      var modified := false;
      var i := 0;
      while i < |bi.settings|
        invariant i <= |bi.settings| && RevisionsSliceable(bi.settings[..i])
        invariant rev == Revision(bi.settings[..i])
        invariant modified == Modified(bi.settings[..i])
        invariant staticVersion == old(staticVersion) && goVersion == bi.goVersion
      {
        var setting := bi.settings[i];
        assert bi.settings[..i + 1][..i] == bi.settings[..i];
        if setting.key == RevisionKey {
          rev := setting.value[..RevisionLength];
        }
        if setting.key == ModifiedKey {
          modified := setting.value == "true";
        }
        i := i + 1;
      }
      assert bi.settings[..i] == bi.settings;
      if modified {
        detectedVersion := rev + DirtySuffix;
      } else {
        detectedVersion := rev;
      }
    }
  }
}
