/** The security self-check (verification-securite.php).

    A SecurityChecker compares the three protected application settings with the
    values they must hold, looks for three critical files and inspects the mode of
    config.local.php. Every failed check appends a message to the checker's error
    list, and nothing ever empties that list: a checker asked twice reports the
    first round's errors again, followed by the second round's. The filesystem and
    the clock are inputs, gathered in a Host. */
module SecurityCheck {
  import opened PhpStrings
  import opened Config

  /** The three protected settings and their expected values, in the order the
      foreach visits them. */
  const ProtectedSettings: seq<(string, string)> := [
    (AppNameKey, "FINDint"),
    (AppVersionKey, "1.0.0"),
    (AppAuthorKey, "CHAFIK EL HIRACH")
  ]

  const CriticalFiles: seq<string> := ["config.php", "generer-lettre.php", "configuration.php"]

  const LocalConfigFile: string := "config.local.php"

  /** What the checks read from outside the object. */
  datatype Host = Host(
    config: Value,                 // the tree getConfig reads
    fileExists: string -> bool,    // file_exists
    perms: bv16,                   // fileperms('config.local.php'): st_mode, 16 bits
    now: string)                   // date('Y-m-d H:i:s')

  // ---------------------------------------------------------------------------
  // The messages (verification-securite.php:39, 56, 69)

  function SettingError(key: string, expected: string, actual: Value): string
  {
    "Param\U{00E8}tre prot\U{00E9}g\U{00E9} modifi\U{00E9}: " + key + " (attendu: " + expected +
    ", trouv\U{00E9}: " + PhpToString(actual) + ")"
  }

  function MissingFileError(file: string): string
  {
    "Fichier critique manquant: " + file
  }

  const PermissionsError: string := "Permissions trop permissives sur " + LocalConfigFile

  // ---------------------------------------------------------------------------
  // What one round of checks appends

  /** The error one protected setting gives: one message unless getConfig (default
      null) returns exactly the expected string (!== compares type and value). */
  function SettingCheck(config: Value, setting: (string, string)): (r: seq<string>)
    ensures |r| <= 1
    ensures r == [] <==> ConfigGet(config, setting.0, Null) == Str(setting.1)
  {
    var actual := ConfigGet(config, setting.0, Null);
    if actual != Str(setting.1) then [SettingError(setting.0, setting.1, actual)] else []
  }

  function SettingErrors(config: Value, settings: seq<(string, string)>): (r: seq<string>)
    ensures |r| <= |settings|
  {
    if settings == [] then [] else SettingCheck(config, settings[0]) + SettingErrors(config, settings[1..])
  }

  function FileErrors(fileExists: string -> bool, files: seq<string>): (r: seq<string>)
    ensures |r| <= |files|
  {
    if files == [] then []
    else (if !fileExists(files[0]) then [MissingFileError(files[0])] else []) + FileErrors(fileExists, files[1..])
  }

  /** The mode test as written: bit 0x0002 (others may write) or bit 0x0020. */
  predicate TooPermissive(perms: bv16)
  {
    perms & 0x0002 != 0 || perms & 0x0020 != 0
  }

  function PermissionErrors(configExists: bool, perms: bv16): seq<string>
  {
    if configExists && TooPermissive(perms) then [PermissionsError] else []
  }

  /** The errors of one checkSecurity call, in the order of its three checks. */
  function RoundErrors(h: Host): seq<string>
  {
    SettingErrors(h.config, ProtectedSettings) +
    FileErrors(h.fileExists, CriticalFiles) +
    PermissionErrors(h.fileExists(LocalConfigFile), h.perms)
  }

  // ---------------------------------------------------------------------------
  // Properties of one round

  /** No setting error exactly when every setting reads back as its expected string. */
  lemma {:induction false} SettingErrorsEmpty(config: Value, settings: seq<(string, string)>)
    ensures SettingErrors(config, settings) == [] <==>
      forall i :: 0 <= i < |settings| ==> ConfigGet(config, settings[i].0, Null) == Str(settings[i].1)
  {
    if settings != [] {
      SettingErrorsEmpty(config, settings[1..]);
      assert forall i :: 1 <= i < |settings| ==> settings[i] == settings[1..][i - 1];
    }
  }

  /** No file error exactly when every file exists; otherwise the first missing file
      is named first. */
  lemma {:induction false} FileErrorsEmpty(fileExists: string -> bool, files: seq<string>)
    ensures FileErrors(fileExists, files) == [] <==> forall i :: 0 <= i < |files| ==> fileExists(files[i])
  {
    if files != [] {
      FileErrorsEmpty(fileExists, files[1..]);
      assert forall i :: 1 <= i < |files| ==> files[i] == files[1..][i - 1];
    }
  }

  /** A round raises nothing exactly when the three settings hold their values, the
      three critical files exist and config.local.php is absent or not too open. */
  lemma RoundErrorsEmpty(h: Host)
    ensures RoundErrors(h) == [] <==>
      (forall i :: 0 <= i < |ProtectedSettings| ==>
        ConfigGet(h.config, ProtectedSettings[i].0, Null) == Str(ProtectedSettings[i].1)) &&
      (forall i :: 0 <= i < |CriticalFiles| ==> h.fileExists(CriticalFiles[i])) &&
      !(h.fileExists(LocalConfigFile) && TooPermissive(h.perms))
    ensures |RoundErrors(h)| <= 7
  {
    SettingErrorsEmpty(h.config, ProtectedSettings);
    FileErrorsEmpty(h.fileExists, CriticalFiles);
  }

  /** The built-in default tree passes the settings check. */
  lemma DefaultSettingsPass()
    ensures SettingErrors(DefaultConfig, ProtectedSettings) == []
  {
    DefaultAppSettings();
    SettingErrorsEmpty(DefaultConfig, ProtectedSettings);
  }

  /** Bits 0x0002 and 0x0020 are the write bit of the "others" octal digit and the
      read bit of the "group" digit. */
  lemma TooPermissiveDigits(perms: bv16)
    ensures TooPermissive(perms) <==> (perms & 7) in {2, 3, 6, 7} || ((perms >> 3) & 7) in {4, 5, 6, 7}
  {
  }

  /** As written, the test flags the usual rw-r--r-- mode of a regular file
      (0100644), because 0x0020 is the group READ bit, while a file readable by
      everyone but not by its group (0100604) passes. */
  lemma TooPermissiveOnReadableModes()
    ensures TooPermissive(0x81A4)
    ensures !TooPermissive(0x8184)
  {
  }

  /** The evidently intended test, the masks read as the octal 0002 and 0020: someone
      other than the owner may write the file. */
  predicate WritableByOthers(perms: bv16)
  {
    perms & 0x0002 != 0 || perms & 0x0010 != 0
  }

  /** The intended test looks at the write bit of the group and the others digits
      and at nothing else. */
  lemma WritableByOthersDigits(perms: bv16)
    ensures WritableByOthers(perms) <==> (perms & 7) in {2, 3, 6, 7} || ((perms >> 3) & 7) in {2, 3, 6, 7}
  {
  }

  /** rw-r--r-- passes the intended test; group- or world-writable modes fail it. */
  lemma WritableByOthersOnModes()
    ensures !WritableByOthers(0x81A4)
    ensures WritableByOthers(0x81B4) && WritableByOthers(0x81A6)
  {
  }

  // ---------------------------------------------------------------------------
  // The checker (verification-securite.php:12-98)

  /** generateReport's array, without the JSON encoding. */
  datatype Report = Report(
    timestamp: string,
    secure: bool,
    errors: seq<string>,
    protectedSettings: seq<(string, string)>,
    configFileExists: bool,
    appVersion: Value,
    appName: Value,
    appAuthor: Value)

  class SecurityChecker {
    var errors: seq<string>

    constructor()
      ensures errors == []
    {
      errors := [];
    }

    method CheckProtectedSettings(config: Value)
      modifies this
      ensures errors == old(errors) + SettingErrors(config, ProtectedSettings)
    {
      var k := 0;
      while k < |ProtectedSettings|
        invariant 0 <= k <= |ProtectedSettings|
        invariant errors + SettingErrors(config, ProtectedSettings[k..]) ==
          old(errors) + SettingErrors(config, ProtectedSettings)
      {
        var setting := ProtectedSettings[k];
        ghost var rest := SettingErrors(config, ProtectedSettings[k + 1..]);
        assert ProtectedSettings[k..][1..] == ProtectedSettings[k + 1..];
        assert SettingErrors(config, ProtectedSettings[k..]) == SettingCheck(config, setting) + rest;
        var actual := GetConfig(config, setting.0, Null);
        ghost var before := errors;
        if actual != Str(setting.1) {
          errors := errors + [SettingError(setting.0, setting.1, actual)];
        }
        assert errors == before + SettingCheck(config, setting);
        Regroup(before, SettingCheck(config, setting), rest);
        k := k + 1;
      }
      assert ProtectedSettings[k..] == [];
    }

    method CheckFileIntegrity(fileExists: string -> bool)
      modifies this
      ensures errors == old(errors) + FileErrors(fileExists, CriticalFiles)
    {
      var k := 0;
      while k < |CriticalFiles|
        invariant 0 <= k <= |CriticalFiles|
        invariant errors + FileErrors(fileExists, CriticalFiles[k..]) ==
          old(errors) + FileErrors(fileExists, CriticalFiles)
      {
        var file := CriticalFiles[k];
        ghost var rest := FileErrors(fileExists, CriticalFiles[k + 1..]);
        ghost var step: seq<string> := if !fileExists(file) then [MissingFileError(file)] else [];
        assert CriticalFiles[k..][1..] == CriticalFiles[k + 1..];
        assert FileErrors(fileExists, CriticalFiles[k..]) == step + rest;
        ghost var before := errors;
        if !fileExists(file) {
          errors := errors + [MissingFileError(file)];
        }
        assert errors == before + step;
        Regroup(before, step, rest);
        k := k + 1;
      }
      assert CriticalFiles[k..] == [];
    }

    method CheckPermissions(configExists: bool, perms: bv16)
      modifies this
      ensures errors == old(errors) + PermissionErrors(configExists, perms)
    {
      if configExists {
        if TooPermissive(perms) {
          errors := errors + [PermissionsError];
        }
      }
    }

    /** The three checks in order; secure exactly when the list, including what
        earlier calls left in it, is empty. */
    method CheckSecurity(h: Host) returns (secure: bool)
      modifies this
      ensures errors == old(errors) + RoundErrors(h)
      ensures secure <==> errors == []
    {
      ghost var settings := SettingErrors(h.config, ProtectedSettings);
      ghost var files := FileErrors(h.fileExists, CriticalFiles);
      ghost var mode := PermissionErrors(h.fileExists(LocalConfigFile), h.perms);
      CheckProtectedSettings(h.config);
      CheckFileIntegrity(h.fileExists);
      CheckPermissions(h.fileExists(LocalConfigFile), h.perms);
      assert errors == old(errors) + settings + files + mode;
      assert RoundErrors(h) == settings + files + mode;
      AppendAssociates(old(errors), settings, files, mode);
      secure := errors == [];
    }

    /** The report: 'secure' is computed first, so 'errors' already holds this
        round's messages. */
    method GenerateReport(h: Host) returns (report: Report)
      modifies this
      ensures errors == old(errors) + RoundErrors(h)
      ensures report.errors == errors
      ensures report.secure <==> report.errors == []
      ensures report.protectedSettings == ProtectedSettings
      ensures report.configFileExists == h.fileExists(LocalConfigFile)
      ensures report.appVersion == ConfigGet(h.config, AppVersionKey, Null)
      ensures report.appName == ConfigGet(h.config, AppNameKey, Null)
      ensures report.appAuthor == ConfigGet(h.config, AppAuthorKey, Null)
      ensures report.timestamp == h.now
    {
      var secure := CheckSecurity(h);
      var version := GetConfig(h.config, AppVersionKey, Null);
      var name := GetConfig(h.config, AppNameKey, Null);
      var author := GetConfig(h.config, AppAuthorKey, Null);
      report := Report(h.now, secure, errors, ProtectedSettings, h.fileExists(LocalConfigFile), version, name, author);
    }
  }

  lemma Regroup<T>(a: seq<T>, b: seq<T>, c: seq<T>)
    ensures a + b + c == a + (b + c)
  {
  }

  lemma AppendAssociates<T>(a: seq<T>, b: seq<T>, c: seq<T>, d: seq<T>)
    ensures a + b + c + d == a + (b + c + d)
  {
  }

  /** checkAppSecurity: a fresh checker reports on one round only. */
  method CheckAppSecurity(h: Host) returns (report: Report)
    ensures report.errors == RoundErrors(h)
    ensures report.secure <==> RoundErrors(h) == []
  {
    var checker := new SecurityChecker();
    report := checker.GenerateReport(h);
  }

  /** One checker asked twice: the second answer is secure only when both rounds
      were clean, and the list holds the first round's errors, then the second's. */
  method CheckTwice(first: Host, second: Host) returns (secure1: bool, secure2: bool, errors: seq<string>)
    ensures secure1 <==> RoundErrors(first) == []
    ensures secure2 <==> RoundErrors(first) == [] && RoundErrors(second) == []
    ensures errors == RoundErrors(first) + RoundErrors(second)
  {
    ghost var r1, r2 := RoundErrors(first), RoundErrors(second);
    var checker := new SecurityChecker();
    secure1 := checker.CheckSecurity(first);
    assert checker.errors == r1 by {
      assert [] + r1 == r1;
    }
    secure2 := checker.CheckSecurity(second);
    errors := checker.errors;
    assert errors == r1 + r2;
    assert |errors| == |r1| + |r2|;
  }
}
