/** The configuration page (config_setup.php): the CV file-name builder and the
    stem it displays back, getValue, and the tree a POST saves to config.local.php.
    POST fields are a map from field name to the submitted string; a field that
    was not submitted is absent from the map. */
module ConfigSetup {
  import opened PhpStrings
  import opened Config

  // ---------------------------------------------------------------------------
  // getValue (config_setup.php:104-118)

  /** getValue: the same isset walk as getConfig over $currentConfig, but the value
      found is returned as it is and the default is "" unless given. */
  function GetValue(current: Value, key: string, fallback: Value): Value
  {
    if !current.Arr? then fallback  // the first isset already fails
    else match Lookup(current, Split(key, '.'))
      case None => fallback
      case Some(v) => v
  }

  /** getValue's foreach over the key segments. */
  method GetValueWalk(current: Value, key: string, fallback: Value) returns (r: Value)
    ensures r == GetValue(current, key, fallback)
  {
    var keys := Split(key, '.');
    var value := current;
    var i := 0;
    while i < |keys|
      invariant 0 <= i <= |keys|
      invariant Lookup(current, keys) == Lookup(value, keys[i..])
      invariant i == 0 ==> value == current
      invariant i > 0 ==> current.Arr?
    {
      assert keys[i..][1..] == keys[i + 1..];
      match value
      case Arr(m) =>
        if keys[i] in m && m[keys[i]] != Null {
          value := m[keys[i]];
          i := i + 1;
        } else {
          return fallback;
        }
      case _ =>
        return fallback;
    }
    assert keys[i..] == [];
    r := value;
  }

  /** getValue and getConfig find the same values; they differ only in that getConfig
      replaces the dynamic tags in a string it finds. */
  lemma GetValueVersusGetConfig(config: Value, key: string, fallback: Value)
    ensures !GetValue(config, key, fallback).Str? || Lookup(config, Split(key, '.')).None? ==>
      ConfigGet(config, key, fallback) == GetValue(config, key, fallback)
    ensures GetValue(config, key, fallback).Str? && Lookup(config, Split(key, '.')).Some? ==>
      ConfigGet(config, key, fallback) == Str(ProcessDynamicTags(GetValue(config, key, fallback).s))
  {
  }

  /** When getValue runs, $currentConfig has not been assigned yet: every key misses. */
  lemma GetValueBeforeLoad(key: string, fallback: Value)
    ensures GetValue(Null, key, fallback) == fallback
  {
  }

  // ---------------------------------------------------------------------------
  // The CV file name (config_setup.php:18-21, 472-473)

  /** preg_replace('/\s+/', ' ', s): every run of white space becomes one space.
      A white-space character followed by another one is dropped, and the last one of
      each run is written as ' '. */
  function CollapseSpaces(s: string): (r: string)
    ensures |r| <= |s|
    ensures NonSpace(r) == NonSpace(s)
  {
    if |s| == 0 then ""
    else if s[0] !in PcreSpace then
      assert ([s[0]] + CollapseSpaces(s[1..]))[1..] == CollapseSpaces(s[1..]);
      [s[0]] + CollapseSpaces(s[1..])
    else if |s| > 1 && s[1] in PcreSpace then CollapseSpaces(s[1..])
    else
      assert (" " + CollapseSpaces(s[1..]))[1..] == CollapseSpaces(s[1..]);
      " " + CollapseSpaces(s[1..])
  }

  /** The characters of s that are not white space, in order. */
  function NonSpace(s: string): string
  {
    if |s| == 0 then "" else (if s[0] in PcreSpace then "" else [s[0]]) + NonSpace(s[1..])
  }

  /** The collapse works piece by piece across a cut before a character that is not
      white space. */
  lemma {:induction false} CollapseSpacesSplit(a: string, t: string)
    requires t == [] || t[0] !in PcreSpace
    ensures CollapseSpaces(a + t) == CollapseSpaces(a) + CollapseSpaces(t)
  {
    if |a| == 0 {
      assert a + t == t;
    } else {
      assert (a + t)[0] == a[0];
      assert (a + t)[1..] == a[1..] + t;
      CollapseSpacesSplit(a[1..], t);
    }
  }

  /** A whole run of white space, up to the next other character, becomes one space. */
  lemma {:induction false} CollapseSpacesRun(w: string, b: string)
    requires |w| > 0 && forall i :: 0 <= i < |w| ==> w[i] in PcreSpace
    requires b == [] || b[0] !in PcreSpace
    ensures CollapseSpaces(w + b) == " " + CollapseSpaces(b)
  {
    var s := w + b;
    assert s[0] == w[0];
    if |w| == 1 {
      assert s[1..] == b;
    } else {
      assert s[1] == w[1];
      assert s[1..] == w[1..] + b;
      CollapseSpacesRun(w[1..], b);
    }
  }

  /** A string the collapse leaves alone: its only white space is single spaces. */
  predicate Collapsed(s: string)
  {
    forall i :: 0 <= i < |s| && s[i] in PcreSpace ==> s[i] == ' ' && (i + 1 < |s| ==> s[i + 1] !in PcreSpace)
  }

  /** The three last characters are "pdf" in any case. */
  predicate EndsWithPdf(s: string)
  {
    |s| >= 3 && Lower(s[|s| - 3..]) == "pdf"
  }

  function DropFinalDot(s: string): string
  {
    if |s| > 0 && s[|s| - 1] == '.' then s[..|s| - 1] else s
  }

  /** preg_replace('/\.?pdf$/i', '', s): "pdf" in any case, with the dot before it if
      there is one, is removed at the end of the string or before a final newline. */
  function StripPdfSuffix(s: string): (r: string)
    ensures |r| <= |s|
  {
    if EndsWithPdf(s) then DropFinalDot(s[..|s| - 3])
    else if |s| > 0 && s[|s| - 1] == '\n' && EndsWithPdf(s[..|s| - 1]) then
      DropFinalDot(s[..|s| - 4]) + "\n"
    else s
  }

  /** The stem built from the submitted name: trimmed, white space collapsed, a
      trailing ".pdf" or "pdf" removed. */
  function CvStem(input: string): string
  {
    StripPdfSuffix(CollapseSpaces(TrimWs(input)))
  }

  /** The saved files.cv_path: the stem with ".pdf" appended, or "" for an empty stem. */
  function BuildCvPath(input: string): (r: string)
    ensures r == "" || (|r| >= 4 && r[|r| - 4..] == ".pdf")
  {
    var stem := CvStem(input);
    if stem != "" then stem + ".pdf" else ""
  }

  /** What the form shows as the CV name: the stored path, cast to string, with the
      same suffix removal. */
  function DisplayStem(cvPath: Value): string
  {
    StripPdfSuffix(PhpToString(cvPath))
  }

  /** Showing a built path gives back exactly the stem that was built. */
  lemma CvPathRoundTrip(input: string)
    requires BuildCvPath(input) != ""
    ensures DisplayStem(Str(BuildCvPath(input))) == CvStem(input)
  {
    StripPdfOfAppended(CvStem(input));
  }

  lemma StripPdfOfAppended(stem: string)
    ensures StripPdfSuffix(stem + ".pdf") == stem
  {
    var p := stem + ".pdf";
    assert p[|p| - 3..] == "pdf";
    LowerPdf();
    assert EndsWithPdf(p);
    assert p[..|p| - 3] == stem + ".";
  }

  lemma LowerPdf()
    ensures Lower("pdf") == "pdf"
  {
    var l := Lower("pdf");
    assert l[0] == 'p' && l[1] == 'd' && l[2] == 'f';
  }

  /** The collapse leaves only single spaces as white space. */
  lemma {:induction false} CollapseSpacesCollapsed(s: string)
    ensures Collapsed(CollapseSpaces(s))
  {
    if |s| > 0 {
      var r := CollapseSpaces(s);
      CollapseSpacesCollapsed(s[1..]);
      var tail := CollapseSpaces(s[1..]);
      if s[0] !in PcreSpace || !(|s| > 1 && s[1] in PcreSpace) {
        assert r == [if s[0] in PcreSpace then ' ' else s[0]] + tail;
        if s[0] in PcreSpace && |tail| > 0 {
          assert tail[0] == s[1];
        }
        forall i | 0 <= i < |r| && r[i] in PcreSpace
          ensures r[i] == ' ' && (i + 1 < |r| ==> r[i + 1] !in PcreSpace)
        {
          if i > 0 {
            assert r[i] == tail[i - 1];
          }
        }
      }
    }
  }

  /** A collapsed string is left as it is. */
  lemma {:induction false} CollapseSpacesFixed(s: string)
    requires Collapsed(s)
    ensures CollapseSpaces(s) == s
  {
    if |s| > 0 {
      assert Collapsed(s[1..]) by {
        forall i | 0 <= i < |s[1..]| && s[1..][i] in PcreSpace
          ensures s[1..][i] == ' ' && (i + 1 < |s[1..]| ==> s[1..][i + 1] !in PcreSpace)
        {
          assert s[1..][i] == s[i + 1];
        }
      }
      CollapseSpacesFixed(s[1..]);
      assert s == [s[0]] + s[1..];
    }
  }

  /** The leading part of a collapsed string is collapsed. */
  lemma CollapsedPrefix(s: string, n: nat)
    requires Collapsed(s) && n <= |s|
    ensures Collapsed(s[..n])
  {
    forall i | 0 <= i < n && s[..n][i] in PcreSpace
      ensures s[..n][i] == ' ' && (i + 1 < n ==> s[..n][i + 1] !in PcreSpace)
    {
      assert s[..n][i] == s[i];
      if i + 1 < n {
        assert s[..n][i + 1] == s[i + 1];
      }
    }
  }

  /** Re-saving the displayed stem rebuilds the same path, provided the stem does not
      itself end in "pdf" and neither starts nor ends with white space. */
  lemma ResaveStable(input: string)
    requires CvStem(input) != ""
    requires !EndsWithPdf(CvStem(input))
    requires CvStem(input)[0] !in Whitespace + PcreSpace
    requires CvStem(input)[|CvStem(input)| - 1] !in Whitespace + PcreSpace
    ensures BuildCvPath(DisplayStem(Str(BuildCvPath(input)))) == BuildCvPath(input)
  {
    var stem := CvStem(input);
    StemCollapsed(input);
    assert BuildCvPath(input) == stem + ".pdf";
    ResaveStem(stem);
  }

  /** The same, for a stem: the path it builds is shown and saved back unchanged. */
  lemma ResaveStem(stem: string)
    requires stem != "" && Collapsed(stem) && !EndsWithPdf(stem)
    requires stem[0] !in Whitespace + PcreSpace && stem[|stem| - 1] !in Whitespace + PcreSpace
    ensures BuildCvPath(DisplayStem(Str(stem + ".pdf"))) == stem + ".pdf"
  {
    StripPdfOfAppended(stem);
    assert DisplayStem(Str(stem + ".pdf")) == stem;
    StemRebuilt(stem);
  }

  /** Every stem is collapsed: the suffix removal keeps a prefix of a collapsed text. */
  lemma StemCollapsed(input: string)
    ensures Collapsed(CvStem(input))
  {
    var c := CollapseSpaces(TrimWs(input));
    CollapseSpacesCollapsed(TrimWs(input));
    if EndsWithPdf(c) {
      CollapsedPrefix(c, |c| - 3);
      if |c[..|c| - 3]| > 0 && c[..|c| - 3][|c[..|c| - 3]| - 1] == '.' {
        CollapsedPrefix(c[..|c| - 3], |c| - 4);
      }
    } else {
      assert !(|c| > 0 && c[|c| - 1] == '\n');
    }
  }

  /** A collapsed stem with no white space at its ends and no "pdf" ending is its
      own stem. */
  lemma StemRebuilt(stem: string)
    requires stem != "" && Collapsed(stem) && !EndsWithPdf(stem)
    requires stem[0] !in Whitespace + PcreSpace && stem[|stem| - 1] !in Whitespace + PcreSpace
    ensures CvStem(stem) == stem
  {
    assert TrimLeft(stem, Whitespace) == stem;
    assert TrimRight(stem, Whitespace) == stem;
    CollapseSpacesFixed(stem);
    assert '\n' in PcreSpace;
  }

  /** "pdf" at the very end goes, with the dot before it if there is one. */
  lemma StripPdfOfPdfEnding(w: string)
    ensures StripPdfSuffix(w + "pdf") == DropFinalDot(w)
  {
    var p := w + "pdf";
    assert p[|p| - 3..] == "pdf";
    LowerPdf();
    assert p[..|p| - 3] == w;
  }

  /** Re-saving is not stable for a stem ending in "pdf": with w = "CV", the built
      path "CVpdf.pdf" is shown as "CVpdf", which is saved back as "CV.pdf". */
  lemma ResaveStripsAgain(w: string)
    requires w != [] && Collapsed(w + "pdf")
    requires w[0] !in Whitespace && w[|w| - 1] != '.'
    ensures BuildCvPath(w + "pdf" + ".pdf") == w + "pdf" + ".pdf"
    ensures DisplayStem(Str(w + "pdf" + ".pdf")) == w + "pdf"
    ensures BuildCvPath(w + "pdf") == w + ".pdf"
  {
    var shown := w + "pdf";
    var built := shown + ".pdf";
    CollapsedPdfAppended(shown);
    assert built[0] == w[0] && built[|built| - 1] == 'f';
    TidyStem(built);
    StripPdfOfAppended(shown);
    assert shown[0] == w[0] && shown[|shown| - 1] == 'f';
    TidyStem(shown);
    StripPdfOfPdfEnding(w);
    assert DropFinalDot(w) == w;
  }

  /** Appending ".pdf" to a collapsed name keeps it collapsed. */
  lemma CollapsedPdfAppended(shown: string)
    requires Collapsed(shown)
    ensures Collapsed(shown + ".pdf")
  {
    var built := shown + ".pdf";
    forall i | 0 <= i < |built| && built[i] in PcreSpace
      ensures built[i] == ' ' && (i + 1 < |built| ==> built[i + 1] !in PcreSpace)
    {
      assert i < |shown|;
      if i + 1 < |shown| {
        assert built[i + 1] == shown[i + 1];
      }
    }
  }

  /** For a name that is already trimmed and collapsed, only the suffix removal acts. */
  lemma TidyStem(s: string)
    requires s != [] && Collapsed(s)
    requires s[0] !in Whitespace && s[|s| - 1] !in Whitespace
    ensures CvStem(s) == StripPdfSuffix(s)
  {
    TrimUnchanged(s, Whitespace);
    CollapseSpacesFixed(s);
  }

  // ---------------------------------------------------------------------------
  // The saved configuration tree (config_setup.php:23-73)

  /** $_POST[field] ?? fallback */
  function Posted(post: map<string, string>, field: string, fallback: string): Value
  {
    Str(if field in post then post[field] else fallback)
  }

  /** (int)($_POST[field] ?? fallback) */
  function PostedInt(post: map<string, string>, field: string, fallback: int): Value
  {
    Int(if field in post then IntCast(post[field]) else fallback)
  }

  /** The member `key` of an array value, null for anything else. */
  function At(v: Value, key: string): Value
  {
    if v.Arr? && key in v.entries then v.entries[key] else Null
  }

  const PosteKey: string := "candidat" + "." + "poste_recherche"
  const PeriodeKey: string := "candidat" + "." + "periode_stage"
  const FormationKey: string := "candidat" + "." + "formation"
  const AppDebugKey: string := "app" + "." + "debug"
  const AppTimezoneKey: string := "app" + "." + "timezone"
  const AppCharsetKey: string := "app" + "." + "charset"

  /** The email section (config_setup.php:24-41); it has no body_text entry. */
  function SavedEmail(post: map<string, string>): Value
  {
    Arr(map[
      "smtp" := Arr(map[
        "host" := Posted(post, "smtp_host", ""),
        "port" := PostedInt(post, "smtp_port", 465),
        "encryption" := Posted(post, "smtp_encryption", "ssl"),
        "username" := Posted(post, "smtp_username", ""),
        "password" := Posted(post, "smtp_password", ""),
        "debug" := PostedInt(post, "smtp_debug", 0)
      ]),
      "from" := Arr(map[
        "email" := Str(if "candidat_email" in post then post["candidat_email"]
                       else if "from_email" in post then post["from_email"] else ""),
        "name" := Str(if "candidat_nom" in post then post["candidat_nom"]
                      else if "from_name" in post then post["from_name"] else ""),
        "signature_image" := Posted(post, "candidat_signature", "")
      ]),
      "bcc_email" := Posted(post, "bcc_email", ""),
      "subject" := Posted(post, "email_subject", ""),
      "body_template" := Posted(post, "email_body_template", "")
    ])
  }

  /** The candidate section (config_setup.php:42-50). */
  function SavedCandidate(post: map<string, string>, current: Value): Value
  {
    Arr(map[
      "nom" := Posted(post, "candidat_nom", ""),
      "email" := Posted(post, "candidat_email", ""),
      "telephone" := Posted(post, "candidat_telephone", ""),
      "portfolio_url" := Posted(post, "candidat_portfolio", ""),
      "poste_recherche" := GetValue(current, PosteKey, Str("Administrateur Syst\U{00E8}me")),
      "periode_stage" := GetValue(current, PeriodeKey, Str(("du 30 Mars au 03 Juillet" + " 2026"))),
      "formation" := GetValue(current, FormationKey, Str(("Licence Pro Administrate" + "ur Syst\U{00E8}me")))
    ])
  }

  /** $_POST['cv_filename'] ?? '' */
  function PostedCvName(post: map<string, string>): string
  {
    if "cv_filename" in post then post["cv_filename"] else ""
  }

  /** The files section (config_setup.php:51-57). */
  function SavedFiles(post: map<string, string>): Value
  {
    Arr(map[
      "template_path" := Posted(post, "template_path", "modele-lettre.docx"),
      "cv_path" := Str(BuildCvPath(PostedCvName(post))),
      "lettres_folder" := Posted(post, "lettres_folder", "lettre/"),
      "logs_folder" := Posted(post, "logs_folder", "log/"),
      "csv_file" := Posted(post, "csv_file", "candidatures.csv")
    ])
  }

  /** The application section (config_setup.php:58-66): read through getValue only. */
  function SavedApp(current: Value): Value
  {
    Arr(map[
      "name" := GetValue(current, AppNameKey, Str("FINDint")),
      "version" := GetValue(current, AppVersionKey, Str("1.0.0")),
      "author" := GetValue(current, AppAuthorKey, Str("CHAFIK EL HIRACH")),
      "debug" := GetValue(current, AppDebugKey, Bool(false)),
      "timezone" := GetValue(current, AppTimezoneKey, Str("Europe/Paris")),
      "charset" := GetValue(current, AppCharsetKey, Str("UTF-8"))
    ])
  }

  /** The notifications section (config_setup.php:67-72). */
  function SavedNotifications(post: map<string, string>): Value
  {
    Arr(map[
      "position" := Posted(post, "notification_position", "top-right"),
      "animation" := Posted(post, "notification_animation", "slide-in-right"),
      "auto_close" := Bool("auto_close" in post),
      "auto_close_delay" := PostedInt(post, "auto_close_delay", 5000)
    ])
  }

  /** The tree a POST builds, with getValue reading `current`. */
  function SavedTree(post: map<string, string>, current: Value): Value
  {
    Sections(SavedEmail(post), SavedCandidate(post, current), SavedFiles(post),
             SavedApp(current), SavedNotifications(post))
  }

  /** The five top-level sections of config.json. */
  function Sections(email: Value, candidat: Value, files: Value, app: Value, notifications: Value): Value
  {
    Arr(map[
      "email" := email,
      "candidat" := candidat,
      "files" := files,
      "app" := app,
      "notifications" := notifications
    ])
  }

  /** Each section can be read back under its own key. */
  lemma SectionsAt(email: Value, candidat: Value, files: Value, app: Value, notifications: Value)
    ensures At(Sections(email, candidat, files, app, notifications), "email") == email
    ensures At(Sections(email, candidat, files, app, notifications), "candidat") == candidat
    ensures At(Sections(email, candidat, files, app, notifications), "files") == files
    ensures At(Sections(email, candidat, files, app, notifications), "app") == app
    ensures At(Sections(email, candidat, files, app, notifications), "notifications") == notifications
  {
  }

  /** The tree as the page saves it: getValue runs before $currentConfig is loaded,
      so it always reads an unset (null) configuration. */
  function SavedConfig(post: map<string, string>): Value
  {
    SavedTree(post, Null)
  }

  /** Each section of the saved tree is the one its builder gives. */
  lemma SavedSections(post: map<string, string>, current: Value)
    ensures At(SavedTree(post, current), "email") == SavedEmail(post)
    ensures At(SavedTree(post, current), "candidat") == SavedCandidate(post, current)
    ensures At(SavedTree(post, current), "files") == SavedFiles(post)
    ensures At(SavedTree(post, current), "app") == SavedApp(current)
    ensures At(SavedTree(post, current), "notifications") == SavedNotifications(post)
  {
    SectionsAt(SavedEmail(post), SavedCandidate(post, current), SavedFiles(post),
               SavedApp(current), SavedNotifications(post));
  }

  /** Numbers are cast with (int), falling back to 465 and 0, and from.email prefers
      candidat_email over from_email. */
  lemma SavedEmailScalars(post: map<string, string>)
    ensures At(At(SavedEmail(post), "smtp"), "port") ==
      Int(if "smtp_port" in post then IntCast(post["smtp_port"]) else 465)
    ensures At(At(SavedEmail(post), "smtp"), "debug") ==
      Int(if "smtp_debug" in post then IntCast(post["smtp_debug"]) else 0)
    ensures At(At(SavedEmail(post), "from"), "email") ==
      Str(if "candidat_email" in post then post["candidat_email"]
          else if "from_email" in post then post["from_email"] else "")
    ensures "body_text" !in SavedEmail(post).entries
  {
  }

  /** auto_close is true exactly when the checkbox was posted; the delay is cast with
      (int), falling back to 5000; the CV path is the one built from the posted name. */
  lemma SavedOtherScalars(post: map<string, string>)
    ensures At(SavedNotifications(post), "auto_close") == Bool("auto_close" in post)
    ensures At(SavedNotifications(post), "auto_close_delay") ==
      Int(if "auto_close_delay" in post then IntCast(post["auto_close_delay"]) else 5000)
    ensures At(SavedFiles(post), "cv_path") == Str(BuildCvPath(PostedCvName(post)))
  {
  }

  /** As saved, the candidate's target position, period and training are always the
      literals of config_setup.php:47-49, and the application settings always the
      protected values, whatever was posted and whatever config.local.php held. */
  lemma SavedConfigIgnoresCurrent(post: map<string, string>)
    ensures At(At(SavedConfig(post), "candidat"), "poste_recherche") == Str("Administrateur Syst\U{00E8}me")
    ensures At(At(SavedConfig(post), "candidat"), "periode_stage") == Str(("du 30 Mars au 03 Juillet" + " 2026"))
    ensures At(At(SavedConfig(post), "candidat"), "formation") == Str(("Licence Pro Administrate" + "ur Syst\U{00E8}me"))
    ensures At(At(SavedConfig(post), "app"), "name") == Str("FINDint")
    ensures At(At(SavedConfig(post), "app"), "version") == Str("1.0.0")
    ensures At(At(SavedConfig(post), "app"), "author") == Str("CHAFIK EL HIRACH")
  {
    SavedSections(post, Null);
    CandidateFieldsRead(post, Null);
    AppFieldsRead(Null);
  }

  /** The three candidate fields the form has no input for come from getValue. */
  lemma CandidateFieldsRead(post: map<string, string>, current: Value)
    ensures At(SavedCandidate(post, current), "poste_recherche") ==
      GetValue(current, PosteKey, Str("Administrateur Syst\U{00E8}me"))
    ensures At(SavedCandidate(post, current), "periode_stage") ==
      GetValue(current, PeriodeKey, Str(("du 30 Mars au 03 Juillet" + " 2026")))
    ensures At(SavedCandidate(post, current), "formation") ==
      GetValue(current, FormationKey, Str(("Licence Pro Administrate" + "ur Syst\U{00E8}me")))
  {
  }

  /** The protected application fields come from getValue. */
  lemma AppFieldsRead(current: Value)
    ensures At(SavedApp(current), "name") == GetValue(current, AppNameKey, Str("FINDint"))
    ensures At(SavedApp(current), "version") == GetValue(current, AppVersionKey, Str("1.0.0"))
    ensures At(SavedApp(current), "author") == GetValue(current, AppAuthorKey, Str("CHAFIK EL HIRACH"))
  {
  }

  /** With the current configuration loaded first, a saved tree keeps the candidate
      fields the form has no input for. */
  lemma SavedTreeKeepsCurrent(post: map<string, string>, current: Value, poste: Value)
    requires Lookup(current, ["candidat", "poste_recherche"]) == Some(poste)
    ensures At(At(SavedTree(post, current), "candidat"), "poste_recherche") == poste
  {
    SavedSections(post, current);
    CandidateKeepsCurrent(post, current, poste);
  }

  lemma CandidateKeepsCurrent(post: map<string, string>, current: Value, poste: Value)
    requires Lookup(current, ["candidat", "poste_recherche"]) == Some(poste)
    ensures At(SavedCandidate(post, current), "poste_recherche") == poste
  {
    CandidateFieldsRead(post, current);
    GetValueTwoSegments(current, "candidat", "poste_recherche", Str("Administrateur Syst\U{00E8}me"), poste);
  }

  /** getValue on a key "a.b" finds what the configuration holds under a, then b. */
  lemma GetValueTwoSegments(current: Value, a: string, b: string, fallback: Value, v: Value)
    requires '.' !in a && '.' !in b
    requires Lookup(current, [a, b]) == Some(v)
    ensures GetValue(current, a + "." + b, fallback) == v
  {
    SplitKey2(a, b);
  }
}
