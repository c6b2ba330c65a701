/** Centralised configuration (config.php): the configuration tree, either the one
    config.local.php returns or the built-in default tree, the dotted-key lookup
    getConfig and the fixed tag substitution processDynamicTags. */
module Config {
  import opened PhpStrings

  /** A PHP value as it occurs in the configuration tree. Arrays are string-keyed
      maps; PHP's key order only matters to var_export and is not modelled. */
  datatype Value = Null | Bool(b: bool) | Int(i: int) | Str(s: string) | Arr(entries: map<string, Value>)

  /** PHP's empty() on a value: null, false, 0, "", "0" and the empty array. */
  predicate PhpEmptyValue(v: Value)
  {
    match v
    case Null => true
    case Bool(b) => !b
    case Int(i) => i == 0
    case Str(s) => PhpEmpty(s)
    case Arr(m) => m == map[]
  }

  /** PHP's string conversion of a scalar, as str_replace and interpolation apply it. */
  function PhpToString(v: Value): string
  {
    match v
    case Null => ""
    case Bool(b) => if b then "1" else ""
    case Int(i) => IntToString(i)
    case Str(s) => s
    case Arr(_) => "Array"
  }

  // ---------------------------------------------------------------------------
  // Dynamic tags (config.php:160-176)

  /** The tags and their fixed replacements, in the order they are applied. */
  const DynamicTags: seq<(string, string)> := [
    ("{candidat_nom}", "Votre Nom"),
    ("{candidat_email}", "votre-email@example.com"),
    ("{candidat_portfolio_url}", ("https://votre-portfolio." + "com")),
    (("{candidat_signature_imag" + "e}"), ("https://votre-site.com/s" + "ignature.jpg"))
  ]

  /** processDynamicTags as a specification: the replacements folded over the text. */
  function ProcessDynamicTags(text: string): string
  {
    ReplaceEach(text, DynamicTags)
  }

  /** The foreach over the tag map, reassigning the value at each step. */
  method ProcessTags(text: string) returns (r: string)
    ensures r == ProcessDynamicTags(text)
    ensures forall j :: 0 <= j < |DynamicTags| ==> !Contains(r, DynamicTags[j].0)
  {
    r := text;
    var k := 0;
    while k < |DynamicTags|
      invariant 0 <= k <= |DynamicTags|
      invariant ReplaceEach(r, DynamicTags[k..]) == ProcessDynamicTags(text)
    {
      assert DynamicTags[k..][1..] == DynamicTags[k + 1..];
      r := ReplaceAll(r, DynamicTags[k].0, DynamicTags[k].1);
      k := k + 1;
    }
    assert DynamicTags[k..] == [];
    TagsRemoved(text);
  }

  /** No replacement text contains '{', so no replacement can form a tag. */
  lemma DynamicTagsSafe()
    ensures TagSafe(DynamicTags)
  {
    var t := DynamicTags;
    var alphabet := {'a', 'c', 'd', 'e', 'f', 'g', 'i', 'l', 'm', 'n', 'o', 'p', 'r', 's', 't', 'u', '_', '}'};
    forall j | 0 <= j < |t|
      ensures forall i :: 1 <= i < |t[j].0| ==> t[j].0[i] in alphabet
    {
    }
    TagSafeByAlphabet(t, '{', alphabet);
  }

  /** After the substitution none of the four tags is left. */
  lemma TagsRemoved(text: string)
    ensures forall j :: 0 <= j < |DynamicTags| ==> !Contains(ProcessDynamicTags(text), DynamicTags[j].0)
  {
    DynamicTagsSafe();
    ReplaceEachRemovesAll(text, DynamicTags);
  }

  /** Text holding none of the tags, {entreprise} for instance, is left untouched. */
  lemma TagFreeUnchanged(text: string)
    requires forall j :: 0 <= j < |DynamicTags| ==> !Contains(text, DynamicTags[j].0)
    ensures ProcessDynamicTags(text) == text
  {
    ReplaceEachAbsent(text, DynamicTags);
  }

  /** Text without '{' is left untouched. */
  lemma NoBraceUnchanged(text: string)
    requires '{' !in text
    ensures ProcessDynamicTags(text) == text
  {
    forall j | 0 <= j < |DynamicTags|
      ensures !Contains(text, DynamicTags[j].0)
    {
      NotContainsFirstChar(text, DynamicTags[j].0);
    }
    TagFreeUnchanged(text);
  }

  /** The substitution is idempotent. */
  lemma ProcessIdempotent(text: string)
    ensures ProcessDynamicTags(ProcessDynamicTags(text)) == ProcessDynamicTags(text)
  {
    TagsRemoved(text);
    TagFreeUnchanged(ProcessDynamicTags(text));
  }

  /** {entreprise} is not one of the tags: it survives for the mail pipeline. */
  lemma CompanyPlaceholderKept()
    ensures ProcessDynamicTags("{entreprise}") == "{entreprise}"
  {
    forall j | 0 <= j < |DynamicTags|
      ensures !Contains("{entreprise}", DynamicTags[j].0)
    {
      assert |DynamicTags[j].0| > |"{entreprise}"|;
    }
    TagFreeUnchanged("{entreprise}");
  }

  // ---------------------------------------------------------------------------
  // getConfig (config.php:134-154)

  /** The walk along the key path: each segment must name a present, non-null entry
      of an array (isset); reaching a scalar before the end counts as missing. */
  function Lookup(v: Value, keys: seq<string>): Option<Value>
    decreases |keys|
  {
    if |keys| == 0 then Some(v)
    else match v
      case Arr(m) =>
        if keys[0] in m && m[keys[0]] != Null then Lookup(m[keys[0]], keys[1..]) else None
      case _ => None
  }

  /** getConfig as a specification: the default, untouched, when the path is missing;
      a found string with its dynamic tags replaced; any other found value as it is. */
  function ConfigGet(config: Value, key: string, fallback: Value): Value
  {
    match Lookup(config, Split(key, '.'))
    case None => fallback
    case Some(Str(s)) => Str(ProcessDynamicTags(s))
    case Some(v) => v
  }

  /** getConfig's foreach over the key segments. */
  method GetConfig(config: Value, key: string, fallback: Value) returns (r: Value)
    ensures r == ConfigGet(config, key, fallback)
  {
    var keys := Split(key, '.');
    var value := config;
    var i := 0;
    while i < |keys|
      invariant 0 <= i <= |keys|
      invariant Lookup(config, keys) == Lookup(value, keys[i..])
    {
      assert keys[i..][1..] == keys[i + 1..];
      match value
      case Arr(m) =>
        if keys[i] in m && m[keys[i]] != Null {
          value := m[keys[i]];
          i := i + 1;
        } else {
          return fallback;
        }
      case _ =>
        return fallback;
    }
    assert keys[i..] == [];
    if value.Str? {
      var processed := ProcessTags(value.s);
      value := Str(processed);
    }
    r := value;
  }

  /** Looking up a path in two parts is looking up the second part in what the first
      part found. */
  lemma {:induction false} LookupConcat(v: Value, keys1: seq<string>, keys2: seq<string>)
    ensures Lookup(v, keys1 + keys2) ==
      match Lookup(v, keys1)
      case None => None
      case Some(w) => Lookup(w, keys2)
    decreases |keys1|
  {
    if |keys1| > 0 {
      assert (keys1 + keys2)[0] == keys1[0];
      assert (keys1 + keys2)[1..] == keys1[1..] + keys2;
      if v.Arr? && keys1[0] in v.entries && v.entries[keys1[0]] != Null {
        LookupConcat(v.entries[keys1[0]], keys1[1..], keys2);
      }
    } else {
      assert keys1 + keys2 == keys2;
    }
  }

  /** A found value is never null: isset treats a null entry as missing. */
  lemma {:induction false} LookupNeverNull(v: Value, keys: seq<string>)
    requires |keys| > 0
    ensures Lookup(v, keys) != Some(Null)
    decreases |keys|
  {
    if v.Arr? && keys[0] in v.entries && v.entries[keys[0]] != Null && |keys| > 1 {
      LookupNeverNull(v.entries[keys[0]], keys[1..]);
    }
  }

  /** A string getConfig found carries none of the dynamic tags, while a string given
      as the default is returned with its tags. */
  lemma ConfigGetStrings(config: Value, key: string, fallback: Value)
    ensures Lookup(config, Split(key, '.')).Some? && ConfigGet(config, key, fallback).Str? ==>
      forall j :: 0 <= j < |DynamicTags| ==> !Contains(ConfigGet(config, key, fallback).s, DynamicTags[j].0)
    ensures Lookup(config, Split(key, '.')).None? ==> ConfigGet(config, key, fallback) == fallback
  {
    match Lookup(config, Split(key, '.'))
    case None =>
    case Some(v) =>
      if v.Str? {
        TagsRemoved(v.s);
      }
  }

  /** Splits a two-segment key "a.b". */
  lemma SplitKey2(a: string, b: string)
    requires '.' !in a && '.' !in b
    ensures Split(a + "." + b, '.') == [a, b]
  {
    SplitCons(a, b, '.');
    SplitNoSep(b, '.');
  }

  /** Splits a three-segment key "a.b.c". */
  lemma SplitKey3(a: string, b: string, c: string)
    requires '.' !in a && '.' !in b && '.' !in c
    ensures Split(a + "." + b + "." + c, '.') == [a, b, c]
  {
    assert a + "." + b + "." + c == a + ['.'] + (b + "." + c);
    SplitCons(a, b + "." + c, '.');
    SplitKey2(b, c);
  }

  // ---------------------------------------------------------------------------
  // The configuration tree (config.php:10-123)

  /** The tree getConfig reads: config.local.php when it exists, else the defaults. */
  function LoadedConfig(local: Option<Value>): Value
  {
    if local.Some? then local.value else DefaultConfig
  }

  /** The default email body; it carries the signature placeholders itself. */
  const BodyTemplateHead: string := ("Bonjour Madame, Monsieur" + ",<br><br>\nJe vous adress" + "e en pi\U{00E8}ce jointe ma let" + "tre de motivation person" + "nalis\U{00E9}e ainsi que mon CV" + " dans le cadre d'une can" + "didature \U{00E0} un stage au s" + "ein de {entreprise}, [p\U{00E9}" + "riode du stage].<br><br>" + "\nJe suis \U{00E0} votre enti\U{00E8}re" + " disposition pour un ent" + "retien afin d'\U{00E9}changer p" + "lus en d\U{00E9}tail sur mes mo" + "tivations, mes comp\U{00E9}tenc" + "es et la mani\U{00E8}re dont je" + " pourrais contribuer \U{00E0} v" + "os projets.<br><br>\nJe v" + "ous remercie sinc\U{00E8}rement" + " pour l'attention port\U{00E9}e" + " \U{00E0} ma candidature et esp" + "\U{00E8}re pouvoir prochainemen" + "t collaborer avec votre " + "\U{00E9}quipe.<br><br>\nBien cor" + "dialement,<br><br>\n\n<tab" + "le style=\"font-family: A" + "rial, sans-serif; font-s" + "ize: 14px; color: #333; " + "line-height: 1.6;\">\n    " + "<tbody>\n        <tr>\n   " + "         <td style=\"padd" + "ing: 0; vertical-align: " + "top;\">\n                <" + "div>\n                   " + " <img style=\"width: 80px" + "; height: auto; border-r" + "adius: 50%; margin-right" + ": 10px;\" alt=\"Profil\" sr" + "c=\"")
  const BodyTemplateMiddle: string := ("\"><br>\n                <" + "/div>\n            </td>\n" + "            <td style=\"p" + "adding: 0; vertical-alig" + "n: top;\">\n              " + "  <p style=\"margin: 0; f" + "ont-weight: bold; font-s" + "ize: 16px; color: #1a73e" + "8;\">")
  const BodyTemplateTail: string := ("<br></p>\n               " + " <p style=\"margin: 0; fo" + "nt-size: 14px; color: #6" + "66;\">\U{00C9}tudiant en Informa" + "tique<br></p>\n          " + "      <p style=\"margin: " + "0; font-size: 14px; colo" + "r: #666;\">Email: {email_" + "expediteur}</p>\n        " + "        <p style=\"margin" + ": 0; font-size: 14px; co" + "lor: #666;\">Mon Portfoli" + "o : {portfolio_url} <br>" + "</p>\n                <di" + "v><hr style=\"border: 0; " + "border-top: 1px solid #c" + "cc;\"><br></div>\n        " + "    </td>\n        </tr>\n" + "    </tbody>\n</table>\n<d" + "iv><br></div>")
  const DefaultBodyTemplate: string :=
    BodyTemplateHead + "{signature_image}" + BodyTemplateMiddle + "{nom_expediteur}" + BodyTemplateTail

  const DefaultBodyText: string := ("Bonjour Madame, Monsieur" + ",\n\nJe vous adresse en pi" + "\U{00E8}ce jointe ma lettre de " + "motivation personnalis\U{00E9}e" + " ainsi que mon CV dans l" + "e cadre d'une candidatur" + "e \U{00E0} un stage d'Administr" + "ateur Syst\U{00E8}me au sein de" + " {entreprise}, pour la p" + "\U{00E9}riode d'avril \U{00E0} juin.\n\n" + "R\U{00E9}aliser ce stage au sei" + "n de {entreprise} repr\U{00E9}s" + "enterait pour moi la con" + "cr\U{00E9}tisation d'une opport" + "unit\U{00E9} : de prendre part " + "\U{00E0} la gestion des infrast" + "ructures informatiques e" + "t mettre en \U{0153}uvre mes co" + "mp\U{00E9}tences techniques (Li" + "nux, Windows Server, VPS" + ").\n\nJe suis \U{00E0} votre enti" + "\U{00E8}re disposition pour un " + "entretien afin d'\U{00E9}change" + "r plus en d\U{00E9}tail sur mes" + " motivations, mes comp\U{00E9}t" + "ences et la mani\U{00E8}re dont" + " je pourrais contribuer " + "\U{00E0} vos projets.\n\nJe vous " + "remercie sinc\U{00E8}rement pou" + "r l'attention port\U{00E9}e \U{00E0} m" + "a candidature et esp\U{00E8}re " + "pouvoir prochainement co" + "llaborer avec votre \U{00E9}qui" + "pe.\n\nBien cordialement,\n" + "\n{nom_expediteur}")

  const EmailSettings: Value := Arr(map[
    "smtp" := Arr(map[
      "host" := Str(("smtp.votre-fournisseur.c" + "om")),
      "port" := Int(465),
      "encryption" := Str("ssl"),
      "username" := Str(("votre-email@votre-domain" + "e.com")),
      "password" := Str(""),
      "debug" := Int(0)
    ]),
    "from" := Arr(map[
      "email" := Str(("votre-email@votre-domain" + "e.com")),
      "name" := Str("Votre Nom Pr\U{00E9}nom"),
      "signature_image" := Str(("https://votre-domaine.co" + "m/signature.jpg"))
    ]),
    "bcc_email" := Str(("votre-email@votre-domain" + "e.com")),
    "subject" := Str(("Candidature pour un stag" + "e \U{2013} [Votre Formation] ([" + "P\U{00E9}riode])")),
    "body_template" := Str(DefaultBodyTemplate),
    "body_text" := Str(DefaultBodyText)
  ])

  const CandidateSettings: Value := Arr(map[
    "nom" := Str("Votre Nom Pr\U{00E9}nom"),
    "email" := Str(("votre-email@votre-domain" + "e.com")),
    "portfolio_url" := Str(("https://votre-portfolio." + "com/")),
    "poste_recherche" := Str("[Votre Poste Recherch\U{00E9}]"),
    "periode_stage" := Str("[P\U{00E9}riode du stage]"),
    "formation" := Str("[Votre Formation]")
  ])

  const FileSettings: Value := Arr(map[
    "template_path" := Str("modele-lettre.docx"),
    "cv_path" := Str("CV_Votre_Nom_2025.pdf"),
    "lettres_folder" := Str("lettre/"),
    "logs_folder" := Str("log/"),
    "csv_file" := Str("candidatures.csv")
  ])

  const AppSettings: Value := Arr(map[
    "name" := Str("FINDint"),
    "version" := Str("1.0.0"),
    "author" := Str("CHAFIK EL HIRACH"),
    "debug" := Bool(false),
    "timezone" := Str("Europe/Paris"),
    "charset" := Str("UTF-8")
  ])

  const NotificationSettings: Value := Arr(map[
    "position" := Str("top-right"),
    "animation" := Str("slide-in-right"),
    "auto_close" := Bool(true),
    "auto_close_delay" := Int(5000)
  ])

  const DefaultConfig: Value := Arr(map[
    "email" := EmailSettings,
    "candidat" := CandidateSettings,
    "files" := FileSettings,
    "app" := AppSettings,
    "notifications" := NotificationSettings
  ])

  /** The keys of the protected application settings (written as concatenations so
      that the verifier does not evaluate explode on them eagerly). */
  const AppNameKey: string := "app" + "." + "name"
  const AppVersionKey: string := "app" + "." + "version"
  const AppAuthorKey: string := "app" + "." + "author"

  /** Without config.local.php, the protected application settings read back as the
      values the integrity and copyright checks expect. */
  lemma DefaultAppSettings()
    ensures ConfigGet(DefaultConfig, AppNameKey, Null) == Str("FINDint")
    ensures ConfigGet(DefaultConfig, AppVersionKey, Null) == Str("1.0.0")
    ensures ConfigGet(DefaultConfig, AppAuthorKey, Null) == Str("CHAFIK EL HIRACH")
  {
    DefaultAppName();
    DefaultAppVersion();
    DefaultAppAuthor();
  }

  lemma DefaultAppName()
    ensures ConfigGet(DefaultConfig, AppNameKey, Null) == Str("FINDint")
  {
    AppSettingFound(AppNameKey, "name", "FINDint");
  }

  lemma DefaultAppVersion()
    ensures ConfigGet(DefaultConfig, AppVersionKey, Null) == Str("1.0.0")
  {
    AppSettingFound(AppVersionKey, "version", "1.0.0");
  }

  lemma DefaultAppAuthor()
    ensures ConfigGet(DefaultConfig, AppAuthorKey, Null) == Str("CHAFIK EL HIRACH")
  {
    AppSettingFound(AppAuthorKey, "author", "CHAFIK EL HIRACH");
  }

  /** Looking up "app.<key>" in the default tree is looking up key in its app section. */
  lemma DefaultAppLookup(fullKey: string, key: string, rest: seq<string>)
    requires '.' !in key
    requires Split(fullKey, '.') == ["app", key] + rest
    ensures Lookup(DefaultConfig, Split(fullKey, '.')) == Lookup(AppSettings, [key] + rest)
  {
    var keys := ["app", key] + rest;
    assert keys[0] == "app" && keys[1..] == [key] + rest;
    assert "app" in DefaultConfig.entries && DefaultConfig.entries["app"] == AppSettings;
  }

  lemma AppSettingFound(fullKey: string, key: string, value: string)
    requires fullKey == "app." + key
    requires '.' !in key && '{' !in value
    requires key in AppSettings.entries && AppSettings.entries[key] == Str(value)
    ensures ConfigGet(DefaultConfig, fullKey, Null) == Str(value)
  {
    assert fullKey == "app" + "." + key;
    SplitKey2("app", key);
    assert Split(fullKey, '.') == ["app", key] + [];
    DefaultAppLookup(fullKey, key, []);
    assert Lookup(AppSettings, [key]) == Some(Str(value));
    NoBraceUnchanged(value);
  }

  /** A key absent from the application settings falls back to the default, which
      keeps its tags; so does a key that continues below a string value with a
      segment holding no digit, the segments PHP's isset rejects as string offsets. */
  lemma MissingAppKeyGivesDefault(key: string, rest: string, fallback: Value)
    requires '.' !in key && '.' !in rest
    requires forall i :: 0 <= i < |rest| ==> !IsDigit(rest[i])
    requires key !in AppSettings.entries || AppSettings.entries[key].Str?
    ensures key !in AppSettings.entries ==> ConfigGet(DefaultConfig, "app." + key, fallback) == fallback
    ensures ConfigGet(DefaultConfig, "app." + key + "." + rest, fallback) == fallback
  {
    var k2 := "app." + key;
    var k3 := "app." + key + "." + rest;
    assert k2 == "app" + "." + key;
    assert k3 == "app" + "." + key + "." + rest;
    SplitKey2("app", key);
    SplitKey3("app", key, rest);
    assert Split(k2, '.') == ["app", key] + [];
    assert Split(k3, '.') == ["app", key] + [rest];
    DefaultAppLookup(k2, key, []);
    DefaultAppLookup(k3, key, [rest]);
    assert ([key] + [rest])[1..] == [rest];
  }
}
