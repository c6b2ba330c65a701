/** The letter pipeline (generer-lettre.php): from the posted form to a PDF letter,
    an email carrying it and one more ledger record.

    PhpWord, the docx2pdf.sh conversion, PHPMailer and the filesystem are not
    interpreted: what they answer (the template loaded, the exit code, the PDF
    present, the mail accepted, a file readable) is read from an Environment value,
    together with the clock, the directory of the script, filter_var's verdict and
    iconv's transliteration. The request is a method that records, in order, the
    effects it causes. */
module LetterPipeline {
  import opened PhpStrings
  import opened Config
  import opened EmailTemplate
  import Ledger

  // ---------------------------------------------------------------------------
  // The PDF file name (generer-lettre.php:212)

  /** The characters str_replace turns into "_" in the company name. */
  const PathChars: set<char> := {' ', '/', '\\'}

  /** The company name with every space, slash and backslash replaced by "_", then
      ".pdf": the file therefore lands in the letters folder itself. */
  function PdfFileName(company: string): (r: string)
    ensures |r| == |company| + 4 && r[|company|..] == ".pdf"
    ensures forall i :: 0 <= i < |company| ==> r[i] !in PathChars
    ensures forall i :: 0 <= i < |company| ==> r[i] == if company[i] in PathChars then '_' else company[i]
  {
    ReplaceChars(company, PathChars, '_') + ".pdf"
  }

  /** Sanitising is idempotent: a sanitised stem is its own file name. */
  lemma PdfStemStable(company: string)
    ensures PdfFileName(PdfFileName(company)[..|company|]) == PdfFileName(company)
  {
    var stem := PdfFileName(company)[..|company|];
    assert forall i :: 0 <= i < |stem| ==> stem[i] !in PathChars;
    assert PdfFileName(stem)[..|stem|] == stem;
  }

  /** Distinct companies can share a PDF: "A B", "A/B" and "A_B" all give "A_B.pdf",
      so a later letter overwrites an earlier one. */
  lemma PdfNamesCollide(a: string, b: string)
    ensures PdfFileName(a + " " + b) == PdfFileName(a + "/" + b) == PdfFileName(a + "_" + b)
  {
    var n1 := PdfFileName(a + " " + b);
    var n2 := PdfFileName(a + "/" + b);
    var n3 := PdfFileName(a + "_" + b);
    assert |n1| == |n2| == |n3|;
    forall i | 0 <= i < |n1|
      ensures n1[i] == n2[i] == n3[i]
    {
      if i < |a| + 1 + |b| {
        if i < |a| {
          assert (a + " " + b)[i] == (a + "/" + b)[i] == (a + "_" + b)[i] == a[i];
        } else if i == |a| {
        } else {
          assert (a + " " + b)[i] == (a + "/" + b)[i] == (a + "_" + b)[i] == b[i - |a| - 1];
        }
      }
    }
  }

  // ---------------------------------------------------------------------------
  // The CV attachment name (generer-lettre.php:127-135)

  predicate IsAlnum(c: char)
  {
    'a' <= c <= 'z' || 'A' <= c <= 'Z' || '0' <= c <= '9'
  }

  /** The text after its leading run of characters outside [a-zA-Z0-9]. */
  function DropNonAlnum(s: string): (r: string)
    ensures |r| <= |s| && r == s[|s| - |r|..]
    ensures r == [] || IsAlnum(r[0])
    ensures forall i :: 0 <= i < |s| - |r| ==> !IsAlnum(s[i])
  {
    if s == [] || IsAlnum(s[0]) then s else DropNonAlnum(s[1..])
  }

  /** Dropping the leading run of a + t, where t is empty or opens with an
      alphanumeric, only drops from a. */
  lemma {:induction false} DropNonAlnumAppend(a: string, t: string)
    requires t == [] || IsAlnum(t[0])
    ensures DropNonAlnum(a + t) == DropNonAlnum(a) + t
  {
    if a == [] {
      assert a + t == t;
    } else if !IsAlnum(a[0]) {
      assert (a + t)[1..] == a[1..] + t;
      DropNonAlnumAppend(a[1..], t);
    }
  }

  /** The alphanumeric characters of s, in order. */
  function Alnums(s: string): string
  {
    if s == [] then [] else (if IsAlnum(s[0]) then [s[0]] else []) + Alnums(s[1..])
  }

  lemma {:induction false} AlnumsDropped(s: string)
    ensures Alnums(DropNonAlnum(s)) == Alnums(s)
  {
    if s != [] && !IsAlnum(s[0]) {
      AlnumsDropped(s[1..]);
    }
  }

  /** preg_replace('/[^a-zA-Z0-9]+/', '_', s): every maximal run of characters
      outside [a-zA-Z0-9] becomes a single "_". */
  function UnderscoreRuns(s: string): (r: string)
    ensures s == [] <==> r == []
    ensures s != [] ==> r[0] == if IsAlnum(s[0]) then s[0] else '_'
    ensures Alnums(r) == Alnums(s)
    decreases |s|
  {
    if s == [] then []
    else if IsAlnum(s[0]) then
      assert ([s[0]] + UnderscoreRuns(s[1..]))[1..] == UnderscoreRuns(s[1..]);
      [s[0]] + UnderscoreRuns(s[1..])
    else
      AlnumsDropped(s);
      assert ("_" + UnderscoreRuns(DropNonAlnum(s)))[1..] == UnderscoreRuns(DropNonAlnum(s));
      "_" + UnderscoreRuns(DropNonAlnum(s))
  }

  /** The replacement works piece by piece across a cut before an alphanumeric. */
  lemma {:induction false} UnderscoreRunsSplit(a: string, t: string)
    requires t == [] || IsAlnum(t[0])
    ensures UnderscoreRuns(a + t) == UnderscoreRuns(a) + UnderscoreRuns(t)
    decreases |a|
  {
    if a == [] {
      assert a + t == t;
    } else if IsAlnum(a[0]) {
      assert (a + t)[0] == a[0];
      assert (a + t)[1..] == a[1..] + t;
      UnderscoreRunsSplit(a[1..], t);
    } else {
      assert (a + t)[0] == a[0];
      DropNonAlnumAppend(a, t);
      UnderscoreRunsSplit(DropNonAlnum(a), t);
    }
  }

  /** A whole run of other characters, up to the next alphanumeric, becomes one "_". */
  lemma UnderscoreRunsRun(w: string, b: string)
    requires w != [] && forall i :: 0 <= i < |w| ==> !IsAlnum(w[i])
    requires b == [] || IsAlnum(b[0])
    ensures UnderscoreRuns(w + b) == "_" + UnderscoreRuns(b)
  {
    DropNonAlnumAppend(w, b);
    assert (w + b)[0] == w[0];
  }

  /** Made of [a-zA-Z0-9_] with no two "_" in a row. */
  predicate Separated(s: string)
  {
    (forall i :: 0 <= i < |s| ==> IsAlnum(s[i]) || s[i] == '_') &&
    (forall i :: 0 <= i < |s| - 1 ==> !(s[i] == '_' && s[i + 1] == '_'))
  }

  /** The shape of every name the normaliser produces: [A-Z0-9_], no "__", and no
      "_" at either end. */
  predicate CanonicalName(n: string)
  {
    (forall i :: 0 <= i < |n| ==> 'A' <= n[i] <= 'Z' || '0' <= n[i] <= '9' || n[i] == '_') &&
    (forall i :: 0 <= i < |n| - 1 ==> !(n[i] == '_' && n[i + 1] == '_')) &&
    (n == [] || (n[0] != '_' && n[|n| - 1] != '_'))
  }

  /** The normaliser applied to the transliterated name: runs to "_", trim "_",
      strtoupper. */
  function NormalizeName(ascii: string): string
  {
    Upper(Trim(UnderscoreRuns(ascii), {'_'}))
  }

  /** The attachment name: "CV_" + the normalised name, or CANDIDAT when that is
      empty, + ".pdf". The name is trimmed, then transliterated by iconv. */
  function CvFileName(fullName: string, translit: string -> string): string
  {
    "CV_" + CvStem(NormalizeName(translit(TrimWs(fullName)))) + ".pdf"
  }

  /** The normalised name, or CANDIDAT when nothing of it is left. */
  function CvStem(n: string): string
  {
    if n != "" then n else "CANDIDAT"
  }

  lemma {:induction false} UnderscoreRunsSeparated(s: string)
    ensures Separated(UnderscoreRuns(s))
    decreases |s|
  {
    if s == [] {
    } else if IsAlnum(s[0]) {
      UnderscoreRunsSeparated(s[1..]);
      var t := UnderscoreRuns(s[1..]);
      assert UnderscoreRuns(s) == [s[0]] + t;
    } else {
      var d := DropNonAlnum(s);
      UnderscoreRunsSeparated(d);
      var t := UnderscoreRuns(d);
      assert UnderscoreRuns(s) == "_" + t;
      assert t == [] || IsAlnum(t[0]);
    }
  }

  /** A separated text is left as it is by the run replacement. */
  lemma {:induction false} UnderscoreRunsFixed(s: string)
    requires Separated(s)
    ensures UnderscoreRuns(s) == s
    decreases |s|
  {
    if s != [] {
      var rest := s[1..];
      SeparatedSlice(s, 1, |s|);
      UnderscoreRunsFixed(rest);
      if IsAlnum(s[0]) {
        assert UnderscoreRuns(s) == [s[0]] + UnderscoreRuns(rest);
      } else {
        assert s[0] == '_';
        assert rest == [] || IsAlnum(rest[0]) by {
          if rest != [] {
            assert s[1] == rest[0];
          }
        }
        assert DropNonAlnum(rest) == rest;
        assert UnderscoreRuns(s) == "_" + UnderscoreRuns(rest);
      }
      assert s == [s[0]] + rest;
    }
  }

  /** A substring of a separated text is separated. */
  lemma SeparatedSlice(s: string, lo: int, hi: int)
    requires Separated(s) && 0 <= lo <= hi <= |s|
    ensures Separated(s[lo..hi])
  {
    var t := s[lo..hi];
    assert forall i :: 0 <= i < |t| ==> t[i] == s[lo + i];
  }

  /** Trimming "_" off a separated text leaves a separated text with no "_" at
      either end. */
  lemma TrimUnderscoresSeparated(u: string)
    requires Separated(u)
    ensures var t := Trim(u, {'_'});
      Separated(t) && (t == [] || (t[0] != '_' && t[|t| - 1] != '_'))
  {
    var l := TrimLeft(u, {'_'});
    var t := TrimRight(l, {'_'});
    SeparatedSlice(u, |u| - |l|, |u|);
    SeparatedSlice(l, 0, |t|);
    assert t != [] ==> t[0] == l[0];
  }

  /** Upper-casing a separated text with no "_" at its ends gives a canonical name. */
  lemma UpperCanonical(t: string)
    requires Separated(t) && (t == [] || (t[0] != '_' && t[|t| - 1] != '_'))
    ensures CanonicalName(Upper(t))
  {
    var n := Upper(t);
    assert forall i :: 0 <= i < |n| ==> (n[i] == '_' <==> t[i] == '_');
  }

  /** Whatever the input, the normalised name is canonical. */
  lemma NormalizeCanonical(ascii: string)
    ensures CanonicalName(NormalizeName(ascii))
  {
    UnderscoreRunsSeparated(ascii);
    TrimUnderscoresSeparated(UnderscoreRuns(ascii));
    UpperCanonical(Trim(UnderscoreRuns(ascii), {'_'}));
  }

  /** A canonical name normalises to itself, so normalising twice is normalising
      once. */
  lemma NormalizeFixed(n: string)
    requires CanonicalName(n)
    ensures NormalizeName(n) == n
  {
    assert Separated(n);
    UnderscoreRunsFixed(n);
    TrimUnchanged(n, {'_'});
    assert Upper(n) == n;
  }

  lemma NormalizeIdempotent(ascii: string)
    ensures NormalizeName(NormalizeName(ascii)) == NormalizeName(ascii)
  {
    NormalizeCanonical(ascii);
    NormalizeFixed(NormalizeName(ascii));
  }

  /** A purely alphanumeric name is just upper-cased. */
  lemma AlnumNameUpcased(ascii: string)
    requires forall i :: 0 <= i < |ascii| ==> IsAlnum(ascii[i])
    ensures NormalizeName(ascii) == Upper(ascii)
  {
    UnderscoreRunsFixed(ascii);
    TrimUnchanged(ascii, {'_'});
  }

  /** A name of capital letters only is canonical. */
  lemma CapitalsCanonical(n: string)
    requires forall i :: 0 <= i < |n| ==> 'A' <= n[i] <= 'Z'
    ensures CanonicalName(n)
  {
  }

  /** The CV attachment name is "CV_" + a non-empty canonical name + ".pdf". */
  lemma CvFileNameShape(fullName: string, translit: string -> string)
    ensures var r := CvFileName(fullName, translit);
      |r| > 7 && r[..3] == "CV_" && r[|r| - 4..] == ".pdf" &&
      r[3..|r| - 4] != [] && CanonicalName(r[3..|r| - 4])
  {
    var n := NormalizeName(translit(TrimWs(fullName)));
    NormalizeCanonical(translit(TrimWs(fullName)));
    StemCanonical(n);
    Framed(CvStem(n));
  }

  lemma StemCanonical(n: string)
    requires CanonicalName(n)
    ensures CvStem(n) != [] && CanonicalName(CvStem(n))
  {
    if n == "" {
      CapitalsCanonical("CANDIDAT");
    }
  }

  lemma Framed(stem: string)
    ensures var r := "CV_" + stem + ".pdf";
      |r| == |stem| + 7 && r[..3] == "CV_" && r[|r| - 4..] == ".pdf" && r[3..|r| - 4] == stem
  {
  }

  // ---------------------------------------------------------------------------
  // The email body (generer-lettre.php:81-111)

  /** The values that go into the body besides the company. */
  datatype Sender = Sender(name: string, email: string, portfolio: string, telephone: string, signatureImage: string)

  /** The six placeholders and their values, in the order str_replace applies them. */
  function Placeholders(company: string, s: Sender): seq<(string, string)>
  {
    [("{entreprise}", company), ("{nom_expediteur}", s.name), ("{email_expediteur}", s.email),
     ("{portfolio_url}", s.portfolio), ("{telephone}", s.telephone), ("{signature_image}", s.signatureImage)]
  }

  /** str_replace with arrays: each pair works on the result of the previous one. */
  function SubstituteBody(template: string, company: string, s: Sender): string
  {
    ReplaceEach(template, Placeholders(company, s))
  }

  /** Every placeholder begins with "{". */
  lemma PlaceholdersOpenWithBrace(company: string, s: Sender)
    ensures forall j :: 0 <= j < 6 ==> |Placeholders(company, s)[j].0| > 0 && Placeholders(company, s)[j].0[0] == '{'
  {
  }

  /** A text without "{" passes through the remaining substitutions unchanged. */
  lemma NoBraceSurvives(t: string, pairs: seq<(string, string)>)
    requires '{' !in t
    requires forall j :: 0 <= j < |pairs| ==> |pairs[j].0| > 0 && pairs[j].0[0] == '{'
    ensures ReplaceEach(t, pairs) == t
  {
    forall j | 0 <= j < |pairs|
      ensures !Contains(t, pairs[j].0)
    {
      NotContainsFirstChar(t, pairs[j].0);
    }
    ReplaceEachAbsent(t, pairs);
  }

  /** A text that is exactly the pattern becomes the replacement. */
  lemma ReplaceAllWhole(p: string, r: string)
    requires |p| > 0
    ensures ReplaceAll(p, p, r) == r
  {
    assert p[|p|..] == [];
    assert ReplaceAll(p, p, r) == r + ReplaceAll([], p, r);
  }

  /** Text before the first occurrence that cannot start the pattern is copied. */
  lemma {:induction false} ReplaceAllSkipsPrefix(a: string, t: string, p: string, r: string)
    requires |p| > 0 && p[0] !in a
    ensures ReplaceAll(a + t, p, r) == a + ReplaceAll(t, p, r)
    decreases |a|
  {
    if a != [] {
      var s := a + t;
      assert s[0] == a[0] && s[0] != p[0];
      if |s| >= |p| {
        assert s[..|p|] != p;
      }
      assert s[1..] == a[1..] + t;
      ReplaceAllSkipsPrefix(a[1..], t, p, r);
    } else {
      assert a + t == t;
    }
  }

  /** A company written around a single {entreprise} lands in the body verbatim when
      neither it nor the surrounding text contains "{". */
  lemma CompanyInserted(before: string, after: string, company: string, s: Sender)
    requires '{' !in before && '{' !in after && '{' !in company
    ensures SubstituteBody(before + "{entreprise}" + after, company, s) == before + company + after
  {
    var pairs := Placeholders(company, s);
    var p := "{entreprise}";
    PlaceholdersOpenWithBrace(company, s);
    ReplaceAllSkipsPrefix(before, p + after, p, company);
    assert before + p + after == before + (p + after);
    assert (p + after)[..|p|] == p && (p + after)[|p|..] == after;
    NotContainsFirstChar(after, p);
    ReplaceAllAbsent(after, p, company);
    assert ReplaceAll(p + after, p, company) == company + after;
    var once := before + company + after;
    assert ReplaceAll(before + p + after, p, company) == once;
    assert '{' !in once;
    NoBraceSurvives(once, pairs[1..]);
  }

  /** The steps are chained: a company value that is itself "{nom_expediteur}" is
      replaced by the sender's name at the next step. */
  lemma CompanyPlaceholderCascades(s: Sender)
    requires '{' !in s.name
    ensures SubstituteBody("{entreprise}", "{nom_expediteur}", s) == s.name
  {
    var pairs := Placeholders("{nom_expediteur}", s);
    PlaceholdersOpenWithBrace("{nom_expediteur}", s);
    ReplaceAllWhole("{entreprise}", "{nom_expediteur}");
    ReplaceAllWhole("{nom_expediteur}", s.name);
    assert SubstituteBody("{entreprise}", "{nom_expediteur}", s) == ReplaceEach("{nom_expediteur}", pairs[1..]);
    assert ReplaceEach("{nom_expediteur}", pairs[1..]) == ReplaceEach(s.name, pairs[2..]);
    NoBraceSurvives(s.name, pairs[2..]);
  }

  // ---------------------------------------------------------------------------
  // Reading the configuration (generer-lettre.php:81-87, 114-128)

  const BodyTemplateKey: string := "email" + "." + "body_template"
  const CandidateNameKey: string := "candidat" + "." + "nom"
  const CandidateEmailKey: string := "candidat" + "." + "email"
  const PortfolioKey: string := "candidat" + "." + "portfolio_url"
  const TelephoneKey: string := "candidat" + "." + "telephone"
  const FromNameKey: string := "email" + "." + "from" + "." + "name"
  const FromEmailKey: string := "email" + "." + "from" + "." + "email"
  const SignatureImageKey: string := "email" + "." + "from" + "." + "signature_image"
  const CvPathKey: string := "files" + "." + "cv_path"
  const LettersFolderKey: string := "files" + "." + "lettres_folder"

  /** The sender values, each with its chain of fallbacks; the candidate fields win. */
  function SenderOf(config: Value): Sender
  {
    Sender(
      PhpToString(ConfigGet(config, CandidateNameKey, ConfigGet(config, FromNameKey, Str("Nom non configur\U{00E9}")))),
      PhpToString(ConfigGet(config, CandidateEmailKey, ConfigGet(config, FromEmailKey, Str("Email non configur\U{00E9}")))),
      PhpToString(ConfigGet(config, PortfolioKey, Str("Portfolio non configur\U{00E9}"))),
      PhpToString(ConfigGet(config, TelephoneKey, Str(""))),
      PhpToString(ConfigGet(config, SignatureImageKey, Str(""))))
  }

  /** The configured body template as addSignatureToEmailTemplate receives it. */
  function BodyTemplate(config: Value): string
  {
    PhpToString(ConfigGet(config, BodyTemplateKey, Null))
  }

  /** The body: the signature added to the configured template, then the six
      placeholders substituted. The telephone of the signature line is the one
      config.local.php holds; spans are the signature matches in the template. */
  function EmailBody(config: Value, company: string, localTelephone: string, spans: seq<Span>): string
    requires SpansFit(BodyTemplate(config), spans)
  {
    SubstituteBody(AddSignature(BodyTemplate(config), localTelephone, spans), company, SenderOf(config))
  }

  // ---------------------------------------------------------------------------
  // Attachments (generer-lettre.php:114-150)

  datatype Attachment = Attachment(path: string, name: string)

  /** The CV, when files.cv_path is not PHP-empty and names a readable file. */
  function CvAttachment(config: Value, appDir: string, cvReadable: bool, translit: string -> string): Option<Attachment>
  {
    var cvRelative := ConfigGet(config, CvPathKey, Null);
    if PhpEmptyValue(cvRelative) || !cvReadable then None
    else
      var fullName := ConfigGet(config, CandidateNameKey, ConfigGet(config, FromNameKey, Str("Candidat")));
      Some(Attachment(appDir + "/" + TrimLeft(PhpToString(cvRelative), {'\\', '/'}),
                      CvFileName(PhpToString(fullName), translit)))
  }

  /** The letter, when the PDF is readable, under the company name as typed. */
  function LetterAttachment(config: Value, appDir: string, company: string, pdfName: string,
                            letterReadable: bool): Option<Attachment>
  {
    var folder := TrimRight(PhpToString(ConfigGet(config, LettersFolderKey, Str("lettre/"))), {'\\', '/'});
    if letterReadable then
      Some(Attachment(appDir + "/" + folder + "/" + pdfName, "Lettre_de_motivation_" + company + ".pdf"))
    else None
  }

  function Present(a: Option<Attachment>): seq<Attachment>
  {
    if a.Some? then [a.value] else []
  }

  /** The CV is attached exactly when its path is set and readable, and then under a
      canonical "CV_....pdf" name; the letter keeps the unsanitised company name,
      while the file it points at is the sanitised one. */
  lemma AttachmentRules(config: Value, appDir: string, company: string, cvReadable: bool, letterReadable: bool,
                        translit: string -> string)
    ensures CvAttachment(config, appDir, cvReadable, translit).Some? <==>
      !PhpEmptyValue(ConfigGet(config, CvPathKey, Null)) && cvReadable
    ensures LetterAttachment(config, appDir, company, PdfFileName(company), letterReadable).Some? <==> letterReadable
    ensures letterReadable ==>
      var a := LetterAttachment(config, appDir, company, PdfFileName(company), letterReadable).value;
      a.name == "Lettre_de_motivation_" + company + ".pdf" &&
      a.path[|a.path| - |company| - 4..] == PdfFileName(company)
  {
  }

  // ---------------------------------------------------------------------------
  // The request (generer-lettre.php:170-302)

  /** The form fields after the defaults and trim; the date is not trimmed and
      defaults to today's date as the French long format writes it. */
  datatype Form = Form(company: string, address: string, email: string, date: string)

  function ReadForm(post: map<string, string>, today: string): Form
  {
    Form(
      TrimWs(PostField(post, "entreprise", DefaultCompany)),
      TrimWs(PostField(post, "adresse", DefaultAddress)),
      TrimWs(PostField(post, "email", "")),
      PostField(post, "date", today))
  }

  /** The form defaults, as concatenations so that the verifier does not evaluate
      trim on them eagerly. */
  const DefaultCompany: string := "Nom_de_ton" + "_entreprise"
  const DefaultAddress: string := "123 Rue de Paris," + " 75000 Paris"

  /** $_POST[key] ?? fallback. */
  function PostField(post: map<string, string>, key: string, fallback: string): string
  {
    if key in post then post[key] else fallback
  }

  /** What the libraries, the filesystem and the clock answer during one request. */
  datatype Environment = Environment(
    isValidEmail: string -> bool,     // filter_var(..., FILTER_VALIDATE_EMAIL)
    translit: string -> string,       // iconv('UTF-8', 'ASCII//TRANSLIT', ...)
    today: string,                    // IntlDateFormatter, fr_FR, LONG
    now: string,                      // date('Y-m-d H:i:s')
    appDir: string,                   // __DIR__
    templateExists: bool,             // file_exists(files.template_path)
    templateLoads: bool,              // new TemplateProcessor(...) does not throw
    docxSaved: bool,                  // temp.docx exists after saveAs
    scriptExists: bool,               // docx2pdf.sh exists
    exitCode: int,                    // exec's return code
    pdfExists: bool,                  // the PDF exists after the conversion
    cvReadable: bool,                 // is_file && is_readable on the CV
    letterReadable: bool,             // is_file && is_readable on the letter
    mailAccepted: bool,               // PHPMailer::send() returns without throwing
    localTelephone: string,           // candidat.telephone of config.local.php, or ""
    signatureSpans: seq<Span>)        // the signature matches in the body template

  /** What sendAutomaticEmail hands to PHPMailer: the recipient, the HTML body and
      the attachments in the order they are added. */
  datatype Mail = Mail(to: string, body: string, attachments: seq<Attachment>)

  datatype Effect =
    | FillTemplate(form: Form)        // the four setValue calls and saveAs temp.docx
    | RunConversion(pdfPath: string)  // exec of docx2pdf.sh
    | DeleteTempDocx                  // unlink(temp.docx)
    | SendMail(to: string, company: string, pdfName: string)  // one sendAutomaticEmail call
    | AppendCsv(records: seq<seq<string>>)

  datatype Outcome =
    | InvalidEmail                    // the address fails validation
    | MissingTemplate                 // the template file is absent
    | UncaughtTemplateError           // TemplateProcessor throws a PhpWord exception, which the
                                      // catch of PHPMailer's Exception class does not catch: the
                                      // request ends in a fatal error and no message is set
    | Halted                          // die(): temp.docx missing or no conversion script
    | ConversionFailed(returnCode: int)
    | Generated(emailSent: bool)

  /** The folder the PDF is written to: files.lettres_folder with its final "/"
      removed, under the script directory. */
  function LetterFolder(config: Value, appDir: string): string
  {
    appDir + "/" + TrimRight(PhpToString(ConfigGet(config, LettersFolderKey, Str("lettre/"))), {'/'})
  }

  /** The mail that sendAutomaticEmail($email, $entreprise, $nomFichierPDF) builds. */
  function ComposeMail(config: Value, env: Environment, to: string, company: string, pdfName: string): Mail
    requires SpansFit(BodyTemplate(config), env.signatureSpans)
  {
    Mail(to, EmailBody(config, company, env.localTelephone, env.signatureSpans),
         MailFiles(config, env, company, pdfName))
  }

  /** The attachments in the order sendAutomaticEmail adds them: the CV, then the letter. */
  function MailFiles(config: Value, env: Environment, company: string, pdfName: string): seq<Attachment>
  {
    Present(CvAttachment(config, env.appDir, env.cvReadable, env.translit)) +
    Present(LetterAttachment(config, env.appDir, company, pdfName, env.letterReadable))
  }

  /** The attachments of two optional files, in order: as many as are present, the
      first one first, the second one last. */
  lemma PresentPair(a: Option<Attachment>, b: Option<Attachment>)
    ensures var r := Present(a) + Present(b);
      |r| == (if a.Some? then 1 else 0) + (if b.Some? then 1 else 0) &&
      (a.Some? ==> r[0] == a.value) &&
      (b.Some? ==> r[|r| - 1] == b.value)
  {
  }

  /** The mail carries the CV first when the CV is attached, the letter of this
      company last when it is readable, and nothing else. */
  lemma MailFilesOrdered(config: Value, env: Environment, company: string)
    ensures var files := MailFiles(config, env, company, PdfFileName(company));
      var cv := CvAttachment(config, env.appDir, env.cvReadable, env.translit);
      |files| == (if cv.Some? then 1 else 0) + (if env.letterReadable then 1 else 0) &&
      (cv.Some? ==> files[0].name[..3] == "CV_") &&
      (env.letterReadable ==>
        files[|files| - 1].name == "Lettre_de_motivation_" + company + ".pdf")
  {
    var cv := CvAttachment(config, env.appDir, env.cvReadable, env.translit);
    var letter := LetterAttachment(config, env.appDir, company, PdfFileName(company), env.letterReadable);
    PresentPair(cv, letter);
    AttachmentRules(config, env.appDir, company, env.cvReadable, env.letterReadable, env.translit);
    if cv.Some? {
      var fullName := ConfigGet(config, CandidateNameKey, ConfigGet(config, FromNameKey, Str("Candidat")));
      assert cv.value.name == CvFileName(PhpToString(fullName), env.translit);
      CvFileNameShape(PhpToString(fullName), env.translit);
    }
  }

  /** The record written after a conversion, in the header's column order. */
  function LedgerRecord(now: string, form: Form, pdfName: string, emailSent: bool): (r: seq<string>)
    ensures |r| == |Ledger.LedgerHeader|
  {
    [now, form.company, form.address, form.email, form.date, pdfName, if emailSent then "Oui" else "Non", ""]
  }

  /** What fputcsv writes: the header first only when the file did not exist. */
  function WrittenRecords(file: Option<seq<seq<string>>>, record: seq<string>): seq<seq<string>>
  {
    if file.None? then [Ledger.LedgerHeader, record] else [record]
  }

  /** The file after fopen('a') and the writes. */
  function AppendRecord(file: Option<seq<seq<string>>>, record: seq<string>): Option<seq<seq<string>>>
  {
    Some((if file.None? then [] else file.value) + WrittenRecords(file, record))
  }

  /** The success gate: the PDF is there and the script exited with exactly 0. */
  predicate Converted(env: Environment)
  {
    env.pdfExists && env.exitCode == 0
  }

  /** The POST branch of the page: the form is read, the gates are passed in the
      order the page checks them, then the letter is delivered. */
  method HandleGenerate(post: map<string, string>, config: Value, env: Environment, csv: Option<seq<seq<string>>>)
    returns (outcome: Outcome, effects: seq<Effect>, newCsv: Option<seq<seq<string>>>)
    ensures var form := ReadForm(post, env.today);
      (outcome == InvalidEmail <==> !env.isValidEmail(form.email)) &&
      (outcome == InvalidEmail ==> effects == [])
    ensures outcome.Generated? <==>
      env.isValidEmail(ReadForm(post, env.today).email) && env.templateExists && env.templateLoads &&
      env.docxSaved && env.scriptExists && Converted(env)
    ensures !outcome.Generated? ==> newCsv == csv
    ensures var valid := env.isValidEmail(ReadForm(post, env.today).email);
      (outcome.MissingTemplate? <==> valid && !env.templateExists) &&
      (outcome.UncaughtTemplateError? <==> valid && env.templateExists && !env.templateLoads) &&
      (outcome.Halted? <==> valid && env.templateExists && env.templateLoads && (!env.docxSaved || !env.scriptExists)) &&
      (outcome.ConversionFailed? <==>
        valid && env.templateExists && env.templateLoads && env.docxSaved && env.scriptExists && !Converted(env))
    ensures outcome.MissingTemplate? || outcome.UncaughtTemplateError? ==> effects == []
    ensures outcome.Halted? ==> effects == [FillTemplate(ReadForm(post, env.today))]
    ensures outcome.ConversionFailed? ==>
      var form := ReadForm(post, env.today);
      outcome.returnCode == env.exitCode &&
      effects == [FillTemplate(form), RunConversion(LetterFolder(config, env.appDir) + "/" + PdfFileName(form.company))]
    ensures outcome.Generated? ==>
      var form := ReadForm(post, env.today);
      var pdfName := PdfFileName(form.company);
      var record := LedgerRecord(env.now, form, pdfName, env.mailAccepted);
      outcome.emailSent == env.mailAccepted &&
      newCsv == AppendRecord(csv, record) &&
      effects == [FillTemplate(form), RunConversion(LetterFolder(config, env.appDir) + "/" + pdfName),
                  DeleteTempDocx, SendMail(form.email, form.company, pdfName),
                  AppendCsv(WrittenRecords(csv, record))]
  {
    var form := ReadForm(post, env.today);
    newCsv := csv;
    if !env.isValidEmail(form.email) {
      return InvalidEmail, [], newCsv;
    }
    if !env.templateExists {
      return MissingTemplate, [], newCsv;
    }
    if !env.templateLoads {
      return UncaughtTemplateError, [], newCsv;
    }
    effects := [FillTemplate(form)];
    if !env.docxSaved {
      return Halted, effects, newCsv;
    }
    var pdfName := PdfFileName(form.company);
    var pdfPath := LetterFolder(config, env.appDir) + "/" + pdfName;
    if !env.scriptExists {
      return Halted, effects, newCsv;
    }
    effects := [FillTemplate(form), RunConversion(pdfPath)];
    if !Converted(env) {
      return ConversionFailed(env.exitCode), effects, newCsv;
    }
    // The temporary DOCX goes, the mail is attempted once, and the record is
    // appended whether or not the mail went out.
    var record := LedgerRecord(env.now, form, pdfName, env.mailAccepted);
    effects := [FillTemplate(form), RunConversion(pdfPath), DeleteTempDocx, SendMail(form.email, form.company, pdfName),
                AppendCsv(WrittenRecords(csv, record))];
    newCsv := AppendRecord(csv, record);
    outcome := Generated(env.mailAccepted);
  }

  // ---------------------------------------------------------------------------
  // The appended record as the ledger page reads it back

  /** Reading the ledger after the append gives the records before it plus the new
      one; on a file created by the append, the header is the pipeline's own. */
  lemma {:induction false} AppendRecordLoaded(file: Option<seq<seq<string>>>, record: seq<string>)
    requires file.None? || |file.value| > 0
    requires |record| >= Ledger.MinColumns
    ensures var header := if file.None? then Ledger.LedgerHeader else file.value[0];
      Ledger.LoadAll(AppendRecord(file, record)) == Ledger.LoadAll(file) + [Ledger.RowMap(header, record)]
  {
    var after := AppendRecord(file, record).value;
    if file.None? {
      assert after[1..] == [record];
      Ledger.LoadRowsSingle(Ledger.LedgerHeader, record);
    } else {
      var rows := file.value;
      assert after[0] == rows[0];
      assert after[1..] == rows[1..] + [record];
      Ledger.LoadRowsAppend(rows[0], rows[1..], [record]);
      Ledger.LoadRowsSingle(rows[0], record);
    }
  }

  /** One more loaded record adds one to the count exactly when it says "Oui". */
  lemma EmailsSentAppendOne(data: seq<map<string, string>>, m: map<string, string>)
    requires "Email_Envoye" in m
    ensures Ledger.EmailsSent(data + [m]) == Ledger.EmailsSent(data) + (if m["Email_Envoye"] == "Oui" then 1 else 0)
  {
    Ledger.EmailsSentAppend(data, [m]);
    assert [m][1..] == [];
  }

  /** On a ledger written by the pipeline (missing, or headed by its header), a
      record adds one to the "emails sent" count exactly when its Email_Envoye field,
      quotes trimmed, is "Oui". */
  lemma EmailsSentAfterRecord(file: Option<seq<seq<string>>>, record: seq<string>)
    requires file.None? || (|file.value| > 0 && file.value[0] == Ledger.LedgerHeader)
    requires |record| >= |Ledger.LedgerHeader|
    ensures Ledger.EmailsSent(Ledger.LoadAll(AppendRecord(file, record))) ==
      Ledger.EmailsSent(Ledger.LoadAll(file)) + (if Trim(record[6], Ledger.QuoteChar) == "Oui" then 1 else 0)
  {
    AppendRecordLoaded(file, record);
    Ledger.StandardRecordLoaded(record);
    EmailsSentAppendOne(Ledger.LoadAll(file), Ledger.RowMap(Ledger.LedgerHeader, record));
  }

  /** The pipeline's own record adds one exactly when the mail was sent. */
  lemma EmailsSentAfterAppend(file: Option<seq<seq<string>>>, now: string, form: Form, pdfName: string, sent: bool)
    requires file.None? || (|file.value| > 0 && file.value[0] == Ledger.LedgerHeader)
    ensures Ledger.EmailsSent(Ledger.LoadAll(AppendRecord(file, LedgerRecord(now, form, pdfName, sent)))) ==
      Ledger.EmailsSent(Ledger.LoadAll(file)) + (if sent then 1 else 0)
  {
    EmailsSentAfterRecord(file, LedgerRecord(now, form, pdfName, sent));
    SentFlagUnquoted(now, form, pdfName, sent);
  }

  lemma SentFlagUnquoted(now: string, form: Form, pdfName: string, sent: bool)
    ensures Trim(LedgerRecord(now, form, pdfName, sent)[6], Ledger.QuoteChar) == "Oui" <==> sent
  {
    var flag := if sent then "Oui" else "Non";
    assert LedgerRecord(now, form, pdfName, sent)[6] == flag;
    TrimUnchanged(flag, Ledger.QuoteChar);
  }
}
