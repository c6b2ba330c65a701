# FINDint — a verified model of its core

FINDint is a small PHP web application. It turns a posted company name and
address into a cover letter (a DOCX template converted to PDF). It mails that
letter with the CV to the company, records each application in a CSV ledger and
shows the ledger and the mail logs. It also keeps its settings in a nested
configuration array and guards the author's name and the application's name
against tampering.

This project models the deterministic parts of that application in Dafny. Files
are line sequences or decoded CSV records. The template engine, the PDF
converter, the mailer and the e-mail validator are oracles passed in as
parameters. Every PHP file of the core has its own module:

- `PhpStrings` (php_strings.dfy) holds the PHP built-ins the others share:
  `trim`/`ltrim`/`rtrim` with a character set, `explode`/`implode`,
  `str_replace`, `stripos`, `strtolower`/`strtoupper` and the `(int)` cast.
- `Config` (config.dfy) covers config.php:
  - the configuration tree, which is config.local.php's tree or the built-in default tree;
  - the dotted-key lookup `getConfig`;
  - the dynamic-tag pass `processDynamicTags`.
- `ConfigSetup` (config_setup.php) covers:
  - `getValue`;
  - the CV file-name builder and the stem the form displays back;
  - the tree a POST saves to config.local.php.
- `EmailTemplate` (email_template_helpers.php) covers removing and adding the
  HTML signature of the e-mail body.
- `Ledger` (carnet-de-suivi.php) covers:
  - the in-place notes update over the ledger's lines;
  - the loader that turns CSV records into header-keyed rows;
  - the page's statistics.
- `LetterPipeline` (generer-lettre.php) covers:
  - the PDF name sanitiser;
  - the CV attachment-name normaliser;
  - the ordered placeholder substitution in the mail body;
  - the attachments;
  - the whole request, from the form to the appended ledger row.
- `LogReader` (logs.php) covers:
  - reading and parsing log lines, and classifying them by level;
  - the `usort` comparator with an in-place insertion sort;
  - the search filter, pagination, the page-link window and the statistics.
- `SecurityCheck` (verification-securite.php) covers the `SecurityChecker`
  class. Its `errors` field is appended to by every check and is never reset.
- `Copyright` (protection-droits-auteur.php) covers `checkCopyright` and the
  decision and log entry of `enforceCopyright`.

Loops that the PHP code runs step by step are Dafny methods with loop
invariants. Each is proved equal to a specification function, and the
properties are lemmas about those functions:

- `GetConfig` and `GetValueWalk`: the `foreach` over the key segments.
- `ProcessTags`: the fold of `str_replace` over the tag map.
- `UpdateNotes`: the `for` loop over the ledger array, which breaks at the first match.
- `LoadLedger`: the `fgetcsv` loop.
- `SortLogs`: `usort`.
- `CollectLogs`: the append loops.
- The `SecurityChecker` methods.
- `BuildLogMessage`: the `.=` chain.

## Model

| member | source | states |
|---|---|---|
| PhpStrings.TrimLeft | generer-lettre.php:124 | ltrim removes exactly the leading run of characters of the set: the result is a suffix whose first character is outside the set, and everything cut was in the set |
| PhpStrings.TrimRight | email_template_helpers.php:11 | rtrim removes exactly the trailing run of characters of the set: the result is a prefix whose last character is outside the set, and everything cut was in the set |
| PhpStrings.TrimUnchanged | carnet-de-suivi.php:12-13 | a string that neither starts nor ends with a character of the set is left unchanged by trim (Trim is trim with a character list, TrimWs trim's default white-space list) |
| PhpStrings.TrimKeepsOther | carnet-de-suivi.php:21 | trim never removes a character outside the set |
| PhpStrings.TrimRightStable | email_template_helpers.php:11 | rtrim leaves a string alone when its last character is outside the set |
| PhpStrings.TrimRightAppended | email_template_helpers.php:11 | rtrim of s followed by characters of the set gives back s, when s does not end in the set |
| PhpStrings.Lower | logs.php:52 | case folding keeps the length and lowers each character independently |
| PhpStrings.Upper | generer-lettre.php:134 | strtoupper keeps the length and raises each character independently |
| PhpStrings.Split | carnet-de-suivi.php:20 | explode always returns at least one piece, and no piece contains the separator |
| PhpStrings.JoinSplit | carnet-de-suivi.php:20-27 | implode of explode on the same separator gives back the original string (Join is implode) |
| PhpStrings.SplitJoin | carnet-de-suivi.php:20-27 | explode of implode gives back the fields, provided no field contains the separator |
| PhpStrings.ReplaceAllAbsent | config.php:172 | str_replace of a pattern that does not occur leaves the text unchanged (ReplaceAll is str_replace of one string) |
| PhpStrings.ReplaceAllNoNewTag | config.php:172 | one str_replace cannot create an occurrence of a tag, when the replacement neither contains the tag's first character nor starts with one of its later characters |
| PhpStrings.ReplaceEachKeepsAbsent | config.php:171-173 | a sequence of str_replace calls keeps an absent tag absent under the same condition on every replacement (ReplaceEach is str_replace with arrays) |
| PhpStrings.ReplaceEachRemovesAll | config.php:171-173 | for a tag-safe table, no searched tag survives the sequence of str_replace calls (TagSafe is that condition for a whole table) |
| PhpStrings.ReplaceEachAbsent | config.php:171-173 | a text containing none of the tags is unchanged by the sequence of str_replace calls |
| PhpStrings.ReplaceChars | generer-lettre.php:212 | str_replace of single characters by one character keeps the length and maps each position on its own |
| PhpStrings.RemoveChar | carnet-de-suivi.php:26 | str_replace of a character by '' leaves no occurrence of it and keeps every other character exactly as often as before, never lengthening the text |
| PhpStrings.RemoveCharAppend | carnet-de-suivi.php:26 | removing a character from a concatenation removes it from each part, so the characters kept stay in their order |
| PhpStrings.RemoveCharAbsent | carnet-de-suivi.php:26 | removing a character that does not occur changes nothing |
| PhpStrings.NatToString | config_setup.php:27 | the decimal form of a natural number is a non-empty run of digits |
| PhpStrings.LeadingDigitsOfNat | config_setup.php:27 | reading the decimal form back digit by digit gives the number (LeadingDigits is that reading) |
| PhpStrings.IntCastRoundTrip | config_setup.php:27 | the (int) cast of an integer's decimal form, with its sign, gives the integer saturated to PHP's 64-bit range, so exactly the integer between PHP_INT_MIN and PHP_INT_MAX (IntCast is the leading-digit reading ReadInteger, then Saturate) |
| Config.ProcessTags | config.php:160-176 | the foreach over the tag map computes processDynamicTags, and none of the four candidate tags remains in its result (ProcessDynamicTags is that function) |
| Config.DynamicTagsSafe | config.php:162-168 | the tag table is safe: every tag opens with '{' and no default value contains '{' or starts with a tag letter |
| Config.TagsRemoved | config.php:171-173 | after processDynamicTags no {candidat_…} tag occurs in the text |
| Config.TagFreeUnchanged | config.php:171-173 | a text without any of the four tags is returned unchanged |
| Config.NoBraceUnchanged | config.php:171-173 | a text without '{' is returned unchanged |
| Config.ProcessIdempotent | config.php:160-176 | processing a processed text again changes nothing |
| Config.CompanyPlaceholderKept | config.php:167 | {entreprise} is not a dynamic tag and passes through unchanged |
| Config.GetConfig | config.php:134-154 | the foreach over the key's segments returns the lookup's value, tag-processed when it is a string, or the default when a segment is missing or null (ConfigGet is that function over Lookup, the isset walk) |
| Config.LookupConcat | config.php:140-146 | walking a concatenated key path is walking the first part, then the rest from where it ended |
| Config.LookupNeverNull | config.php:141 | because isset rejects null, a non-empty walk never ends on a null value |
| Config.ConfigGetStrings | config.php:144-153 | a found string comes back with no dynamic tag in it, and a missing path returns the default exactly as given |
| Config.SplitKey2 | config.php:137 | a two-part dotted key explodes into its two parts |
| Config.SplitKey3 | config.php:137 | a three-part dotted key explodes into its three parts |
| Config.DefaultAppSettings | config.php:106-113 | without config.local.php, app.name, app.version and app.author read back as FINDint, 1.0.0 and CHAFIK EL HIRACH (LoadedConfig picks config.local.php's tree, else the default tree) |
| Config.DefaultAppName | config.php:107 | the default tree's app.name reads back as FINDint |
| Config.DefaultAppVersion | config.php:108 | the default tree's app.version reads back as 1.0.0 |
| Config.DefaultAppAuthor | config.php:109 | the default tree's app.author reads back as CHAFIK EL HIRACH |
| Config.DefaultAppLookup | config.php:106-113 | a walk under app in the default tree is a walk in the application section |
| Config.AppSettingFound | config.php:106-113 | every brace-free string setting of the default application section is returned as written |
| Config.MissingAppKeyGivesDefault | config.php:140-146 | an absent application key gives the caller's default, and so does one more segment below a string value when that segment holds no digit |
| ConfigSetup.GetValueWalk | config_setup.php:104-118 | the foreach over the segments returns the value found at the dotted path of the current tree, or the default when a segment is missing or null (GetValue is that function) |
| ConfigSetup.GetValueVersusGetConfig | config_setup.php:104-118 | getValue and getConfig agree except on found strings, where getConfig also applies processDynamicTags |
| ConfigSetup.GetValueBeforeLoad | config_setup.php:104-118 | with $currentConfig still unset, getValue returns the default for every key |
| ConfigSetup.CollapseSpaces | config_setup.php:19 | collapsing white-space runs never lengthens the name and keeps every other character, in order |
| ConfigSetup.CollapseSpacesSplit | config_setup.php:19 | a text cut before a non-space character collapses as its two parts do |
| ConfigSetup.CollapseSpacesRun | config_setup.php:19 | a whole run of white space before a non-space character or the end becomes exactly one space |
| ConfigSetup.CollapseSpacesCollapsed | config_setup.php:19 | after the collapse the only white space left is single spaces |
| ConfigSetup.CollapseSpacesFixed | config_setup.php:19 | a name whose only white space is single spaces is left unchanged by the collapse |
| ConfigSetup.StripPdfSuffix | config_setup.php:20 | removing the pdf suffix never lengthens the name |
| ConfigSetup.StripPdfOfAppended | config_setup.php:20 | a stem followed by ".pdf" loses exactly the ".pdf" |
| ConfigSetup.StripPdfOfPdfEnding | config_setup.php:20 | a name ending in "pdf" loses it, with a dot in front if there is one |
| ConfigSetup.BuildCvPath | config_setup.php:18-21 | the saved cv_path is either empty or ends in ".pdf" |
| ConfigSetup.CvPathRoundTrip | config_setup.php:473 | the CV name the form displays (DisplayStem) for a built path is exactly the stem (CvStem) it was built from |
| ConfigSetup.StemCollapsed | config_setup.php:18-20 | every built stem has only single spaces as white space |
| ConfigSetup.StemRebuilt | config_setup.php:18-20 | a trimmed, collapsed stem that does not end in "pdf" is built into itself |
| ConfigSetup.ResaveStable | config_setup.php:473 | saving the displayed name again gives the same path, when the stem does not end in "pdf" |
| ConfigSetup.ResaveStem | config_setup.php:473 | the same round trip, stated for the stem itself |
| ConfigSetup.ResaveStripsAgain | config_setup.php:20 | for a stem ending in "pdf" the round trip is not stable: w+"pdf.pdf" is shown as w+"pdf" and saved back as w+".pdf" |
| ConfigSetup.SavedSections | config_setup.php:23-73 | the saved tree has exactly the email, candidat, files, app and notifications sections, each built from the post and the current tree (SavedTree, which SavedConfig calls with no current tree) |
| ConfigSetup.SavedEmailScalars | config_setup.php:24-41 | smtp.port and smtp.debug are (int) casts with defaults 465 and 0; from.email is candidat_email, else from_email, else ""; there is no body_text entry |
| ConfigSetup.SavedOtherScalars | config_setup.php:51-72 | auto_close is true exactly when posted; auto_close_delay is an (int) cast defaulting to 5000; cv_path is the built CV path |
| ConfigSetup.SavedConfigIgnoresCurrent | config_setup.php:47-65 | as written, poste_recherche, periode_stage, formation and the app name, version and author are always the literal defaults |
| ConfigSetup.CandidateFieldsRead | config_setup.php:47-49 | poste_recherche, periode_stage and formation are read through getValue with their literal defaults |
| ConfigSetup.AppFieldsRead | config_setup.php:60-62 | the app name, version and author are read through getValue, never from the post |
| ConfigSetup.SavedTreeKeepsCurrent | config_setup.php:47 | with the current tree loaded first, a stored poste_recherche is kept in the saved tree |
| ConfigSetup.CandidateKeepsCurrent | config_setup.php:47 | the candidate section keeps a stored poste_recherche |
| ConfigSetup.GetValueTwoSegments | config_setup.php:104-118 | getValue of "a.b" returns the value stored at a, then b |
| EmailTemplate.RemoveSpansFrom | email_template_helpers.php:9-10 | removing the matched spans leaves exactly the characters outside every span, in order (KeepFrom reads them one by one), and never lengthens the template |
| EmailTemplate.KeepNoSpans | email_template_helpers.php:9-10 | with no match the whole text from the position on is kept |
| EmailTemplate.ExtractContentWithoutSignature | email_template_helpers.php:8-13 | after the rtrim the content is empty or ends in a character outside "<br>\n\r\t " |
| EmailTemplate.RtrimEatsLetters | email_template_helpers.php:11 | rtrim takes a character set, not the word "<br>": "…" + "rb<br>" loses its final r and b |
| EmailTemplate.RemoveOneSpan | email_template_helpers.php:9-10 | removing one matched signature span leaves the text before it followed by the text after it (RemoveSpans is preg_replace given the matches) |
| EmailTemplate.SignatureKeepsPlaceholders | email_template_helpers.php:30-50 | the signature keeps {signature_image}, {nom_expediteur}, {email_expediteur} and {portfolio_url} for later substitution (SignatureHtml) |
| EmailTemplate.TelephoneLineShown | email_template_helpers.php:27-28 | a telephone that is not empty after trim puts a "Téléphone: {telephone}" line in the signature (TelephoneLine) |
| EmailTemplate.TelephoneLineEmpty | email_template_helpers.php:28 | the telephone line is empty exactly when the trimmed telephone is PHP-empty |
| EmailTemplate.TelephoneLineIff | email_template_helpers.php:27-50 | the signature differs from the no-telephone signature exactly when the trimmed telephone is not PHP-empty |
| EmailTemplate.AttachCarriesSender | email_template_helpers.php:52-66 | every branch keeps {signature_image} and {nom_expediteur}, and the default body for a blank template names {entreprise} (AttachSignature) |
| EmailTemplate.AddSignatureCarriesSender | email_template_helpers.php:20-67 | the template sent always carries the sender placeholders, and {entreprise} when it was blank (AddSignature) |
| EmailTemplate.PlaceholderNotBlank | email_template_helpers.php:52 | a template holding {signature_image} is never empty after trim |
| EmailTemplate.AddSignatureIdempotent | email_template_helpers.php:20-67 | adding the signature to a signed template returns it unchanged |
| EmailTemplate.StripAppended | email_template_helpers.php:9-11 | for a right-trimmed text followed by any run of rtrim characters and then a match that runs to the end, removing the match and right-trimming gives back the text (StripsTo); the run before the match goes with the rtrim |
| EmailTemplate.AttachRoundTrip | email_template_helpers.php:8-66 | for any signature text: in an unsigned, non-blank template signed with it, a match that starts where the signature starts (8 characters after the cleaned content, right after "<br><br>") and runs to the end is removed, and the rtrim gives back the cleaned template |
| EmailTemplate.AttachUnsigned | email_template_helpers.php:60-66 | a non-blank template without both sender placeholders becomes its cleaned content, "<br><br>" and the signature |
| EmailTemplate.BreaksStripped | email_template_helpers.php:9-11 | a match starting right after "<br><br>" is removed and the rtrim takes the breaks, giving back the right-trimmed content |
| EmailTemplate.SignatureOpensTable | email_template_helpers.php:30-31 | the signature text, whatever the telephone, opens with a newline and then "<table" (OpensTable) |
| EmailTemplate.NewlineMoved | email_template_helpers.php:30-66 | in content + "<br><br>" + a signature that opens with a newline, "<table" starts 9 characters after the content (TableAt), and the newline can be read as part of the trimmed run |
| EmailTemplate.TableSignatureStripped | email_template_helpers.php:9-11 | when the match starts at that "<table", 9 characters after the cleaned content, removing it and right-trimming takes the newline and the breaks too and gives back the content |
| EmailTemplate.AttachTableAt | email_template_helpers.php:60-66 | for an unsigned, non-blank template and a signature that opens with a newline and a table tag, "<table" sits 9 characters after the cleaned content in the signed template |
| EmailTemplate.AttachTableRoundTrip | email_template_helpers.php:8-66 | for such a signature, the match from that "<table" to the end is removed and extracting gives back the cleaned template |
| EmailTemplate.AddSignatureRoundTrip | email_template_helpers.php:8-67 | for addSignatureToEmailTemplate itself, on an unsigned, non-blank template: the signature pattern's match begins at the signature's "<table", 9 characters after the cleaned content (TableAt), and removing it from there to the end and right-trimming gives back the cleaned template (StripsTo); signing, stripping and signing again do not pile up signatures |
| EmailTemplate.ZeroTemplateIsBlank | email_template_helpers.php:52-57 | the template "0" counts as empty and gets the default body followed by the signature |
| Ledger.QuotedNotes | carnet-de-suivi.php:26 | the notes field is the notes with every '"' removed, between two '"' |
| Ledger.PatchFields | carnet-de-suivi.php:23-26 | a 6-field row is padded to 7; field 6 becomes the quoted notes; every other field keeps its text and position |
| Ledger.FirstMatchFrom | carnet-de-suivi.php:19-31 | the search returns the first matching line at or after the start, or none when no line from there matches |
| Ledger.UpdateNotes | carnet-de-suivi.php:17-31 | the loop over the array computes NotesUpdated: it patches exactly the first matching line after the header (FirstMatch) and reports whether one matched |
| Ledger.PatchRow | carnet-de-suivi.php:20-27 | the rewritten line is the patched fields joined with ';' (PatchLine) |
| Ledger.HandleNotesUpdate | carnet-de-suivi.php:10-38 | donnees_entreprises.csv is rewritten exactly when it exists and a row matches the trimmed company; the write goes to that file (NotesFile) and holds the updated lines joined by newlines |
| Ledger.RewriteLines | carnet-de-suivi.php:15-33 | the file's lines, updated in an array, report a match exactly when FirstMatch finds one, and are joined back into the NotesUpdated lines separated by newlines |
| Ledger.HeaderUntouched | carnet-de-suivi.php:19 | the update keeps the number of lines and never changes line 0 |
| Ledger.OnlyFirstMatchChanges | carnet-de-suivi.php:19-31 | only the first matching line is patched; later duplicates and all other lines are unchanged |
| Ledger.NoMatchNoChange | carnet-de-suivi.php:33-36 | with no matching row nothing is updated |
| Ledger.PatchedLineFields | carnet-de-suivi.php:20-27 | exploding the patched line gives the patched fields, when the notes hold no ';' |
| Ledger.RemoveCharSubset | carnet-de-suivi.php:26 | removing '"' adds no character that was not there |
| Ledger.RowMatchesFields | carnet-de-suivi.php:21 | a row matches exactly when it has at least 6 fields and field 1, with only '"' stripped, equals the company, case-sensitively (RowMatches) |
| Ledger.SemicolonInNotesAddsField | carnet-de-suivi.php:26 | notes containing ';' split the notes column into two fields when read back, because the split ignores quotes |
| Ledger.PatchLineUnquoted | carnet-de-suivi.php:26-27 | the patched line is the first six fields followed by ';' and the quoted notes |
| Ledger.Unquoted | carnet-de-suivi.php:56 | each value has its surrounding '"' trimmed, position by position |
| Ledger.RowMap | carnet-de-suivi.php:55-64 | every loaded row has exactly the header names within the record plus Notes and Email_Envoye as keys; a name maps to the unquoted field at its last position; a missing Notes is "" and a missing Email_Envoye is "Non" |
| Ledger.LoadLedger | carnet-de-suivi.php:41-70 | the fgetcsv loop reads candidatures.csv (LoadedFile), nothing when it is missing, and produces the loader's rows in file order (LoadAll, which skips the header and folds LoadRows over the records) |
| Ledger.Stored | carnet-de-suivi.php:14 | a file's content is present exactly when the file exists, and is that file's content |
| Ledger.LoadRecord | carnet-de-suivi.php:52-65 | one record becomes its zipped map with the two defaults |
| Ledger.ZipColumns | carnet-de-suivi.php:55-57 | the inner loop zips header[i] with the unquoted row[i] below min(header count, row count) (ZipRow) |
| Ledger.ZipRowKeys | carnet-de-suivi.php:55-57 | the zipped keys are exactly the first min(header, row) header names |
| Ledger.ZipRowValue | carnet-de-suivi.php:55-57 | a header name maps to the value at its last position |
| Ledger.LoadRowsAppend | carnet-de-suivi.php:51-67 | loading two runs of records is loading each, in order |
| Ledger.LoadRowsSingle | carnet-de-suivi.php:52-65 | a record with fewer than 6 fields is skipped, any other gives one row |
| Ledger.StandardRecordLoaded | carnet-de-suivi.php:55-64 | under the standard header, Entreprise, Email_Envoye and Notes are the unquoted fields 1, 6 and 7 |
| Ledger.LoadedColumn | carnet-de-suivi.php:55-57 | each header name within the record, also when the row is shorter than the header, maps to its unquoted field, unless a later column repeats it |
| Ledger.WithDefaultsKeeps | carnet-de-suivi.php:59-64 | the defaults never overwrite a value read from the record (WithDefaults) |
| Ledger.EmailsSent | carnet-de-suivi.php:143 | the sent count is at most the number of rows |
| Ledger.EmailsSentAppend | carnet-de-suivi.php:143 | the sent count of two runs of rows adds up |
| Ledger.CompaniesBound | carnet-de-suivi.php:139 | the distinct companies (Companies) are exactly the Entreprise values of the rows: each listed company comes from a row and every row's Entreprise is listed; there are at most as many as rows |
| Ledger.NotesWriteNotListed | carnet-de-suivi.php:11-41 | the notes form writes a file the loader never reads, so whatever it writes the loaded rows are unchanged; the column it patches, 6, is Email_Envoye in the pipeline's header, where Notes is 7 |
| Ledger.FirstRecordFrom | carnet-de-suivi.php:18-20 | the first record at or after the start that passes the update's match test (six fields, quote-trimmed company equal), or None when none does |
| Ledger.PatchRecord | carnet-de-suivi.php:21-24 | the corrected patch pads the record to the header's eight columns, puts the quote-free notes in column 7 and keeps every other field in place |
| Ledger.ListedNotesLoaded | carnet-de-suivi.php:41-70 | with the corrected update on the listed ledger, the loaded rows are the same rows in the same order except the matched one, which becomes the patched record's row |
| Ledger.LoadAround | carnet-de-suivi.php:44-70 | loading splits around a record of six fields or more: the rows before it, its row, the rows after it |
| Ledger.LoadReplaced | carnet-de-suivi.php:44-70 | replacing one such record by another of six fields or more replaces its row only |
| Ledger.PatchedRecordLoaded | carnet-de-suivi.php:55-64 | under the pipeline's header the patched record loads with its company and the notes (quotes removed), and keeps an Email_Envoye it already had |
| LetterPipeline.PdfFileName | generer-lettre.php:212 | the PDF name is the company with space, '/' and '\' replaced by '_', plus ".pdf"; the stem holds none of the three |
| LetterPipeline.PdfStemStable | generer-lettre.php:212 | sanitising a sanitised stem changes nothing |
| LetterPipeline.PdfNamesCollide | generer-lettre.php:212 | "a b", "a/b" and "a_b" give the same PDF name |
| LetterPipeline.DropNonAlnum | generer-lettre.php:132 | dropping a leading non-alphanumeric run gives a suffix that is empty or starts alphanumeric, and every dropped character is non-alphanumeric |
| LetterPipeline.DropNonAlnumAppend | generer-lettre.php:132 | a run followed by an alphanumeric text is dropped and the text kept whole |
| LetterPipeline.AlnumsDropped | generer-lettre.php:132 | dropping the run keeps every alphanumeric character |
| LetterPipeline.UnderscoreRuns | generer-lettre.php:132 | the replacement keeps emptiness, turns a leading non-alphanumeric run into '_' and keeps the alphanumeric characters, in order |
| LetterPipeline.UnderscoreRunsSplit | generer-lettre.php:132 | a name cut before an alphanumeric character is replaced as its two parts are |
| LetterPipeline.UnderscoreRunsRun | generer-lettre.php:132 | a whole non-alphanumeric run before an alphanumeric character or the end becomes exactly one '_' |
| LetterPipeline.UnderscoreRunsSeparated | generer-lettre.php:132 | after the replacement the name is [a-zA-Z0-9_] with no "__" |
| LetterPipeline.UnderscoreRunsFixed | generer-lettre.php:132 | a name already of that form is left unchanged |
| LetterPipeline.TrimUnderscoresSeparated | generer-lettre.php:133 | trimming '_' keeps the form and leaves no '_' at either end |
| LetterPipeline.UpperCanonical | generer-lettre.php:134 | upper-casing such a name gives [A-Z0-9_] with no "__" and no '_' at the ends |
| LetterPipeline.NormalizeCanonical | generer-lettre.php:128-134 | every normalised name has that canonical form (NormalizeName) |
| LetterPipeline.NormalizeFixed | generer-lettre.php:128-134 | a canonical name normalises to itself |
| LetterPipeline.NormalizeIdempotent | generer-lettre.php:128-134 | normalising twice is normalising once |
| LetterPipeline.AlnumNameUpcased | generer-lettre.php:132-134 | an alphanumeric name is only upper-cased |
| LetterPipeline.CvFileNameShape | generer-lettre.php:127-135 | the CV attachment is "CV_" + a non-empty canonical name (CANDIDAT when nothing is left) + ".pdf" (CvFileName) |
| LetterPipeline.StemCanonical | generer-lettre.php:135 | the CANDIDAT fallback keeps the stem non-empty and canonical |
| LetterPipeline.PlaceholdersOpenWithBrace | generer-lettre.php:97-104 | each of the six placeholders opens with '{' |
| LetterPipeline.NoBraceSurvives | generer-lettre.php:97-111 | a body with no '{' is unchanged by the substitution |
| LetterPipeline.CompanyInserted | generer-lettre.php:97-111 | with brace-free text and company, the body is the text with the company in place of {entreprise} (SubstituteBody) |
| LetterPipeline.CompanyPlaceholderCascades | generer-lettre.php:97-111 | a company value "{nom_expediteur}" is itself replaced by the sender's name, because each step works on the previous result |
| LetterPipeline.AttachmentRules | generer-lettre.php:122-150 | the CV is attached exactly when files.cv_path is non-empty and the file is readable; the letter exactly when readable, named "Lettre_de_motivation_" + the unsanitised company + ".pdf", from the sanitised path (CvAttachment, LetterAttachment; the folder is LetterFolder) |
| LetterPipeline.MailFilesOrdered | generer-lettre.php:117-150 | the mail carries the CV first and the letter last, one per attachment present (MailFiles; ComposeMail builds the mail from EmailBody, the template with the signature and the placeholders of SenderOf substituted) |
| LetterPipeline.LedgerRecord | generer-lettre.php:262-271 | the appended record has as many fields as the ledger header |
| LetterPipeline.HandleGenerate | generer-lettre.php:170-302 | each outcome holds exactly when its condition does: InvalidEmail iff the e-mail is invalid (no effect); MissingTemplate iff valid and the template file is missing (no effect); UncaughtTemplateError iff the file exists but fails to load, ending the request with an uncaught error, no message and no effect; Halted iff the template loaded but the DOCX was not saved or the conversion script is missing (the template was filled, nothing else); ConversionFailed iff every step ran but the PDF was not produced with exit code 0 (Converted), with that exit code reported and the template filled and the conversion run; Generated iff every step succeeded. Only Generated changes the CSV. On success the DOCX is deleted, one mail is sent and exactly one row is appended, with Email_Envoye set by the mailer's answer (the form is ReadForm) |
| LetterPipeline.AppendRecordLoaded | generer-lettre.php:273-285 | after the append the loader reads the earlier rows followed by the new row, with the header written only for a new file (AppendRecord, WrittenRecords) |
| LetterPipeline.EmailsSentAfterRecord | generer-lettre.php:269-285 | the ledger's sent count grows by one exactly when the record's Email_Envoye is Oui |
| LetterPipeline.EmailsSentAfterAppend | generer-lettre.php:269-285 | one generation adds one to the sent count exactly when the mail was accepted |
| LetterPipeline.SentFlagUnquoted | generer-lettre.php:269 | the Email_Envoye field reads back as Oui exactly when the mail was sent |
| LogReader.NonEmptyLines | logs.php:20 | the kept lines are exactly the non-empty lines of the file, each as often as it occurs |
| LogReader.NonEmptyLinesAppend | logs.php:20 | dropping empty lines from two runs of lines is dropping them from each, so the order is kept |
| LogReader.Reverse | logs.php:26 | array_reverse puts element i at position n-1-i |
| LogReader.ReadLogFile | logs.php:15-34 | a missing file gives []; otherwise the result is the non-empty lines, newest first, cut to the first limit of them when limit > 0 |
| LogReader.ReadNewestFirst | logs.php:25-26 | the last line written comes first, and the lines returned are exactly the non-empty ones |
| LogReader.ReadLimitIsPrefix | logs.php:29-31 | a positive limit keeps the first min(limit, n) of the unlimited result |
| LogReader.ParseLogLine | logs.php:37-63 | raw is always the line and the level its classification; a line starting with a timestamp gives that timestamp and the text after the following character as message, any other line an empty timestamp and itself as message |
| LogReader.ParseStampedLine | logs.php:46-49 | a line starting with a timestamp and one more character splits into that timestamp and the rest as message |
| LogReader.ParseUnstampedLine | logs.php:38-49 | a line that does not start with a timestamp keeps an empty timestamp and the whole line as message |
| LogReader.NonDigitLineUnstamped | logs.php:46 | a line whose first character is not a digit does not start with a timestamp |
| LogReader.TimestampEmptiness | logs.php:46-49 | the timestamp is empty exactly when the line does not start with one (StartsWithTimestamp is the regex of logs.php:46) |
| LogReader.ErrorKeywordWins | logs.php:52-53 | a line mentioning error or erreur, in any case, is an ERROR whatever else it says |
| LogReader.InfoWhenNoKeyword | logs.php:52-60 | a line is INFO exactly when none of the seven keywords occurs in it (Classify) |
| LogReader.ClassifyIgnoresCase | logs.php:52-60 | the level does not depend on letter case |
| LogReader.StrCmp | logs.php:109 | strcmp's sign is -1, 0 or 1 |
| LogReader.StrCmpAntisymmetric | logs.php:109 | swapping the arguments negates strcmp, and 0 means equal |
| LogReader.StrCmpTransitive | logs.php:109 | strcmp's order is transitive |
| LogReader.CompareLogs | logs.php:99-110 | the comparator answers -1, 0 or 1 |
| LogReader.CompareAntisymmetric | logs.php:99-110 | the comparator is antisymmetric and reflexive |
| LogReader.CompareTransitive | logs.php:99-110 | the comparator is transitive, so usort's order is well defined |
| LogReader.SortLogs | logs.php:99-110 | the in-place sort leaves the entries sorted by the comparator, a permutation of the input, and stable as PHP 8's usort is: for every entry x the entries tying with x keep their order (SameTies over TiedWith), so the untimestamped entries stay in collected order |
| LogReader.InsertEntry | logs.php:99-110 | one insertion step extends the sorted prefix by one, keeps the entries and keeps every tie class in order (each swap keeps both sorted runs, the entries and the ties, SwapStep) |
| LogReader.TiedWithAppend | logs.php:99-110 | taking the entries tying with x distributes over concatenation |
| LogReader.TiesTie | logs.php:99-110 | two entries that tie with the same entry tie with each other, since the comparator is a total preorder |
| LogReader.SwapKeepsTies | logs.php:99-110 | swapping an adjacent pair that compares greater than 0, as the sort does, keeps every tie class in order |
| LogReader.TimestampedFirst | logs.php:99-108 | after sorting, every entry with a timestamp comes before every entry without one |
| LogReader.NewestFirst | logs.php:109 | after sorting, timestamped entries are in non-increasing strcmp order |
| LogReader.KeepMatching | logs.php:113-117 | the filter keeps exactly the entries whose message contains the search, ignoring case (FilterBySearch) |
| LogReader.KeepMatchingAppend | logs.php:113-117 | filtering a concatenation is concatenating the filtered parts |
| LogReader.KeepMatchingSorted | logs.php:113-117 | filtering a sorted list keeps it sorted |
| LogReader.KeepMatchingPermutation | logs.php:146-150 | filtering permuted lists gives permuted results, so the statistics match the sorted page |
| LogReader.Tagged | logs.php:82-86 | each parsed line keeps its raw text and is tagged with its file's kind |
| LogReader.CollectLogs | logs.php:78-96 | the append loops collect the sent entries, then the error entries, as the type selects (Collected) |
| LogReader.CollectedByType | logs.php:80-96 | "error" gives only error entries, "sent" only sent ones, any other type nothing, and "all" both |
| LogReader.ArraySlice | logs.php:125 | array_slice with a non-negative offset and length is the clamped sub-sequence |
| LogReader.PageNumber | logs.php:69 | the page number is at least 1 |
| LogReader.Paginate | logs.php:119-125 | as written, pagination fails with a division by zero exactly when the limit is 0; the page count is CeilDiv, PHP's ceil of the quotient |
| LogReader.ZeroLimitFails | logs.php:121 | a non-numeric limit such as "abc" casts to 0 (PageSize) and makes the page fail |
| LogReader.NegativeLimitDropsTail | logs.php:121-125 | as written, a negative limit does not fail: page 1 shows the list without its last |limit| entries and the page count is at most 0 |
| LogReader.EffectiveLimit | logs.php:67 | the clamped page size is at least 1 |
| LogReader.PaginateClamped | logs.php:119-125 | with a positive limit: at most limit entries are shown, total pages = ceil(total/limit), and the result agrees with the as-written pagination |
| LogReader.CeilDivBounds | logs.php:121 | ceil(total/limit) pages hold all entries and one page fewer would not |
| LogReader.EntryOnItsPage | logs.php:119-125 | entry k is shown on page k/limit + 1 at position k mod limit, and that page exists |
| LogReader.PageWindowBounds | logs.php:622-623 | the page-link window [max(1,page-2), min(pages,page+2)] spans at most five pages within 1..pages and holds the current page (PageWindow) |
| LogReader.CountKind | logs.php:152-155 | a kind count is at most the total |
| LogReader.CountLevel | logs.php:156-157 | a level count is at most the total |
| LogReader.SentAndErrorAddUp | logs.php:152-155 | the sent and error counts add up to the total |
| LogReader.LogsPage | logs.php:65-158 | a page size of 0 fails with a division by zero, as at logs.php:121; otherwise the view holds the collected entries (LogType) sorted, filtered by the search (SearchTerm), paginated as written with the raw page size, equal to the clamped pagination when the size is positive, and statistics (ComputeStats) whose total equals the paginated total |
| LogReader.ShownEntriesMatch | logs.php:113-125 | every shown entry comes from the sorted list and matches the search |
| LogReader.ShownFromLogs | logs.php:125 | every shown entry comes from the list being paginated |
| SecurityCheck.SettingCheck | verification-securite.php:36-40 | one protected setting gives no error exactly when getConfig returns the expected string, otherwise one (the message prints the value through PhpToString) |
| SecurityCheck.SettingErrors | verification-securite.php:35-42 | at most one error per protected setting |
| SecurityCheck.FileErrors | verification-securite.php:47-58 | at most one error per critical file |
| SecurityCheck.SettingErrorsEmpty | verification-securite.php:35-42 | no setting error exactly when every protected setting has its expected value |
| SecurityCheck.FileErrorsEmpty | verification-securite.php:47-58 | no file error exactly when every critical file exists |
| SecurityCheck.RoundErrorsEmpty | verification-securite.php:24-30 | a round is clean exactly when the settings match, the files exist and config.local.php is absent or not flagged; a round adds at most 7 errors (RoundErrors) |
| SecurityCheck.DefaultSettingsPass | verification-securite.php:13-17 | the default tree passes the protected-settings check |
| SecurityCheck.TooPermissiveDigits | verification-securite.php:68 | the mask as written flags others' write bit and the group's READ bit (octal 040) (TooPermissive) |
| SecurityCheck.TooPermissiveOnReadableModes | verification-securite.php:68 | as written, the ordinary mode 0644 is flagged and 0604 is not |
| SecurityCheck.WritableByOthersDigits | verification-securite.php:68 | the corrected mask flags exactly the group and others write bits (WritableByOthers) |
| SecurityCheck.WritableByOthersOnModes | verification-securite.php:68 | with the corrected mask 0644 passes, while 0664 and 0646 are flagged |
| SecurityCheck.SecurityChecker.constructor | verification-securite.php:19 | a new checker starts with no errors |
| SecurityCheck.SecurityChecker.CheckProtectedSettings | verification-securite.php:35-42 | appends the settings' errors in the order name, version, author |
| SecurityCheck.SecurityChecker.CheckFileIntegrity | verification-securite.php:47-58 | appends one error per missing critical file, in order |
| SecurityCheck.SecurityChecker.CheckPermissions | verification-securite.php:64-72 | appends the permissions error exactly when config.local.php exists and the mask flags its mode (PermissionErrors) |
| SecurityCheck.SecurityChecker.CheckSecurity | verification-securite.php:24-30 | appends settings, then files, then permissions errors to the never-reset list; secure iff the whole list is empty |
| SecurityCheck.SecurityChecker.GenerateReport | verification-securite.php:84-97 | the report's secure flag is true iff its errors are empty; it echoes the protected settings, the config file's presence and the three app values |
| SecurityCheck.CheckAppSecurity | verification-securite.php:101-104 | a fresh checker reports exactly one round's errors |
| SecurityCheck.CheckTwice | verification-securite.php:24-30 | a second check on the same checker keeps the first round's errors: it is secure only when both rounds were clean |
| Copyright.Violations | protection-droits-auteur.php:22-38 | no violation iff author and app name are the expected strings; at most two; the author's first |
| Copyright.CheckCopyright | protection-droits-auteur.php:22-38 | the two appends build exactly the violations |
| Copyright.OnlyAuthorAndNameChecked | protection-droits-auteur.php:22-38 | version, e-mail and portfolio play no part: configs agreeing on author and name give the same violations |
| Copyright.DefaultTreeRespected | protection-droits-auteur.php:13-16 | the default tree raises no violation |
| Copyright.BuildLogMessage | protection-droits-auteur.php:120-126 | the .= chain builds the header, one "- " line per violation, then IP, user agent and "---" (LogMessage) |
| Copyright.EnforceCopyright | protection-droits-auteur.php:115-134 | the request is blocked with 403 iff there is a violation, after appending the violations' entry to log/copyright_violations.log (ViolationLog) |
| Copyright.Bullets | protection-droits-auteur.php:121-123 | one "- " bullet per violation, in order |
| Copyright.ViolationLinesSplit | protection-droits-auteur.php:120-126 | read back line by line, the log lists each violation on its own "- " line in the same order (ViolationLines) |

## Left out

- HTML, CSS and JavaScript rendering are not modelled. That covers the pages, the signature preview, client-side checks, the copyright footer, warning, script and blocked page, and index.php's redirect. None of it is logic the model can state.
- PhpWord, docx2pdf.sh (through exec) and PHPMailer are oracles. LetterPipeline.Environment carries their answers: template loads, DOCX saved, script exists, exit code, PDF exists, mail accepted. The SMTP settings, the subject and mb_encode_mimeheader are not modelled. The SendMail effect records the call, and the mail's content is ComposeMail.
- Filesystem effects are inputs or outputs. `file_exists`, `is_readable` and `fileperms` are parameters. A file is an `Option` line or record sequence, or, for the ledger page, an entry of a map from file name to lines or decoded records, and a rewrite is a returned Write. `mkdir`, `unlink` and `log_message` are not modelled, apart from the DeleteTempDocx effect.
- `fputcsv`/`fgetcsv` quoting is not modelled. CSV files are sequences of decoded records, written and read back as an abstract pair.
- `filter_var` (e-mail validation) and `iconv` transliteration are uninterpreted functions passed in. `strip_tags` (the text alternative of the mail) is not modelled.
- The signature regex of email_template_helpers.php:9 is not interpreted. Its matches are given as spans, and their removal is modelled.
- Dates and times are input strings: `date`, `IntlDateFormatter` and the timezone.
- `var_export` serialisation of config.local.php is not modelled. The saved tree is a Config.Value.
- The error message of verification-securite.php:39 prints the value with PHP's string conversion. Config.PhpToString models strings, integers and booleans. Arrays print as "Array".
- Concurrency is not modelled: two simultaneous notes rewrites or ledger appends can lose an update.
- Strings are sequences of characters, not UTF-8 bytes. Case folding covers ASCII letters only, as PHP's strtolower/stripos do.
- Exceptions are not modelled one by one. Inside sendAutomaticEmail a PHPMailer exception is caught and turns into a false answer; the mailer oracle's answer stands for all of them. The throw for a missing body template at generer-lettre.php:83-85 cannot happen: addSignatureToEmailTemplate never returns null, and a missing template gets the default body (BodyTemplate). generer-lettre.php:4 imports PHPMailer's Exception class, so the catch at generer-lettre.php:303-306 only catches PHPMailer exceptions. A TemplateProcessor that fails to load throws a PhpWord exception, which escapes that catch; the model gives the outcome UncaughtTemplateError, a fatal error with no message. A setValue or saveAs that throws is not modelled apart from the saved-DOCX answer of the environment.
- generateReport's JSON output (verification-securite.php:107-111) is not modelled. The report is a datatype.
- fileperms is modelled as a 16-bit st_mode. PHP returns a wider int, but the mask only reads the low bits.
- GetConfig: a key segment below a string value gives the default. In PHP, `isset` on a string offset is true for an integer segment inside the string, so `getConfig('app.name.0')` returns "F". No key the program passes has a segment below a string.
- GetValueWalk: getValue walks the key the same way and leaves out the same string-offset case, for the same reason.
- IntCast: the (int) cast reads an optional sign and the leading decimal digits after leading white space, saturated to PHP's 64-bit range. Numeric strings with a fraction or an exponent are read by their leading digits only: PHP casts "1e3" to 1000, the model to 1. It is used for the limit and page of logs.php and for the SMTP port, debug level and close delay of config_setup.php.
- LogReader.Paginate: the offset `($page - 1) * $limit` is an unbounded integer. PHP would turn an overflowing product into a float, which no page number a link produces reaches.

## Findings

| source | as written | input that shows it | evidently intended | confidence | as-written member | corrected member |
|---|---|---|---|---|---|---|
| logs.php:121 | `ceil($totalLogs / $limit)` with `$limit = (int)$_GET['limit']` | `?limit=0` or `?limit=abc` makes the division by zero throw | a page size of at least 1 | not executed; high | LogReader.ZeroLimitFails | LogReader.PaginateClamped |
| logs.php:121-125 | `ceil($totalLogs / $limit)` and `array_slice($allLogs, $offset, $limit)` with a negative `(int)$_GET['limit']` | `?limit=-5` with 10 matching entries: page 1 shows the first 5 entries and the page count is -2 | a page size of at least 1 | not executed; high | LogReader.NegativeLimitDropsTail | LogReader.PaginateClamped |
| config_setup.php:47-65 | `getValue` runs while building the tree, before `$currentConfig` is loaded at lines 98-101 | a POST when config.local.php holds `poste_recherche` = "Développeur" | keep the stored values, which is what getValue reading `$currentConfig` is for | not executed; high | ConfigSetup.SavedConfigIgnoresCurrent | ConfigSetup.SavedTreeKeepsCurrent |
| verification-securite.php:68 | `$perms & 0x0020` tests the group READ bit (octal 040) | mode 0100644 (owner-writable, readable by all) is reported as too permissive, while 0100604 is not | the group write bit, octal 020 (0x0010) | not executed; medium | SecurityCheck.TooPermissiveOnReadableModes | SecurityCheck.WritableByOthersOnModes |
| carnet-de-suivi.php:11-41 | the notes form rewrites donnees_entreprises.csv and patches field 6; the page lists candidatures.csv | a note saved for a company the page lists never shows in its Notes column, and in a candidatures.csv-style line field 6 is Email_Envoye | save the note in the listed ledger's Notes column (7) | not executed; medium | Ledger.NotesWriteNotListed | Ledger.ListedNotesLoaded |

LogsPage paginates as written, with the raw page size; PaginateClamped is the
corrected pagination, and LogsPage is proved equal to it for every positive size.
The checker class keeps the mask as written, so that its contracts describe the
code. WritableByOthers is the corrected predicate, stated and proved beside it.
HandleNotesUpdate keeps the notes form as written, writing donnees_entreprises.csv.
ListedNotesUpdated is the corrected update on the listed ledger's records;
ListedNotesLoaded and PatchedRecordLoaded prove that the page then shows the note.
