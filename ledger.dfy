/** The application ledger page (carnet-de-suivi.php).

    Two independent paths touch ledger files:
    - the notes update reads donnees_entreprises.csv line by line, splits each line
      on ';' without honouring quotes, patches the Notes column (index 6) of the
      first data line whose company column matches, and rewrites the file only
      when a line was patched;
    - the loader reads candidatures.csv record by record (fgetcsv, here an
      abstract decoder: a file is its sequence of decoded records), zips each record
      of at least six fields with the header and fills in two defaults.
    The two paths name different files, so the model keeps them apart. */
module Ledger {
  import opened PhpStrings

  /** The file the notes update rewrites and the file the loader reads, both in the
      application's directory. */
  const NotesFile: string := "donnees_entreprises.csv"
  const LoadedFile: string := "candidatures.csv"

  /** A file's content when it exists (file_exists, then reading it). */
  function Stored<T>(files: map<string, T>, path: string): (r: Option<T>)
    ensures r.Some? <==> path in files
    ensures r.Some? ==> r.value == files[path]
  {
    if path in files then Some(files[path]) else None
  }

  /** A file_put_contents: the path and the whole new text. */
  datatype Write = Write(path: string, contents: string)

  const CompanyColumn: nat := 1
  const NotesColumn: nat := 6
  const MinColumns: nat := 6

  const QuoteChar: set<char> := {'"'}

  // ---------------------------------------------------------------------------
  // Notes update (carnet-de-suivi.php:10-38)

  /** The test the update loop applies to a data line: at least six ';'-fields and
      a company field that equals the key once its surrounding quotes are trimmed. */
  predicate RowMatches(line: string, company: string)
  {
    var fields := Split(line, ';');
    |fields| >= MinColumns && Trim(fields[CompanyColumn], QuoteChar) == company
  }

  /** The new Notes field: the notes with every quote removed, quoted again. */
  function QuotedNotes(notes: string): (r: string)
    ensures |r| >= 2 && r[0] == '"' && r[|r| - 1] == '"'
    ensures r[1..|r| - 1] == RemoveChar(notes, '"')
  {
    "\"" + RemoveChar(notes, '"') + "\""
  }

  /** The fields of a matched line after the update: padded to seven fields when it
      had six, Notes replaced, every other field kept in place. */
  function PatchFields(fields: seq<string>, notes: string): (r: seq<string>)
    requires |fields| >= MinColumns
    ensures |r| == if |fields| == MinColumns then MinColumns + 1 else |fields|
    ensures r[NotesColumn] == QuotedNotes(notes)
    ensures forall j :: 0 <= j < |fields| && j != NotesColumn ==> r[j] == fields[j]
  {
    var padded := if |fields| < NotesColumn + 1 then fields + [""] else fields;
    padded[NotesColumn := QuotedNotes(notes)]
  }

  function PatchLine(line: string, notes: string): string
    requires |Split(line, ';')| >= MinColumns
  {
    Join(PatchFields(Split(line, ';'), notes), ';')
  }

  /** The first line at or after index `from` that matches the company, if any. */
  function FirstMatchFrom(lines: seq<string>, company: string, from: nat): (r: Option<nat>)
    ensures r.Some? ==> from <= r.value < |lines| && RowMatches(lines[r.value], company)
    ensures r.Some? ==> forall j :: from <= j < r.value ==> !RowMatches(lines[j], company)
    ensures r.None? ==> forall j :: from <= j < |lines| ==> !RowMatches(lines[j], company)
    decreases |lines| - from
  {
    if from >= |lines| then None
    else if RowMatches(lines[from], company) then Some(from)
    else FirstMatchFrom(lines, company, from + 1)
  }

  /** The data line the update patches: the first match after the header. */
  function FirstMatch(lines: seq<string>, company: string): Option<nat>
  {
    FirstMatchFrom(lines, company, 1)
  }

  /** The lines after the update, whether or not anything matched. */
  function NotesUpdated(lines: seq<string>, company: string, notes: string): seq<string>
  {
    match FirstMatch(lines, company)
    case None => lines
    case Some(k) => lines[k := PatchLine(lines[k], notes)]
  }

  /** The update loop, in place over the array of lines (carnet-de-suivi.php:17-31).
      `company` and `notes` are the already trimmed form fields. */
  method UpdateNotes(lines: array<string>, company: string, notes: string) returns (updated: bool)
    modifies lines
    ensures updated <==> FirstMatch(old(lines[..]), company).Some?
    ensures lines[..] == NotesUpdated(old(lines[..]), company, notes)
  {
    ghost var original := lines[..];
    updated := false;
    var i := 1;
    while i < lines.Length
      invariant 1 <= i
      invariant lines[..] == original
      invariant forall j :: 1 <= j < i && j < |original| ==> !RowMatches(original[j], company)
    {
      var row := Split(lines[i], ';');
      if |row| >= MinColumns && Trim(row[CompanyColumn], QuoteChar) == company {
        assert RowMatches(original[i], company);
        OnlyFirstMatchChanges(original, company, notes, i);
        lines[i] := PatchRow(row, notes);
        assert lines[..] == original[i := PatchLine(original[i], notes)];
        updated := true;
        break;
      }
      i := i + 1;
    }
    if !updated {
      NoMatchNoChange(original, company, notes);
    }
  }

  /** The body of the match branch: pad a six-field row, put the quoted notes in
      the Notes column and join the fields back with ';'. */
  method PatchRow(fields: seq<string>, notes: string) returns (line: string)
    requires |fields| >= MinColumns
    ensures line == Join(PatchFields(fields, notes), ';')
  {
    var row := fields;
    if |row| < NotesColumn + 1 {
      row := row + [""];
    }
    row := row[NotesColumn := QuotedNotes(notes)];
    line := Join(row, ';');
  }

  /** The whole POST handler over the directory's files, each given by its lines:
      trims both form fields, reads donnees_entreprises.csv when it exists, and
      returns the write back to that file, if any (lines joined by PHP_EOL, "\n" on
      the Linux host). Nothing is written when no line matched. */
  method HandleNotesUpdate(files: map<string, seq<string>>, postCompany: string, postNotes: string)
    returns (written: Option<Write>)
    ensures written.Some? <==> NotesFile in files && FirstMatch(files[NotesFile], TrimWs(postCompany)).Some?
    ensures written.Some? ==> written.value.path == NotesFile
    ensures written.Some? ==>
      written.value.contents == Join(NotesUpdated(files[NotesFile], TrimWs(postCompany), TrimWs(postNotes)), '\n')
  {
    var company := TrimWs(postCompany);
    var notes := TrimWs(postNotes);
    written := None;
    if NotesFile in files {
      var updated, contents := RewriteLines(files[NotesFile], company, notes);
      if updated {
        written := Some(Write(NotesFile, contents));
      }
    }
  }

  /** The file's lines loaded into an array, updated in place, and joined back. */
  method RewriteLines(text: seq<string>, company: string, notes: string) returns (updated: bool, contents: string)
    ensures updated <==> FirstMatch(text, company).Some?
    ensures contents == Join(NotesUpdated(text, company, notes), '\n')
  {
    var lines := new string[|text|](i requires 0 <= i < |text| => text[i]);
    assert lines[..] == text;
    updated := UpdateNotes(lines, company, notes);
    contents := Join(lines[..], '\n');
  }

  // ---------------------------------------------------------------------------
  // Properties of the notes update

  /** The header line is never examined nor changed, and no line is added or removed. */
  lemma HeaderUntouched(lines: seq<string>, company: string, notes: string)
    requires |lines| > 0
    ensures |NotesUpdated(lines, company, notes)| == |lines|
    ensures NotesUpdated(lines, company, notes)[0] == lines[0]
  {
  }

  /** Exactly the first matching data line changes; every line before it fails the
      match and every other line, later duplicates included, is left as it was. */
  lemma OnlyFirstMatchChanges(lines: seq<string>, company: string, notes: string, k: nat)
    requires 1 <= k < |lines| && RowMatches(lines[k], company)
    requires forall j :: 1 <= j < k ==> !RowMatches(lines[j], company)
    ensures FirstMatch(lines, company) == Some(k)
    ensures NotesUpdated(lines, company, notes)[k] == PatchLine(lines[k], notes)
    ensures forall j :: 0 <= j < |lines| && j != k ==> NotesUpdated(lines, company, notes)[j] == lines[j]
  {
  }

  /** Without a matching data line the lines are returned unchanged. */
  lemma NoMatchNoChange(lines: seq<string>, company: string, notes: string)
    requires forall j :: 1 <= j < |lines| ==> !RowMatches(lines[j], company)
    ensures FirstMatch(lines, company).None?
    ensures NotesUpdated(lines, company, notes) == lines
  {
  }

  /** Reading the patched line back with explode: every field other than Notes keeps
      its text and position, and Notes holds the re-quoted notes, as long as the notes
      hold no ';' (the naive split would otherwise cut them into further fields). */
  lemma PatchedLineFields(line: string, notes: string)
    requires |Split(line, ';')| >= MinColumns
    requires ';' !in notes
    ensures Split(PatchLine(line, notes), ';') == PatchFields(Split(line, ';'), notes)
  {
    var fields := PatchFields(Split(line, ';'), notes);
    forall i | 0 <= i < |fields| ensures ';' !in fields[i] {
      if i == NotesColumn {
        var q := QuotedNotes(notes);
        RemoveCharSubset(notes, '"', ';');
        assert q == "\"" + RemoveChar(notes, '"') + "\"";
      }
    }
    SplitJoin(fields, ';');
  }

  /** Removing a character keeps every other character absent. */
  lemma {:induction false} RemoveCharSubset(s: string, c: char, d: char)
    requires d !in s
    ensures d !in RemoveChar(s, c)
  {
    if |s| > 0 {
      RemoveCharSubset(s[1..], c, d);
    }
  }

  /** On a line written as its fields joined by ';', the match reads the company from
      the second field: a line of six fields or more matches exactly when that field,
      with its surrounding quotes trimmed, equals the key (case and blanks included). */
  lemma RowMatchesFields(fields: seq<string>, company: string)
    requires |fields| >= 1
    requires forall i :: 0 <= i < |fields| ==> ';' !in fields[i]
    ensures RowMatches(Join(fields, ';'), company) <==>
      |fields| >= MinColumns && Trim(fields[CompanyColumn], QuoteChar) == company
  {
    SplitJoin(fields, ';');
  }

  /** A semicolon in the notes splits the rewritten line into one more field: the
      naive explode does not honour the quotes the update writes around the notes. */
  lemma {:induction false} SemicolonInNotesAddsField(line: string, u: string, v: string)
    requires |Split(line, ';')| == MinColumns || |Split(line, ';')| == MinColumns + 1
    requires ';' !in u && ';' !in v && '"' !in u && '"' !in v
    ensures Split(PatchLine(line, u + ";" + v), ';') ==
      Split(line, ';')[..NotesColumn] + ["\"" + u, v + "\""]
  {
    var front := Split(line, ';')[..NotesColumn];
    var target := front + ["\"" + u, v + "\""];
    PatchLineUnquoted(line, u + ";" + v);
    JoinSnoc(front, "\"" + u, ';');
    assert target == (front + ["\"" + u]) + [v + "\""];
    JoinSnoc(front + ["\"" + u], v + "\"", ';');
    assert "\"" + (u + ";" + v) + "\"" == ("\"" + u) + [';'] + (v + "\"");
    assert Join(target, ';') == PatchLine(line, u + ";" + v);
    SplitJoin(target, ';');
  }

  /** Notes without quotes are written as they are, between quotes, after the first
      seven fields of a six- or seven-field line. */
  lemma PatchLineUnquoted(line: string, notes: string)
    requires |Split(line, ';')| == MinColumns || |Split(line, ';')| == MinColumns + 1
    requires '"' !in notes
    ensures PatchLine(line, notes) == Join(Split(line, ';')[..NotesColumn], ';') + [';'] + ("\"" + notes + "\"")
  {
    var front := Split(line, ';')[..NotesColumn];
    RemoveCharAbsent(notes, '"');
    assert PatchFields(Split(line, ';'), notes) == front + ["\"" + notes + "\""];
    JoinSnoc(front, "\"" + notes + "\"", ';');
  }

  // ---------------------------------------------------------------------------
  // Loader (carnet-de-suivi.php:40-70)

  /** header[i] |-> values[i] for i < n, in order, so that a repeated header name
      keeps its last value. */
  function ZipRow(header: seq<string>, values: seq<string>, n: nat): map<string, string>
    requires n <= |header| && n <= |values|
  {
    if n == 0 then map[] else ZipRow(header, values, n - 1)[header[n - 1] := values[n - 1]]
  }

  /** Every field with its surrounding quotes trimmed. */
  function Unquoted(row: seq<string>): (r: seq<string>)
    ensures |r| == |row|
    ensures forall i :: 0 <= i < |row| ==> r[i] == Trim(row[i], QuoteChar)
  {
    if row == [] then [] else [Trim(row[0], QuoteChar)] + Unquoted(row[1..])
  }

  function Min(a: nat, b: nat): nat
  {
    if a < b then a else b
  }

  /** No column after i and before n carries the name of column i. */
  predicate LastAt(header: seq<string>, n: nat, i: nat)
  {
    forall j :: i < j < n && j < |header| ==> header[j] != header[i]
  }

  /** One loaded record: the zip over the common length, then the two defaults. Its
      keys are the names of the paired columns plus Notes and Email_Envoye; a name
      takes the quote-trimmed value of its last paired column; a Notes or
      Email_Envoye the record does not pair gets "" or "Non". */
  function RowMap(header: seq<string>, row: seq<string>): (m: map<string, string>)
    ensures "Notes" in m && "Email_Envoye" in m
    ensures forall name :: name in m <==>
      name in header[..Min(|header|, |row|)] || name == "Notes" || name == "Email_Envoye"
    ensures forall i {:trigger LastAt(header, Min(|header|, |row|), i)} ::
      0 <= i < Min(|header|, |row|) && LastAt(header, Min(|header|, |row|), i) ==>
      header[i] in m && m[header[i]] == Trim(row[i], QuoteChar)
    ensures "Notes" !in header[..Min(|header|, |row|)] ==> m["Notes"] == ""
    ensures "Email_Envoye" !in header[..Min(|header|, |row|)] ==> m["Email_Envoye"] == "Non"
  {
    var n := Min(|header|, |row|);
    var zipped := ZipRow(header, Unquoted(row), n);
    ZipRowKeysAll(header, Unquoted(row), n);
    ZipRowValues(header, row, n);
    WithDefaultsKeys(zipped);
    WithDefaults(zipped)
  }

  lemma ZipRowKeysAll(header: seq<string>, values: seq<string>, n: nat)
    requires n <= |header| && n <= |values|
    ensures forall name :: name in ZipRow(header, values, n) <==> name in header[..n]
  {
    forall name
      ensures name in ZipRow(header, values, n) <==> name in header[..n]
    {
      ZipRowKeys(header, values, n, name);
    }
  }

  lemma ZipRowValues(header: seq<string>, row: seq<string>, n: nat)
    requires n <= |header| && n <= |row|
    ensures var m := WithDefaults(ZipRow(header, Unquoted(row), n));
      forall i :: 0 <= i < n && LastAt(header, n, i) ==> header[i] in m && m[header[i]] == Trim(row[i], QuoteChar)
  {
    var zipped := ZipRow(header, Unquoted(row), n);
    forall i | 0 <= i < n && LastAt(header, n, i)
      ensures header[i] in WithDefaults(zipped) && WithDefaults(zipped)[header[i]] == Trim(row[i], QuoteChar)
    {
      ZipRowValue(header, Unquoted(row), n, i);
      WithDefaultsKeeps(zipped, header[i]);
    }
  }

  /** The defaults add exactly Notes and Email_Envoye, with "" and "Non" when absent. */
  lemma WithDefaultsKeys(zipped: map<string, string>)
    ensures forall name :: name in WithDefaults(zipped) <==> name in zipped || name == "Notes" || name == "Email_Envoye"
    ensures "Notes" !in zipped ==> WithDefaults(zipped)["Notes"] == ""
    ensures "Email_Envoye" !in zipped ==> WithDefaults(zipped)["Email_Envoye"] == "Non"
  {
  }

  /** An empty Notes and a "Non" Email_Envoye where the record has none. */
  function WithDefaults(zipped: map<string, string>): map<string, string>
  {
    var withNotes := if "Notes" in zipped then zipped else zipped["Notes" := ""];
    if "Email_Envoye" in withNotes then withNotes else withNotes["Email_Envoye" := "Non"]
  }

  /** The records after the header, those of fewer than six fields dropped. */
  function LoadRows(header: seq<string>, rows: seq<seq<string>>): seq<map<string, string>>
  {
    if |rows| == 0 then []
    else (if |rows[0]| >= MinColumns then [RowMap(header, rows[0])] else []) + LoadRows(header, rows[1..])
  }

  /** The loader: nothing for a missing or empty file, else the first record is the header. */
  function LoadAll(file: Option<seq<seq<string>>>): seq<map<string, string>>
  {
    if file.None? || |file.value| == 0 then [] else LoadRows(file.value[0], file.value[1..])
  }

  /** The loader's outer loop (carnet-de-suivi.php:41-70) over the directory's files,
      each given by its decoded records: when candidatures.csv exists, each of its
      records of six fields or more after the header is appended, in file order. */
  method LoadLedger(files: map<string, seq<seq<string>>>) returns (data: seq<map<string, string>>)
    ensures data == LoadAll(Stored(files, LoadedFile))
  {
    data := [];
    if LoadedFile !in files || |files[LoadedFile]| == 0 {
      return;
    }
    var records := files[LoadedFile];
    var headers := records[0];
    var k := 1;
    while k < |records|
      invariant 1 <= k <= |records|
      invariant data == LoadRows(headers, records[1..k])
    {
      LoadRowsStep(headers, records, k);
      if |records[k]| >= MinColumns {
        var rowData := LoadRecord(headers, records[k]);
        data := data + [rowData];
      }
      k := k + 1;
    }
    assert records[1..k] == records[1..];
  }

  /** One record of the loader: the column loop, then the two defaults. */
  method LoadRecord(headers: seq<string>, row: seq<string>) returns (rowData: map<string, string>)
    ensures rowData == RowMap(headers, row)
  {
    rowData := ZipColumns(headers, row);
    ghost var zipped := rowData;
    if "Notes" !in rowData {
      rowData := rowData["Notes" := ""];
    }
    if "Email_Envoye" !in rowData {
      rowData := rowData["Email_Envoye" := "Non"];
    }
    assert rowData == WithDefaults(zipped);
  }

  /** The loader's inner loop: the map is filled column by column over the common
      length of the header and the record. */
  method ZipColumns(headers: seq<string>, row: seq<string>) returns (rowData: map<string, string>)
    ensures rowData == ZipRow(headers, Unquoted(row), Min(|headers|, |row|))
  {
    ghost var values := Unquoted(row);
    rowData := map[];
    var i := 0;
    while i < |headers| && i < |row|
      invariant 0 <= i <= |headers| && i <= |row|
      invariant rowData == ZipRow(headers, values, i)
    {
      assert values[i] == Trim(row[i], QuoteChar);
      rowData := rowData[headers[i] := Trim(row[i], QuoteChar)];
      i := i + 1;
    }
  }

  // ---------------------------------------------------------------------------
  // Properties of the loader

  /** The zip holds exactly the header names of the first n columns. */
  lemma {:induction false} ZipRowKeys(header: seq<string>, values: seq<string>, n: nat, name: string)
    requires n <= |header| && n <= |values|
    ensures name in ZipRow(header, values, n) <==> name in header[..n]
  {
    if n > 0 {
      ZipRowKeys(header, values, n - 1, name);
      assert header[..n] == header[..n - 1] + [header[n - 1]];
    }
  }

  /** A name whose last occurrence among the first n columns is at column i maps to
      values[i]: later duplicates overwrite earlier ones. */
  lemma {:induction false} ZipRowValue(header: seq<string>, values: seq<string>, n: nat, i: nat)
    requires i < n <= |header| && n <= |values|
    requires forall j :: i < j < n ==> header[j] != header[i]
    ensures header[i] in ZipRow(header, values, n)
    ensures ZipRow(header, values, n)[header[i]] == values[i]
  {
    if i < n - 1 {
      ZipRowValue(header, values, n - 1, i);
    }
  }

  /** Loading keeps the surviving records in file order: it distributes over
      concatenation, and a single record survives exactly when it has six fields. */
  lemma {:induction false} LoadRowsAppend(header: seq<string>, rows1: seq<seq<string>>, rows2: seq<seq<string>>)
    ensures LoadRows(header, rows1 + rows2) == LoadRows(header, rows1) + LoadRows(header, rows2)
  {
    if |rows1| > 0 {
      assert (rows1 + rows2)[1..] == rows1[1..] + rows2;
      LoadRowsAppend(header, rows1[1..], rows2);
    } else {
      assert rows1 + rows2 == rows2;
    }
  }

  /** Loading one more record appends its row when it has six fields or more. */
  lemma LoadRowsStep(header: seq<string>, records: seq<seq<string>>, k: nat)
    requires 1 <= k < |records|
    ensures LoadRows(header, records[1..k + 1]) == LoadRows(header, records[1..k]) +
      (if |records[k]| >= MinColumns then [RowMap(header, records[k])] else [])
  {
    var front := records[1..k];
    var longer := records[1..k + 1];
    assert longer == front + [records[k]];
    LoadRowsAppend(header, front, [records[k]]);
    LoadRowsSingle(header, records[k]);
  }

  lemma LoadRowsSingle(header: seq<string>, row: seq<string>)
    ensures LoadRows(header, [row]) == if |row| >= MinColumns then [RowMap(header, row)] else []
  {
  }

  /** Under the header the letter pipeline writes, a record of eight fields or more
      keeps its own company, Email_Envoye and Notes values (quote-trimmed). */
  lemma StandardRecordLoaded(row: seq<string>)
    requires |row| >= |LedgerHeader|
    ensures "Entreprise" in RowMap(LedgerHeader, row)
    ensures RowMap(LedgerHeader, row)["Entreprise"] == Trim(row[1], QuoteChar)
    ensures RowMap(LedgerHeader, row)["Email_Envoye"] == Trim(row[6], QuoteChar)
    ensures RowMap(LedgerHeader, row)["Notes"] == Trim(row[7], QuoteChar)
  {
    var h := LedgerHeader;
    assert forall j :: 1 < j < |h| ==> |h[j]| != |h[1]|;
    LoadedColumn(h, row, 1);
    assert |h[7]| != |h[6]|;
    LoadedColumn(h, row, 6);
    LoadedColumn(h, row, 7);
  }

  /** A column the record reaches, whose name does not occur again in a later column
      the record reaches, is loaded with that record's value, quotes trimmed. */
  lemma LoadedColumn(header: seq<string>, row: seq<string>, i: nat)
    requires i < |header| && i < |row|
    requires forall j :: i < j < |header| && j < |row| ==> header[j] != header[i]
    ensures header[i] in RowMap(header, row)
    ensures RowMap(header, row)[header[i]] == Trim(row[i], QuoteChar)
  {
    var values := Unquoted(row);
    var n := Min(|header|, |row|);
    ZipRowValue(header, values, n, i);
    WithDefaultsKeeps(ZipRow(header, values, n), header[i]);
  }

  /** The defaults never override a value the record has. */
  lemma WithDefaultsKeeps(zipped: map<string, string>, name: string)
    requires name in zipped
    ensures name in WithDefaults(zipped) && WithDefaults(zipped)[name] == zipped[name]
  {
  }

  /** The column names the letter pipeline writes as the header (generer-lettre.php:262-271). */
  const LedgerHeader: seq<string> :=
    ["Date_creation", "Entreprise", "Adresse", "Email", "Date_document", "Fichier_PDF", "Email_Envoye", "Notes"]

  // ---------------------------------------------------------------------------
  // Page statistics (carnet-de-suivi.php:135-143)

  /** Rows whose Email_Envoye is exactly "Oui". */
  function EmailsSent(data: seq<map<string, string>>): (n: nat)
    ensures n <= |data|
  {
    if |data| == 0 then 0
    else (if "Email_Envoye" in data[0] && data[0]["Email_Envoye"] == "Oui" then 1 else 0) + EmailsSent(data[1..])
  }

  /** The distinct Entreprise values (array_unique over array_column). */
  function Companies(data: seq<map<string, string>>): set<string>
  {
    if |data| == 0 then {}
    else (if "Entreprise" in data[0] then {data[0]["Entreprise"]} else {}) + Companies(data[1..])
  }

  lemma {:induction false} EmailsSentAppend(d1: seq<map<string, string>>, d2: seq<map<string, string>>)
    ensures EmailsSent(d1 + d2) == EmailsSent(d1) + EmailsSent(d2)
  {
    if |d1| > 0 {
      assert (d1 + d2)[1..] == d1[1..] + d2;
      EmailsSentAppend(d1[1..], d2);
    } else {
      assert d1 + d2 == d2;
    }
  }

  /** "Companies contacted" never exceeds "letters generated", and the listed companies
      are exactly the Entreprise values of the rows. */
  lemma {:induction false} CompaniesBound(data: seq<map<string, string>>)
    ensures |Companies(data)| <= |data|
    ensures forall c :: c in Companies(data) ==>
      exists i :: 0 <= i < |data| && "Entreprise" in data[i] && data[i]["Entreprise"] == c
    ensures forall i :: 0 <= i < |data| && "Entreprise" in data[i] ==> data[i]["Entreprise"] in Companies(data)
  {
    if |data| > 0 {
      CompaniesBound(data[1..]);
      forall i | 0 <= i < |data| && "Entreprise" in data[i]
        ensures data[i]["Entreprise"] in Companies(data)
      {
        if i > 0 {
          assert data[i] == data[1..][i - 1];
        }
      }
      var head: set<string> := if "Entreprise" in data[0] then {data[0]["Entreprise"]} else {};
      assert |head + Companies(data[1..])| <= |head| + |Companies(data[1..])|;
      forall c | c in Companies(data)
        ensures exists i :: 0 <= i < |data| && "Entreprise" in data[i] && data[i]["Entreprise"] == c
      {
        if c in head {
          assert "Entreprise" in data[0] && data[0]["Entreprise"] == c;
        } else {
          var i :| 0 <= i < |data[1..]| && "Entreprise" in data[1..][i] && data[1..][i]["Entreprise"] == c;
          assert data[i + 1] == data[1..][i];
        }
      }
    }
  }

  // ---------------------------------------------------------------------------
  // The notes form and the listed ledger

  /** As written, the notes form never reaches the page's table. The update writes
      donnees_entreprises.csv, which the loader never reads, so the loaded rows are
      the same whatever it writes there. The column it patches, index 6, is
      Email_Envoye in the header the letter pipeline writes; Notes is index 7. */
  lemma NotesWriteNotListed(files: map<string, seq<seq<string>>>, records: seq<seq<string>>)
    ensures NotesFile != LoadedFile
    ensures LoadAll(Stored(files[NotesFile := records], LoadedFile)) == LoadAll(Stored(files, LoadedFile))
    ensures LedgerHeader[NotesColumn] == "Email_Envoye" && LedgerHeader[ListedNotesColumn] == "Notes"
  {
    assert |NotesFile| != |LoadedFile|;
  }

  /** The Notes column of the listed ledger. */
  const ListedNotesColumn: nat := 7

  /** The match test of the update, on a decoded record of the listed ledger. */
  predicate RecordMatches(record: seq<string>, company: string)
  {
    |record| >= MinColumns && Trim(record[CompanyColumn], QuoteChar) == company
  }

  /** The first record at or after index `from` that matches the company, if any. */
  function FirstRecordFrom(records: seq<seq<string>>, company: string, from: nat): (r: Option<nat>)
    ensures r.Some? ==> from <= r.value < |records| && RecordMatches(records[r.value], company)
    ensures r.Some? ==> forall j :: from <= j < r.value ==> !RecordMatches(records[j], company)
    ensures r.None? ==> forall j :: from <= j < |records| ==> !RecordMatches(records[j], company)
    decreases |records| - from
  {
    if from >= |records| then None
    else if RecordMatches(records[from], company) then Some(from)
    else FirstRecordFrom(records, company, from + 1)
  }

  /** The corrected patch: the record padded to the header's eight columns, with the
      notes, quotes removed, in the Notes column and every other field in place. */
  function PatchRecord(record: seq<string>, notes: string): (r: seq<string>)
    ensures |r| == if |record| < |LedgerHeader| then |LedgerHeader| else |record|
    ensures r[ListedNotesColumn] == RemoveChar(notes, '"')
    ensures forall j :: 0 <= j < |record| && j != ListedNotesColumn ==> r[j] == record[j]
  {
    var padded := if |record| < |LedgerHeader| then record + seq(|LedgerHeader| - |record|, _ => "") else record;
    padded[ListedNotesColumn := RemoveChar(notes, '"')]
  }

  /** The corrected update: the first matching record after the header of the listed
      ledger is patched; nothing changes without a match. */
  function ListedNotesUpdated(records: seq<seq<string>>, company: string, notes: string): seq<seq<string>>
  {
    match FirstRecordFrom(records, company, 1)
    case None => records
    case Some(k) => records[k := PatchRecord(records[k], notes)]
  }

  /** With the corrected update, the loaded rows are the same rows in the same order,
      except the matched record's, which is replaced by the patched record's
      (PatchedRecordLoaded says what that row holds). */
  lemma ListedNotesLoaded(records: seq<seq<string>>, company: string, notes: string, k: nat)
    requires |records| > 0
    requires FirstRecordFrom(records, company, 1) == Some(k)
    ensures var before := LoadAll(Some(records));
      var after := LoadAll(Some(ListedNotesUpdated(records, company, notes)));
      var at := |LoadRows(records[0], records[1..k])|;
      at < |before| && before[at] == RowMap(records[0], records[k]) &&
      after == before[at := RowMap(records[0], PatchRecord(records[k], notes))]
  {
    var h := records[0];
    LoadAround(h, records, k);
    LoadReplaced(records, k, PatchRecord(records[k], notes));
    ReplaceMiddle(LoadRows(h, records[1..k]), RowMap(h, records[k]), RowMap(h, PatchRecord(records[k], notes)),
                  LoadRows(h, records[k + 1..]));
  }

  /** Replacing record k by another of six fields or more replaces its row only. */
  lemma LoadReplaced(records: seq<seq<string>>, k: nat, record: seq<string>)
    requires 1 <= k < |records| && |record| >= MinColumns
    ensures LoadAll(Some(records[k := record])) ==
      LoadRows(records[0], records[1..k]) + [RowMap(records[0], record)] + LoadRows(records[0], records[k + 1..])
  {
    var updated := records[k := record];
    LoadAround(records[0], updated, k);
    assert updated[0] == records[0] && updated[1..k] == records[1..k] && updated[k + 1..] == records[k + 1..];
  }

  /** Loading splits around record k, which survives when it has six fields. */
  lemma LoadAround(h: seq<string>, records: seq<seq<string>>, k: nat)
    requires 1 <= k < |records| && |records[k]| >= MinColumns
    ensures LoadRows(h, records[1..]) ==
      LoadRows(h, records[1..k]) + [RowMap(h, records[k])] + LoadRows(h, records[k + 1..])
  {
    assert records[1..] == records[1..k] + ([records[k]] + records[k + 1..]);
    LoadRowsAppend(h, records[1..k], [records[k]] + records[k + 1..]);
    LoadRowsAppend(h, [records[k]], records[k + 1..]);
    LoadRowsSingle(h, records[k]);
  }

  lemma ReplaceMiddle<T>(front: seq<T>, x: T, y: T, back: seq<T>)
    ensures |front| < |front + [x] + back| && (front + [x] + back)[|front|] == x
    ensures (front + [x] + back)[|front| := y] == front + [y] + back
  {
  }

  /** Under the pipeline's header the patched record loads with its company and the
      notes, quotes removed, so the page shows the note; an Email_Envoye the record
      already had is kept. */
  lemma PatchedRecordLoaded(record: seq<string>, company: string, notes: string)
    requires RecordMatches(record, company)
    ensures var m := RowMap(LedgerHeader, PatchRecord(record, notes));
      "Entreprise" in m && m["Entreprise"] == company && m["Notes"] == RemoveChar(notes, '"') &&
      (|record| > NotesColumn ==> m["Email_Envoye"] == RowMap(LedgerHeader, record)["Email_Envoye"])
  {
    var patched := PatchRecord(record, notes);
    StandardRecordLoaded(patched);
    TrimUnchanged(RemoveChar(notes, '"'), QuoteChar);
    if |record| > NotesColumn {
      var h := LedgerHeader;
      assert forall j :: NotesColumn < j < |h| ==> h[j] != h[NotesColumn];
      LoadedColumn(h, record, NotesColumn);
    }
  }
}
