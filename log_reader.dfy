/** The log page (logs.php).

    Each of the two mail logs is read newest line first. Every line is parsed into a
    raw text, an optional leading timestamp, a severity level and a message, and is
    tagged with the log it came from. The page sorts the entries (timestamped ones
    first, most recent first), keeps those whose message contains the search term
    case-insensitively, and shows one page of them. The counters above the list are
    computed from a second, unsorted read of the same files. */
module LogReader {
  import opened PhpStrings

  /** The severity shown for an entry ($parsed['level']). */
  datatype Level = Error | Warning | Debug | Success | Info

  /** The log an entry was read from ($parsed['type'] = 'sent' or 'error'). */
  datatype Kind = SentLog | ErrorLog

  /** The map parseLogLine builds. */
  datatype Parsed = Parsed(raw: string, timestamp: string, level: Level, message: string)

  datatype LogEntry = LogEntry(parsed: Parsed, kind: Kind)

  // ---------------------------------------------------------------------------
  // readLogFile (logs.php:15-34)

  /** file() with FILE_SKIP_EMPTY_LINES: the empty lines are dropped. */
  function NonEmptyLines(lines: seq<string>): (r: seq<string>)
    ensures |r| <= |lines|
    ensures forall l :: l in r <==> l in lines && l != ""
    ensures forall i :: 0 <= i < |r| ==> r[i] != ""
    ensures multiset(r) == multiset(lines)["" := 0]
  {
    if lines == [] then []
    else
      assert lines == [lines[0]] + lines[1..];
      (if lines[0] == "" then [] else [lines[0]]) + NonEmptyLines(lines[1..])
  }

  /** Dropping the empty lines works piece by piece, so the others keep their order. */
  lemma {:induction false} NonEmptyLinesAppend(a: seq<string>, b: seq<string>)
    ensures NonEmptyLines(a + b) == NonEmptyLines(a) + NonEmptyLines(b)
  {
    if a == [] {
      assert a + b == b;
    } else {
      var ab := a + b;
      assert ab[0] == a[0] && ab[1..] == a[1..] + b;
      NonEmptyLinesAppend(a[1..], b);
      assert NonEmptyLines(ab) == (if a[0] == "" then [] else [a[0]]) + NonEmptyLines(ab[1..]);
    }
  }

  function Reverse<T>(s: seq<T>): (r: seq<T>)
    ensures |r| == |s|
    ensures forall i :: 0 <= i < |s| ==> r[i] == s[|s| - 1 - i]
  {
    if s == [] then [] else Reverse(s[1..]) + [s[0]]
  }

  /** readLogFile($filePath, $limit): no lines for a missing file, otherwise the
      non-empty lines last one first, cut to `limit` lines when `limit` is positive.
      A file is given as its lines (None when it does not exist). */
  function ReadLogFile(file: Option<seq<string>>, limit: int): (r: seq<string>)
    ensures file.None? ==> r == []
    ensures limit > 0 ==> |r| <= limit
    ensures forall i :: 0 <= i < |r| ==> r[i] != ""
    ensures file.Some? ==> var kept := NonEmptyLines(file.value);
      |r| == (if limit > 0 then Min(limit, |kept|) else |kept|) &&
      forall i :: 0 <= i < |r| ==> r[i] == kept[|kept| - 1 - i]
  {
    match file
    case None => []
    case Some(lines) =>
      var reversed := Reverse(NonEmptyLines(lines));
      if limit > 0 && limit < |reversed| then reversed[..limit] else reversed
  }

  /** Read without a limit, the last non-empty line of the file comes first and every
      non-empty line is there. */
  lemma ReadNewestFirst(lines: seq<string>, last: string)
    requires last != ""
    ensures |ReadLogFile(Some(lines + [last]), 0)| > 0 && ReadLogFile(Some(lines + [last]), 0)[0] == last
    ensures forall l :: l in ReadLogFile(Some(lines), 0) <==> l in lines && l != ""
  {
    var all := lines + [last];
    assert all[1..] == (lines + [last])[1..];
    NonEmptyLast(lines, last);
    var r := Reverse(NonEmptyLines(lines));
    forall l | l in r ensures l in NonEmptyLines(lines) {
      var i :| 0 <= i < |r| && r[i] == l;
    }
    forall l | l in NonEmptyLines(lines) ensures l in r {
      var k :| 0 <= k < |NonEmptyLines(lines)| && NonEmptyLines(lines)[k] == l;
      assert r[|r| - 1 - k] == l;
    }
  }

  lemma {:induction false} NonEmptyLast(lines: seq<string>, last: string)
    requires last != ""
    ensures NonEmptyLines(lines + [last]) == NonEmptyLines(lines) + [last]
    decreases |lines|
  {
    if lines == [] {
      assert NonEmptyLines([last]) == [last] + NonEmptyLines([]);
    } else {
      assert (lines + [last])[1..] == lines[1..] + [last];
      NonEmptyLast(lines[1..], last);
    }
  }

  /** A positive limit keeps the newest lines, in the same order. */
  lemma ReadLimitIsPrefix(file: Option<seq<string>>, limit: int)
    requires limit > 0
    ensures ReadLogFile(file, limit) == ReadLogFile(file, 0)[..|ReadLogFile(file, limit)|]
    ensures |ReadLogFile(file, limit)| == Min(limit, |ReadLogFile(file, 0)|)
  {
  }

  function Min(a: int, b: int): int
  {
    if a < b then a else b
  }

  function Max(a: int, b: int): int
  {
    if a < b then b else a
  }

  // ---------------------------------------------------------------------------
  // parseLogLine (logs.php:37-63)

  /** The length of a "YYYY-MM-DD HH:MM:SS" timestamp. */
  const TimestampLength: nat := 19

  /** The character the timestamp pattern expects at position i: a digit, or one of
      the separators '-', ' ' and ':'. */
  predicate TimestampCharAt(c: char, i: nat)
  {
    if i == 4 || i == 7 then c == '-'
    else if i == 10 then c == ' '
    else if i == 13 || i == 16 then c == ':'
    else IsDigit(c)
  }

  /** preg_match('/^(\d{4}-\d{2}-\d{2} \d{2}:\d{2}:\d{2})/', line) */
  predicate StartsWithTimestamp(line: string)
  {
    |line| >= TimestampLength && forall i :: 0 <= i < TimestampLength ==> TimestampCharAt(line[i], i)
  }

  /** The keyword tests, each a case-insensitive substring search of the whole line,
      in the order the page applies them. */
  function Classify(line: string): Level
  {
    if ContainsCI(line, "error") || ContainsCI(line, "erreur") then Error
    else if ContainsCI(line, "warning") || ContainsCI(line, "avertissement") then Warning
    else if ContainsCI(line, "debug") then Debug
    else if ContainsCI(line, "succès") || ContainsCI(line, "success") then Success
    else Info
  }

  function ParseLogLine(line: string): (p: Parsed)
    ensures p.raw == line && p.level == Classify(line)
    ensures p.timestamp == "" || |p.timestamp| == TimestampLength
    ensures StartsWithTimestamp(line) ==>
      p.timestamp == line[..TimestampLength] &&
      p.message == (if |line| > TimestampLength then line[TimestampLength + 1..] else "")
    ensures !StartsWithTimestamp(line) ==> p.timestamp == "" && p.message == line
  {
    if StartsWithTimestamp(line) then
      // substr($line, 19 + 1): the text after the timestamp and one more character
      Parsed(line, line[..TimestampLength], Classify(line),
             if |line| >= TimestampLength + 1 then line[TimestampLength + 1..] else "")
    else Parsed(line, "", Classify(line), line)
  }

  /** A line "<timestamp> <message>" is split back into its timestamp and message. */
  lemma ParseStampedLine(stamp: string, message: string)
    requires |stamp| == TimestampLength
    requires forall i :: 0 <= i < TimestampLength ==> TimestampCharAt(stamp[i], i)
    ensures ParseLogLine(stamp + " " + message).timestamp == stamp
    ensures ParseLogLine(stamp + " " + message).message == message
  {
    var line := stamp + " " + message;
    assert forall i :: 0 <= i < TimestampLength ==> line[i] == stamp[i];
    assert line[..TimestampLength] == stamp;
    assert line[TimestampLength + 1..] == message;
  }

  /** A line that does not start with the timestamp pattern keeps the whole line as
      message and has no timestamp. */
  lemma ParseUnstampedLine(line: string)
    requires !StartsWithTimestamp(line)
    ensures ParseLogLine(line).timestamp == ""
    ensures ParseLogLine(line).message == line
  {
  }

  /** In particular a line that opens with anything but a digit has no timestamp. */
  lemma NonDigitLineUnstamped(line: string)
    requires |line| > 0 && !IsDigit(line[0])
    ensures !StartsWithTimestamp(line)
  {
    assert !TimestampCharAt(line[0], 0);
  }

  /** A timestamp is never PHP-empty unless it is absent: it is either "" or 19
      characters long. */
  lemma TimestampEmptiness(line: string)
    ensures PhpEmpty(ParseLogLine(line).timestamp) <==> !StartsWithTimestamp(line)
  {
  }

  /** First match wins: an error keyword makes the line ERROR whatever else it says. */
  lemma ErrorKeywordWins(line: string)
    requires ContainsCI(line, "error") || ContainsCI(line, "erreur")
    ensures ParseLogLine(line).level == Error
  {
  }

  /** The level is INFO exactly when none of the eight keywords occurs. */
  lemma InfoWhenNoKeyword(line: string)
    ensures ParseLogLine(line).level == Info <==>
      !ContainsCI(line, "error") && !ContainsCI(line, "erreur") &&
      !ContainsCI(line, "warning") && !ContainsCI(line, "avertissement") &&
      !ContainsCI(line, "debug") &&
      !ContainsCI(line, "succès") && !ContainsCI(line, "success")
  {
  }

  lemma LowerUpper(s: string)
    ensures Lower(Upper(s)) == Lower(s)
  {
    assert forall i :: 0 <= i < |s| ==> LowerChar(UpperChar(s[i])) == LowerChar(s[i]);
  }

  /** The classification ignores ASCII case: an upper-cased line gets the same level. */
  lemma ClassifyIgnoresCase(line: string)
    ensures Classify(Upper(line)) == Classify(line)
  {
    LowerUpper(line);
  }

  // ---------------------------------------------------------------------------
  // The usort comparator (logs.php:99-110)

  /** The sign of strcmp($a, $b): byte-wise lexicographic order. */
  function StrCmp(a: string, b: string): (r: int)
    ensures -1 <= r <= 1
  {
    if a == [] && b == [] then 0
    else if a == [] then -1
    else if b == [] then 1
    else if a[0] < b[0] then -1
    else if a[0] > b[0] then 1
    else StrCmp(a[1..], b[1..])
  }

  lemma {:induction false} StrCmpAntisymmetric(a: string, b: string)
    ensures StrCmp(a, b) == -StrCmp(b, a)
    ensures StrCmp(a, b) == 0 <==> a == b
    decreases |a|
  {
    if a != [] && b != [] && a[0] == b[0] {
      StrCmpAntisymmetric(a[1..], b[1..]);
      assert a == [a[0]] + a[1..] && b == [b[0]] + b[1..];
    }
  }

  lemma {:induction false} StrCmpTransitive(a: string, b: string, c: string)
    requires StrCmp(a, b) <= 0 && StrCmp(b, c) <= 0
    ensures StrCmp(a, c) <= 0
    decreases |a|
  {
    if a != [] && b != [] && c != [] && a[0] == b[0] && b[0] == c[0] {
      StrCmpTransitive(a[1..], b[1..], c[1..]);
    }
  }

  /** The comparator: two untimestamped entries tie, an untimestamped entry goes after
      a timestamped one, and two timestamps compare in reverse strcmp order. */
  function CompareLogs(a: LogEntry, b: LogEntry): (r: int)
    ensures -1 <= r <= 1
  {
    if PhpEmpty(a.parsed.timestamp) && PhpEmpty(b.parsed.timestamp) then 0
    else if PhpEmpty(a.parsed.timestamp) then 1
    else if PhpEmpty(b.parsed.timestamp) then -1
    else StrCmp(b.parsed.timestamp, a.parsed.timestamp)
  }

  /** The comparator is a total preorder: antisymmetric in sign, reflexive and
      transitive, so usort's result is well defined up to ties. */
  lemma CompareAntisymmetric(a: LogEntry, b: LogEntry)
    ensures CompareLogs(a, b) == -CompareLogs(b, a)
    ensures CompareLogs(a, a) == 0
  {
    StrCmpAntisymmetric(b.parsed.timestamp, a.parsed.timestamp);
    StrCmpAntisymmetric(a.parsed.timestamp, a.parsed.timestamp);
  }

  lemma CompareTransitive(a: LogEntry, b: LogEntry, c: LogEntry)
    requires CompareLogs(a, b) <= 0 && CompareLogs(b, c) <= 0
    ensures CompareLogs(a, c) <= 0
  {
    if !PhpEmpty(a.parsed.timestamp) && !PhpEmpty(b.parsed.timestamp) && !PhpEmpty(c.parsed.timestamp) {
      StrCmpTransitive(c.parsed.timestamp, b.parsed.timestamp, a.parsed.timestamp);
    }
  }

  /** Entries lo..hi-1 of s are in comparator order. */
  predicate SortedBetween(s: seq<LogEntry>, lo: int, hi: int)
    requires 0 <= lo <= hi <= |s|
  {
    forall i, j :: lo <= i < j < hi ==> CompareLogs(s[i], s[j]) <= 0
  }

  predicate Sorted(s: seq<LogEntry>)
  {
    SortedBetween(s, 0, |s|)
  }

  /** usort($allLogs, comparator), as an insertion sort: the array ends up in
      comparator order, holds the same entries, and is stable like PHP 8's usort:
      the entries that tie with any given entry keep their order. */
  method SortLogs(a: array<LogEntry>)
    modifies a
    ensures Sorted(a[..])
    ensures multiset(a[..]) == multiset(old(a[..]))
    ensures SameTies(a[..], old(a[..]))
  {
    var i := 0;
    while i < a.Length
      invariant 0 <= i <= a.Length
      invariant SortedBetween(a[..], 0, i)
      invariant multiset(a[..]) == multiset(old(a[..]))
      invariant SameTies(a[..], old(a[..]))
    {
      InsertEntry(a, i);
      i := i + 1;
    }
  }

  /** Moves a[i] down into the sorted prefix a[..i]. */
  method InsertEntry(a: array<LogEntry>, i: int)
    requires 0 <= i < a.Length && SortedBetween(a[..], 0, i)
    modifies a
    ensures SortedBetween(a[..], 0, i + 1)
    ensures multiset(a[..]) == multiset(old(a[..]))
    ensures SameTies(a[..], old(a[..]))
  {
    var j := i;
    while j > 0 && CompareLogs(a[j - 1], a[j]) > 0
      invariant 0 <= j <= i
      invariant SortedBetween(a[..], 0, j) && SortedBetween(a[..], j, i + 1)
      invariant forall k, m :: 0 <= k < j < m <= i ==> CompareLogs(a[k], a[m]) <= 0
      invariant multiset(a[..]) == multiset(old(a[..]))
      invariant SameTies(a[..], old(a[..]))
    {
      ghost var before := a[..];
      a[j - 1], a[j] := a[j], a[j - 1];
      SwapStep(before, a[..], j, i);
      j := j - 1;
    }
    InsertionDone(a[..], j, i);
  }

  /** The entries of s that tie with x under the comparator, in their order in s. */
  function TiedWith(s: seq<LogEntry>, x: LogEntry): (r: seq<LogEntry>)
    ensures |r| <= |s|
    ensures forall k :: 0 <= k < |r| ==> CompareLogs(r[k], x) == 0
  {
    if s == [] then [] else (if CompareLogs(s[0], x) == 0 then [s[0]] else []) + TiedWith(s[1..], x)
  }

  /** Every tie class appears in the same order in s and t: t is a stable
      rearrangement of s. */
  ghost predicate SameTies(s: seq<LogEntry>, t: seq<LogEntry>)
  {
    forall x :: TiedWith(s, x) == TiedWith(t, x)
  }

  lemma {:induction false} TiedWithAppend(s: seq<LogEntry>, t: seq<LogEntry>, x: LogEntry)
    ensures TiedWith(s + t, x) == TiedWith(s, x) + TiedWith(t, x)
  {
    if s == [] {
      assert s + t == t;
    } else {
      assert (s + t)[1..] == s[1..] + t;
      TiedWithAppend(s[1..], t, x);
    }
  }

  /** Two entries that tie with the same entry tie with each other. */
  lemma TiesTie(e: LogEntry, f: LogEntry, x: LogEntry)
    requires CompareLogs(e, x) == 0 && CompareLogs(f, x) == 0
    ensures CompareLogs(e, f) == 0
  {
    CompareAntisymmetric(f, x);
    CompareAntisymmetric(e, x);
    CompareTransitive(e, x, f);
    CompareTransitive(f, x, e);
    CompareAntisymmetric(e, f);
  }

  /** Swapping an out-of-order pair never swaps two entries of one tie class. */
  lemma SwapKeepsTies(s: seq<LogEntry>, t: seq<LogEntry>, j: int)
    requires 0 < j < |s|
    requires t == s[j - 1 := s[j]][j := s[j - 1]]
    requires CompareLogs(s[j - 1], s[j]) > 0
    ensures SameTies(t, s)
  {
    var front := s[..j - 1];
    var back := s[j + 1..];
    assert s == front + ([s[j - 1]] + ([s[j]] + back));
    assert t == front + ([s[j]] + ([s[j - 1]] + back));
    forall x
      ensures TiedWith(t, x) == TiedWith(s, x)
    {
      if CompareLogs(s[j - 1], x) == 0 && CompareLogs(s[j], x) == 0 {
        TiesTie(s[j - 1], s[j], x);
        assert false;
      }
      TiedWithAppend(front, [s[j - 1]] + ([s[j]] + back), x);
      TiedWithAppend([s[j - 1]], [s[j]] + back, x);
      TiedWithAppend([s[j]], back, x);
      TiedWithAppend(front, [s[j]] + ([s[j - 1]] + back), x);
      TiedWithAppend([s[j]], [s[j - 1]] + back, x);
      TiedWithAppend([s[j - 1]], back, x);
    }
  }

  /** Swapping an out-of-order pair moves the gap one place down and keeps the
      entries. */
  lemma SwapStep(s: seq<LogEntry>, t: seq<LogEntry>, j: int, i: int)
    requires 0 < j <= i < |s|
    requires t == s[j - 1 := s[j]][j := s[j - 1]]
    requires CompareLogs(s[j - 1], s[j]) > 0
    requires SortedBetween(s, 0, j) && SortedBetween(s, j, i + 1)
    requires forall k, m :: 0 <= k < j < m <= i ==> CompareLogs(s[k], s[m]) <= 0
    ensures |t| == |s|
    ensures SortedBetween(t, 0, j - 1) && SortedBetween(t, j - 1, i + 1)
    ensures forall k, m :: 0 <= k < j - 1 < m <= i ==> CompareLogs(t[k], t[m]) <= 0
    ensures multiset(t) == multiset(s)
    ensures SameTies(t, s)
  {
    SwapKeepsTies(s, t, j);
    CompareAntisymmetric(s[j - 1], s[j]);
    SwapKeepsOrder(s, t, j, i);
    SwapKeepsEntries(s, j);
  }

  /** One step of the inner loop keeps its invariant. */
  lemma SwapKeepsOrder(s: seq<LogEntry>, t: seq<LogEntry>, j: int, i: int)
    requires 0 < j <= i < |s| == |t|
    requires t == s[j - 1 := s[j]][j := s[j - 1]]
    requires CompareLogs(s[j], s[j - 1]) < 0
    requires SortedBetween(s, 0, j) && SortedBetween(s, j, i + 1)
    requires forall k, m :: 0 <= k < j < m <= i ==> CompareLogs(s[k], s[m]) <= 0
    ensures SortedBetween(t, 0, j - 1) && SortedBetween(t, j - 1, i + 1)
    ensures forall k, m :: 0 <= k < j - 1 < m <= i ==> CompareLogs(t[k], t[m]) <= 0
  {
  }

  /** Swapping two neighbours keeps the same entries. */
  lemma SwapKeepsEntries(s: seq<LogEntry>, j: int)
    requires 0 < j < |s|
    ensures multiset(s[j - 1 := s[j]][j := s[j - 1]]) == multiset(s)
  {
  }

  /** The inner loop stops at a place where the entry fits: the first i+1 entries are
      then in order. */
  lemma InsertionDone(s: seq<LogEntry>, j: int, i: int)
    requires 0 <= j <= i < |s|
    requires SortedBetween(s, 0, j) && SortedBetween(s, j, i + 1)
    requires forall k, m :: 0 <= k < j < m <= i ==> CompareLogs(s[k], s[m]) <= 0
    requires j == 0 || CompareLogs(s[j - 1], s[j]) <= 0
    ensures SortedBetween(s, 0, i + 1)
  {
    forall k, m | 0 <= k < m < i + 1
      ensures CompareLogs(s[k], s[m]) <= 0
    {
      if k < j && m == j && k < j - 1 {
        CompareTransitive(s[k], s[j - 1], s[j]);
      }
    }
  }

  /** After sorting, every timestamped entry comes before every untimestamped one. */
  lemma TimestampedFirst(s: seq<LogEntry>, i: int, j: int)
    requires Sorted(s) && 0 <= i < j < |s|
    requires !PhpEmpty(s[j].parsed.timestamp)
    ensures !PhpEmpty(s[i].parsed.timestamp)
  {
  }

  /** After sorting, timestamped entries are in non-increasing strcmp order. */
  lemma NewestFirst(s: seq<LogEntry>, i: int, j: int)
    requires Sorted(s) && 0 <= i < j < |s|
    requires !PhpEmpty(s[i].parsed.timestamp) && !PhpEmpty(s[j].parsed.timestamp)
    ensures StrCmp(s[i].parsed.timestamp, s[j].parsed.timestamp) >= 0
  {
    StrCmpAntisymmetric(s[j].parsed.timestamp, s[i].parsed.timestamp);
  }

  // ---------------------------------------------------------------------------
  // The search filter (logs.php:113-117)

  predicate MatchesSearch(e: LogEntry, search: string)
  {
    ContainsCI(e.parsed.message, search)
  }

  /** array_filter with stripos on the message, keeping the order. */
  function KeepMatching(logs: seq<LogEntry>, search: string): (r: seq<LogEntry>)
    ensures |r| <= |logs|
    ensures forall e :: e in r <==> e in logs && MatchesSearch(e, search)
  {
    if logs == [] then []
    else (if MatchesSearch(logs[0], search) then [logs[0]] else []) + KeepMatching(logs[1..], search)
  }

  /** The filter applies only when the trimmed search is not PHP-empty ("" or "0"). */
  function FilterBySearch(logs: seq<LogEntry>, search: string): seq<LogEntry>
  {
    if PhpEmpty(search) then logs else KeepMatching(logs, search)
  }

  lemma {:induction false} KeepMatchingAppend(a: seq<LogEntry>, b: seq<LogEntry>, search: string)
    ensures KeepMatching(a + b, search) == KeepMatching(a, search) + KeepMatching(b, search)
    decreases |a|
  {
    if a != [] {
      assert (a + b)[0] == a[0];
      assert (a + b)[1..] == a[1..] + b;
      KeepMatchingAppend(a[1..], b, search);
    } else {
      assert a + b == b;
    }
  }

  /** Filtering keeps the comparator order. */
  lemma {:induction false} KeepMatchingSorted(s: seq<LogEntry>, search: string)
    requires Sorted(s)
    ensures Sorted(KeepMatching(s, search))
    decreases |s|
  {
    if s != [] {
      assert SortedBetween(s[1..], 0, |s| - 1) by {
        forall i, j | 0 <= i < j < |s| - 1 ensures CompareLogs(s[1..][i], s[1..][j]) <= 0 {
          assert s[1..][i] == s[i + 1] && s[1..][j] == s[j + 1];
        }
      }
      KeepMatchingSorted(s[1..], search);
      var rest := KeepMatching(s[1..], search);
      forall e | e in rest ensures CompareLogs(s[0], e) <= 0 {
        var k :| 0 <= k < |s[1..]| && s[1..][k] == e;
        assert s[k + 1] == e;
      }
    }
  }

  /** The filter keeps the same entries, as a multiset, of any reordering. */
  lemma {:induction false} KeepMatchingPermutation(s: seq<LogEntry>, t: seq<LogEntry>, search: string)
    requires multiset(s) == multiset(t)
    ensures multiset(KeepMatching(s, search)) == multiset(KeepMatching(t, search))
    decreases |s|
  {
    if s != [] {
      var x := s[0];
      assert x in multiset(t);
      var i :| 0 <= i < |t| && t[i] == x;
      var t' := t[..i] + t[i + 1..];
      assert t == t[..i] + [x] + t[i + 1..];
      assert s == [x] + s[1..];
      assert multiset(t) == multiset(t[..i]) + multiset([x]) + multiset(t[i + 1..]);
      assert multiset(s) == multiset([x]) + multiset(s[1..]);
      assert multiset(t') == multiset(t[..i]) + multiset(t[i + 1..]);
      assert multiset(t') == multiset(t) - multiset{x};
      assert multiset(s[1..]) == multiset(s) - multiset{x};
      KeepMatchingPermutation(s[1..], t', search);
      KeepMatchingAppend(t[..i] + [x], t[i + 1..], search);
      KeepMatchingAppend(t[..i], [x], search);
      KeepMatchingAppend(t[..i], t[i + 1..], search);
      KeepMatchingAppend([x], s[1..], search);
    }
  }

  // ---------------------------------------------------------------------------
  // Collecting the entries (logs.php:78-96, 128-144)

  function Tagged(lines: seq<string>, kind: Kind): (r: seq<LogEntry>)
    ensures |r| == |lines|
    ensures forall i :: 0 <= i < |lines| ==> r[i].parsed.raw == lines[i] && r[i].kind == kind
  {
    seq(|lines|, i requires 0 <= i < |lines| => LogEntry(ParseLogLine(lines[i]), kind))
  }

  lemma TaggedSnoc(lines: seq<string>, k: int, kind: Kind)
    requires 0 <= k < |lines|
    ensures Tagged(lines[..k + 1], kind) == Tagged(lines[..k], kind) + [LogEntry(ParseLogLine(lines[k]), kind)]
  {
    assert lines[..k + 1][..k] == lines[..k];
  }

  predicate ReadsSent(logType: string)
  {
    logType == "all" || logType == "sent"
  }

  predicate ReadsErrors(logType: string)
  {
    logType == "all" || logType == "error"
  }

  /** The entries of the selected logs: the sent log's, then the error log's. */
  function Collected(logType: string, sentFile: Option<seq<string>>, errorFile: Option<seq<string>>): seq<LogEntry>
  {
    (if ReadsSent(logType) then Tagged(ReadLogFile(sentFile, 0), SentLog) else []) +
    (if ReadsErrors(logType) then Tagged(ReadLogFile(errorFile, 0), ErrorLog) else [])
  }

  /** The two foreach loops that parse and tag every line read. */
  method CollectLogs(logType: string, sentFile: Option<seq<string>>, errorFile: Option<seq<string>>)
    returns (logs: seq<LogEntry>)
    ensures logs == Collected(logType, sentFile, errorFile)
  {
    logs := [];
    if ReadsSent(logType) {
      var lines := ReadLogFile(sentFile, 0);
      for k := 0 to |lines|
        invariant logs == Tagged(lines[..k], SentLog)
      {
        TaggedSnoc(lines, k, SentLog);
        logs := logs + [LogEntry(ParseLogLine(lines[k]), SentLog)];
      }
      assert lines[..|lines|] == lines;
    }
    var first := logs;
    if ReadsErrors(logType) {
      var lines := ReadLogFile(errorFile, 0);
      for k := 0 to |lines|
        invariant logs == first + Tagged(lines[..k], ErrorLog)
      {
        TaggedSnoc(lines, k, ErrorLog);
        logs := logs + [LogEntry(ParseLogLine(lines[k]), ErrorLog)];
      }
      assert lines[..|lines|] == lines;
    }
  }

  /** The "error" type reads only the error log, "sent" only the sent log, and any
      other value than those and "all" reads nothing. */
  lemma CollectedByType(sentFile: Option<seq<string>>, errorFile: Option<seq<string>>, other: string)
    requires other != "all" && other != "sent" && other != "error"
    ensures forall e :: e in Collected("error", sentFile, errorFile) ==> e.kind == ErrorLog
    ensures forall e :: e in Collected("sent", sentFile, errorFile) ==> e.kind == SentLog
    ensures Collected(other, sentFile, errorFile) == []
    ensures |Collected("all", sentFile, errorFile)| ==
      |Collected("sent", sentFile, errorFile)| + |Collected("error", sentFile, errorFile)|
  {
    var e := Tagged(ReadLogFile(errorFile, 0), ErrorLog);
    var s := Tagged(ReadLogFile(sentFile, 0), SentLog);
    assert Collected("error", sentFile, errorFile) == [] + e;
    assert Collected("sent", sentFile, errorFile) == s + [];
  }

  // ---------------------------------------------------------------------------
  // Pagination (logs.php:67-69, 119-125, 622-623)

  /** array_slice($s, $offset, $length) with PHP's clamping of a negative or too large
      offset and of a negative or too large length. */
  function ArraySlice<T>(s: seq<T>, offset: int, length: int): (r: seq<T>)
    ensures |r| <= |s|
    ensures 0 <= offset && 0 <= length ==> r == s[Min(offset, |s|)..Min(offset + length, |s|)]
  {
    var n := |s|;
    if offset > n then []
    else
      var start := if offset < 0 then Max(0, n + offset) else offset;
      var len := if length < 0 then n - start + length
                 else if start + length > n then n - start else length;
      if len <= 0 then [] else s[start..start + len]
  }

  /** ceil($total / $limit) for a non-zero limit. */
  function CeilDiv(total: nat, limit: int): int
    requires limit != 0
  {
    if limit > 0 then (total + limit - 1) / limit else -(total / -limit)
  }

  datatype Pagination = Pagination(totalLogs: nat, totalPages: int, page: int, offset: int, shown: seq<LogEntry>)

  /** The PHP outcome: a page, or the DivisionByZeroError that ceil($total / 0)
      raises. */
  datatype Outcome<T> = Shown(value: T) | DivisionByZero

  /** max(1, (int)$_GET['page']), 1 when absent. */
  function PageNumber(query: map<string, string>): (page: int)
    ensures page >= 1
  {
    if "page" in query then Max(1, IntCast(query["page"])) else 1
  }

  /** (int)$_GET['limit'], 50 when absent. */
  function PageSize(query: map<string, string>): int
  {
    if "limit" in query then IntCast(query["limit"]) else 50
  }

  /** Lines 120-125 as written: the page count divides by the page size unchecked. */
  function Paginate(logs: seq<LogEntry>, page: int, limit: int): (r: Outcome<Pagination>)
    ensures r.DivisionByZero? <==> limit == 0
  {
    if limit == 0 then DivisionByZero
    else
      var offset := (page - 1) * limit;
      Shown(Pagination(|logs|, CeilDiv(|logs|, limit), page, offset, ArraySlice(logs, offset, limit)))
  }

  /** A request with limit=0 (or a non-numeric limit, which (int) turns into 0) stops
      the page with a DivisionByZeroError. */
  lemma ZeroLimitFails(logs: seq<LogEntry>, query: map<string, string>)
    requires "limit" in query && query["limit"] == "abc"
    ensures Paginate(logs, PageNumber(query), PageSize(query)).DivisionByZero?
  {
    assert TrimLeft(query["limit"], NumericLead) == query["limit"];
  }

  /** A negative limit does not fail: page 1 shows the list without its last |limit|
      entries, and the page count is zero or negative. */
  lemma NegativeLimitDropsTail(logs: seq<LogEntry>, limit: int)
    requires limit < 0
    ensures Paginate(logs, 1, limit).Shown?
    ensures Paginate(logs, 1, limit).value.shown == logs[..Max(0, |logs| + limit)]
    ensures Paginate(logs, 1, limit).value.totalPages <= 0
  {
    var r := Paginate(logs, 1, limit).value;
    assert r.offset == 0;
    if |logs| + limit > 0 {
      assert r.shown == logs[0..|logs| + limit];
    }
  }

  /** The page size the page evidently means: at least 1, clamped like the page
      number at logs.php:69. */
  function EffectiveLimit(limit: int): (r: int)
    ensures r >= 1
  {
    Max(1, limit)
  }

  /** Pagination with the page size clamped to at least 1: it never fails. */
  function PaginateClamped(logs: seq<LogEntry>, page: int, limit: int): (r: Pagination)
    requires page >= 1
    ensures Paginate(logs, page, EffectiveLimit(limit)) == Shown(r)
    ensures |r.shown| <= EffectiveLimit(limit) && r.offset >= 0
    ensures r.totalPages * EffectiveLimit(limit) >= |logs|
    ensures |logs| > 0 ==> (r.totalPages - 1) * EffectiveLimit(limit) < |logs|
  {
    var l := EffectiveLimit(limit);
    var r := Paginate(logs, page, l).value;
    CeilDivBounds(|logs|, l);
    r
  }

  lemma CeilDivBounds(total: nat, limit: int)
    requires limit >= 1
    ensures CeilDiv(total, limit) * limit >= total
    ensures total > 0 ==> (CeilDiv(total, limit) - 1) * limit < total
    ensures CeilDiv(total, limit) >= 0
  {
    var q := (total + limit - 1) / limit;
    var m := (total + limit - 1) % limit;
    assert total + limit - 1 == q * limit + m;
  }

  /** Every entry is shown on exactly the page its index falls in, at its position
      within that page, and that page exists. */
  lemma EntryOnItsPage(logs: seq<LogEntry>, limit: int, k: int)
    requires limit >= 1 && 0 <= k < |logs|
    ensures k / limit + 1 <= PaginateClamped(logs, k / limit + 1, limit).totalPages
    ensures k % limit < |PaginateClamped(logs, k / limit + 1, limit).shown|
    ensures PaginateClamped(logs, k / limit + 1, limit).shown[k % limit] == logs[k]
  {
    var page := k / limit + 1;
    var r := PaginateClamped(logs, page, limit);
    assert EffectiveLimit(limit) == limit;
    var q, m := k / limit, k % limit;
    DivModParts(k, limit);
    assert r.offset == q * limit;
    assert r.shown == logs[Min(q * limit, |logs|)..Min(q * limit + limit, |logs|)];
    CeilDivBounds(|logs|, limit);
    PageExists(q, limit, |logs|, r.totalPages);
  }

  lemma DivModParts(k: int, limit: int)
    requires limit >= 1 && k >= 0
    ensures k == (k / limit) * limit + k % limit && 0 <= k % limit < limit && k / limit >= 0
  {
  }

  /** An index q*limit below the total lies on an existing page. */
  lemma PageExists(q: int, limit: int, total: int, pages: int)
    requires limit >= 1 && q >= 0 && q * limit < total && pages * limit >= total
    ensures q + 1 <= pages
  {
    if q + 1 > pages {
      assert q >= pages;
      MulMonotone(pages, q, limit);
    }
  }

  lemma MulMonotone(a: int, b: int, c: int)
    requires a <= b && c >= 0
    ensures a * c <= b * c
  {
    assert b * c - a * c == (b - a) * c;
  }

  /** The page links run from max(1, page-2) to min(totalPages, page+2). */
  function PageWindow(page: int, totalPages: int): (int, int)
  {
    (Max(1, page - 2), Min(totalPages, page + 2))
  }

  /** At most five links, all naming existing pages, and the current page among them
      when it exists. */
  lemma PageWindowBounds(page: int, totalPages: int)
    requires page >= 1
    ensures PageWindow(page, totalPages).1 - PageWindow(page, totalPages).0 <= 4
    ensures PageWindow(page, totalPages).0 >= 1 && PageWindow(page, totalPages).1 <= totalPages
    ensures page <= totalPages ==> PageWindow(page, totalPages).0 <= page <= PageWindow(page, totalPages).1
  {
  }

  // ---------------------------------------------------------------------------
  // Statistics (logs.php:152-158)

  datatype Stats = Stats(total: nat, sent: nat, error: nat, success: nat, debug: nat)

  function CountKind(logs: seq<LogEntry>, kind: Kind): (n: nat)
    ensures n <= |logs|
  {
    if logs == [] then 0 else (if logs[0].kind == kind then 1 else 0) + CountKind(logs[1..], kind)
  }

  function CountLevel(logs: seq<LogEntry>, level: Level): (n: nat)
    ensures n <= |logs|
  {
    if logs == [] then 0 else (if logs[0].parsed.level == level then 1 else 0) + CountLevel(logs[1..], level)
  }

  function ComputeStats(logs: seq<LogEntry>): Stats
  {
    Stats(|logs|, CountKind(logs, SentLog), CountKind(logs, ErrorLog),
          CountLevel(logs, Success), CountLevel(logs, Debug))
  }

  /** Every entry is tagged 'sent' or 'error', so the two counters add up to the total. */
  lemma {:induction false} SentAndErrorAddUp(logs: seq<LogEntry>)
    ensures CountKind(logs, SentLog) + CountKind(logs, ErrorLog) == |logs|
    decreases |logs|
  {
    if logs != [] {
      SentAndErrorAddUp(logs[1..]);
    }
  }

  // ---------------------------------------------------------------------------
  // The page (logs.php:65-158)

  datatype LogsView = LogsView(ordered: seq<LogEntry>, matching: seq<LogEntry>, pagination: Pagination, stats: Stats)

  /** $_GET['type'] ?? 'all' */
  function LogType(query: map<string, string>): string
  {
    if "type" in query then query["type"] else "all"
  }

  /** trim($_GET['search']) ?? '' */
  function SearchTerm(query: map<string, string>): string
  {
    if "search" in query then TrimWs(query["search"]) else ""
  }

  /** The page's PHP block: collect, sort, filter, paginate and count. A page size of
      0 stops the request at the page count with a DivisionByZeroError; otherwise
      the view holds the sorted entries, the matching ones, the page as written and
      the statistics, and for a positive page size the page is the clamped one. */
  method LogsPage(query: map<string, string>, sentFile: Option<seq<string>>, errorFile: Option<seq<string>>)
    returns (result: Outcome<LogsView>)
    ensures result.DivisionByZero? <==> PageSize(query) == 0
    ensures result.Shown? ==>
      var view := result.value;
      multiset(view.ordered) == multiset(Collected(LogType(query), sentFile, errorFile)) &&
      Sorted(view.ordered) &&
      view.matching == FilterBySearch(view.ordered, SearchTerm(query)) &&
      Paginate(view.matching, PageNumber(query), PageSize(query)) == Shown(view.pagination) &&
      view.stats == ComputeStats(FilterBySearch(Collected(LogType(query), sentFile, errorFile), SearchTerm(query))) &&
      view.stats.total == view.pagination.totalLogs
    ensures result.Shown? && PageSize(query) >= 1 ==>
      result.value.pagination == PaginateClamped(result.value.matching, PageNumber(query), PageSize(query))
  {
    var logType := LogType(query);
    var search := SearchTerm(query);
    var collected := CollectLogs(logType, sentFile, errorFile);
    var a := new LogEntry[|collected|](i requires 0 <= i < |collected| => collected[i]);
    assert a[..] == collected;
    SortLogs(a);
    var ordered := a[..];
    var matching := FilterBySearch(ordered, search);
    var outcome := Paginate(matching, PageNumber(query), PageSize(query));
    if outcome.DivisionByZero? {
      return DivisionByZero;
    }
    var pagination := outcome.value;
    var forStats := CollectLogs(logType, sentFile, errorFile);
    var stats := ComputeStats(FilterBySearch(forStats, search));
    if !PhpEmpty(search) {
      KeepMatchingPermutation(ordered, forStats, search);
      assert |multiset(KeepMatching(ordered, search))| == |multiset(KeepMatching(forStats, search))|;
    } else {
      assert |multiset(ordered)| == |multiset(forStats)|;
    }
    result := Shown(LogsView(ordered, matching, pagination, stats));
  }

  /** What the page lists is sorted and is exactly the matching part of the logs:
      every shown entry comes from a selected log and matches the search. */
  lemma ShownEntriesMatch(ordered: seq<LogEntry>, search: string, page: int, limit: int)
    requires Sorted(ordered) && page >= 1
    ensures Sorted(FilterBySearch(ordered, search))
    ensures forall e :: e in PaginateClamped(FilterBySearch(ordered, search), page, limit).shown ==>
      e in ordered && (PhpEmpty(search) || MatchesSearch(e, search))
  {
    if !PhpEmpty(search) {
      KeepMatchingSorted(ordered, search);
    }
    ShownFromLogs(FilterBySearch(ordered, search), page, limit);
  }

  /** A page only shows entries of the list it paginates. */
  lemma ShownFromLogs(logs: seq<LogEntry>, page: int, limit: int)
    requires page >= 1
    ensures forall e :: e in PaginateClamped(logs, page, limit).shown ==> e in logs
  {
    var r := PaginateClamped(logs, page, limit);
    var l := EffectiveLimit(limit);
    assert r.shown == ArraySlice(logs, r.offset, l);
    var lo, hi := Min(r.offset, |logs|), Min(r.offset + l, |logs|);
    assert r.shown == logs[lo..hi];
    forall e | e in r.shown ensures e in logs {
      var k :| 0 <= k < |r.shown| && r.shown[k] == e;
      assert e == logs[lo + k];
    }
  }
}
