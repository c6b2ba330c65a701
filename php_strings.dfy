/** The PHP string primitives the application leans on (explode, implode, trim,
    stripos, str_replace, empty, the (int) cast), stated over seq<char>.
    PHP strings are byte strings; the model uses characters, and case folding is
    ASCII-only, as it is in PHP 8 for stripos and strtoupper. */
module PhpStrings {

  datatype Option<T> = None | Some(value: T)

  /** The characters PHP's trim() strips when no character list is given. */
  const Whitespace: set<char> := {' ', '\t', '\n', '\r', '\0', '\U{000B}'}

  /** The characters matched by the PCRE class \s outside UTF mode. */
  const PcreSpace: set<char> := {' ', '\t', '\n', '\U{000B}', '\U{000C}', '\r'}

  /** The white space PHP skips before a numeric string. */
  const NumericLead: set<char> := {' ', '\t', '\n', '\r', '\U{000B}', '\U{000C}'}

  // ---------------------------------------------------------------------------
  // trim, ltrim, rtrim with an explicit character set

  function TrimLeft(s: string, cs: set<char>): (r: string)
    ensures |r| <= |s| && r == s[|s| - |r|..]
    ensures r == [] || r[0] !in cs
    ensures forall i :: 0 <= i < |s| - |r| ==> s[i] in cs
  {
    if |s| > 0 && s[0] in cs then TrimLeft(s[1..], cs) else s
  }

  function TrimRight(s: string, cs: set<char>): (r: string)
    ensures |r| <= |s| && r == s[..|r|]
    ensures r == [] || r[|r| - 1] !in cs
    ensures forall i :: |r| <= i < |s| ==> s[i] in cs
  {
    if |s| > 0 && s[|s| - 1] in cs then TrimRight(s[..|s| - 1], cs) else s
  }

  function Trim(s: string, cs: set<char>): string
  {
    TrimRight(TrimLeft(s, cs), cs)
  }

  /** trim($s) with PHP's default character list. */
  function TrimWs(s: string): string
  {
    Trim(s, Whitespace)
  }

  /** Trimming a string whose two ends lie outside the set changes nothing. */
  lemma TrimUnchanged(s: string, cs: set<char>)
    requires s == [] || (s[0] !in cs && s[|s| - 1] !in cs)
    ensures Trim(s, cs) == s
  {
    assert TrimLeft(s, cs) == s;
  }

  /** A character outside the set survives trimming. */
  lemma TrimKeepsOther(s: string, cs: set<char>, i: int)
    requires 0 <= i < |s| && s[i] !in cs
    ensures s[i] in Trim(s, cs)
  {
    var l := TrimLeft(s, cs);
    var j := i - (|s| - |l|);
    assert 0 <= j < |l| && l[j] == s[i];
    var r := TrimRight(l, cs);
    assert j < |r|;
    assert r[j] == s[i];
  }

  /** Right-trimming a string that already ends outside the set changes nothing. */
  lemma TrimRightStable(s: string, cs: set<char>)
    requires s == [] || s[|s| - 1] !in cs
    ensures TrimRight(s, cs) == s
  {
  }

  /** Right-trimming s + t where t is drawn from the set and s is already stable gives s. */
  lemma {:induction false} TrimRightAppended(s: string, t: string, cs: set<char>)
    requires s == [] || s[|s| - 1] !in cs
    requires forall i :: 0 <= i < |t| ==> t[i] in cs
    ensures TrimRight(s + t, cs) == s
    decreases |t|
  {
    if |t| == 0 {
      assert s + t == s;
    } else {
      var u := s + t;
      assert u[|u| - 1] == t[|t| - 1];
      assert u[..|u| - 1] == s + t[..|t| - 1];
      TrimRightAppended(s, t[..|t| - 1], cs);
    }
  }

  /** PHP's empty() on a string: true for "" and for "0". */
  predicate PhpEmpty(s: string)
  {
    s == "" || s == "0"
  }

  // ---------------------------------------------------------------------------
  // ASCII case mapping (strtolower / strtoupper / stripos in PHP 8)

  function LowerChar(c: char): char
  {
    if 'A' <= c <= 'Z' then (c as int + 32) as char else c
  }

  function UpperChar(c: char): char
  {
    if 'a' <= c <= 'z' then (c as int - 32) as char else c
  }

  function Lower(s: string): (r: string)
    ensures |r| == |s| && forall i :: 0 <= i < |s| ==> r[i] == LowerChar(s[i])
  {
    seq(|s|, i requires 0 <= i < |s| => LowerChar(s[i]))
  }

  function Upper(s: string): (r: string)
    ensures |r| == |s| && forall i :: 0 <= i < |s| ==> r[i] == UpperChar(s[i])
  {
    seq(|s|, i requires 0 <= i < |s| => UpperChar(s[i]))
  }

  // ---------------------------------------------------------------------------
  // substring search (strpos / stripos)

  predicate ContainsAt(s: string, p: string, i: int)
  {
    0 <= i && i + |p| <= |s| && s[i..i + |p|] == p
  }

  /** strpos($s, $p) !== false */
  predicate Contains(s: string, p: string)
  {
    exists i | 0 <= i <= |s| - |p| :: ContainsAt(s, p, i)
  }

  /** stripos($s, $p) !== false, with ASCII-only case folding. */
  predicate ContainsCI(s: string, p: string)
  {
    Contains(Lower(s), Lower(p))
  }

  lemma ContainsAtWitness(s: string, p: string, i: int)
    requires ContainsAt(s, p, i)
    ensures Contains(s, p)
  {
  }

  /** A pattern whose first character does not occur in s does not occur in s. */
  lemma NotContainsFirstChar(s: string, p: string)
    requires |p| > 0 && p[0] !in s
    ensures !Contains(s, p)
  {
    forall i | 0 <= i <= |s| - |p|
      ensures !ContainsAt(s, p, i)
    {
      assert s[i] in s;
    }
  }

  /** An occurrence in a suffix is an occurrence in the whole string. */
  lemma ContainsSuffix(s: string, p: string, k: nat)
    requires k <= |s| && Contains(s[k..], p)
    ensures Contains(s, p)
  {
    var i :| 0 <= i <= |s[k..]| - |p| && ContainsAt(s[k..], p, i);
    assert s[k + i..k + i + |p|] == s[k..][i..i + |p|];
    assert ContainsAt(s, p, k + i);
  }

  /** The pattern p occurs in a + p + b. */
  lemma ContainsMiddle(a: string, p: string, b: string)
    ensures Contains(a + p + b, p)
  {
    var s := a + p + b;
    assert s[|a|..|a| + |p|] == p;
    assert ContainsAt(s, p, |a|);
  }

  // ---------------------------------------------------------------------------
  // explode / implode with a one-character separator

  /** explode($sep, $s): the pieces between separators, always at least one. */
  function Split(s: string, sep: char): (r: seq<string>)
    ensures |r| >= 1
    ensures forall i :: 0 <= i < |r| ==> sep !in r[i]
  {
    if |s| == 0 then [""]
    else
      var rest := Split(s[1..], sep);
      if s[0] == sep then [""] + rest
      else [[s[0]] + rest[0]] + rest[1..]
  }

  /** implode($sep, $fields) */
  function Join(fields: seq<string>, sep: char): string
  {
    if |fields| == 0 then ""
    else if |fields| == 1 then fields[0]
    else fields[0] + [sep] + Join(fields[1..], sep)
  }

  /** implode undoes explode. */
  lemma {:induction false} JoinSplit(s: string, sep: char)
    ensures Join(Split(s, sep), sep) == s
  {
    if |s| > 0 {
      var rest := Split(s[1..], sep);
      JoinSplit(s[1..], sep);
      if s[0] == sep {
        assert Split(s, sep) == [""] + rest;
        assert Join([""] + rest, sep) == "" + [sep] + Join(rest, sep);
        assert s == [s[0]] + s[1..];
      } else {
        var first := [s[0]] + rest[0];
        assert Split(s, sep) == [first] + rest[1..];
        if |rest| == 1 {
          assert Join(rest, sep) == rest[0];
        } else {
          assert Join(rest, sep) == rest[0] + [sep] + Join(rest[1..], sep);
          assert ([first] + rest[1..])[1..] == rest[1..];
        }
        assert s == [s[0]] + s[1..];
      }
    }
  }

  /** A separator-free string is a single piece. */
  lemma {:induction false} SplitNoSep(w: string, sep: char)
    requires sep !in w
    ensures Split(w, sep) == [w]
  {
    if |w| > 0 {
      SplitNoSep(w[1..], sep);
      assert [w[0]] + w[1..] == w;
    }
  }

  /** Splitting w + sep + t, where w holds no separator, yields w before the pieces of t. */
  lemma {:induction false} SplitCons(w: string, t: string, sep: char)
    requires sep !in w
    ensures Split(w + [sep] + t, sep) == [w] + Split(t, sep)
  {
    if |w| == 0 {
      assert w + [sep] + t == [sep] + t;
      assert ([sep] + t)[1..] == t;
    } else {
      var s := w + [sep] + t;
      assert s[0] == w[0];
      assert s[1..] == w[1..] + [sep] + t;
      SplitCons(w[1..], t, sep);
      assert [w[0]] + w[1..] == w;
    }
  }

  /** Appending one more field to a non-empty list appends the separator and the field. */
  lemma {:induction false} JoinSnoc(fields: seq<string>, x: string, sep: char)
    requires |fields| >= 1
    ensures Join(fields + [x], sep) == Join(fields, sep) + [sep] + x
  {
    if |fields| > 1 {
      assert (fields + [x])[1..] == fields[1..] + [x];
      JoinSnoc(fields[1..], x, sep);
    }
  }

  /** explode undoes implode when no field contains the separator. */
  lemma {:induction false} SplitJoin(fields: seq<string>, sep: char)
    requires |fields| >= 1
    requires forall i :: 0 <= i < |fields| ==> sep !in fields[i]
    ensures Split(Join(fields, sep), sep) == fields
  {
    if |fields| == 1 {
      SplitNoSep(fields[0], sep);
    } else {
      SplitJoin(fields[1..], sep);
      SplitCons(fields[0], Join(fields[1..], sep), sep);
      assert [fields[0]] + fields[1..] == fields;
    }
  }

  // ---------------------------------------------------------------------------
  // str_replace with one search string

  /** str_replace($pat, $rep, $s): leftmost, non-overlapping occurrences are replaced
      and the inserted text is not searched again. An empty pattern changes nothing. */
  function ReplaceAll(s: string, pat: string, rep: string): string
  {
    if |pat| == 0 || |s| < |pat| then s
    else if s[..|pat|] == pat then rep + ReplaceAll(s[|pat|..], pat, rep)
    else [s[0]] + ReplaceAll(s[1..], pat, rep)
  }

  /** A string without the pattern is left as it is. */
  lemma {:induction false} ReplaceAllAbsent(s: string, pat: string, rep: string)
    requires !Contains(s, pat)
    ensures ReplaceAll(s, pat, rep) == s
  {
    if |pat| == 0 || |s| < |pat| {
    } else {
      assert !ContainsAt(s, pat, 0);
      if Contains(s[1..], pat) {
        ContainsSuffix(s, pat, 1);
      }
      ReplaceAllAbsent(s[1..], pat, rep);
      assert [s[0]] + s[1..] == s;
    }
  }

  /** If the replacement's first character does not occur in w, a prefix w of the
      result was already a prefix of the input. */
  lemma {:induction false} ReplaceAllPrefix(t: string, pat: string, rep: string, w: string)
    requires |pat| > 0 && |rep| > 0 && rep[0] !in w
    requires |w| <= |ReplaceAll(t, pat, rep)| && ReplaceAll(t, pat, rep)[..|w|] == w
    ensures |w| <= |t| && t[..|w|] == w
  {
    var r := ReplaceAll(t, pat, rep);
    if |w| == 0 || |t| < |pat| {
    } else {
      assert r[0] == w[0] && r[0] != rep[0];
      assert t[..|pat|] != pat;
      var r' := ReplaceAll(t[1..], pat, rep);
      assert r == [t[0]] + r';
      assert r'[..|w| - 1] == w[1..];
      ReplaceAllPrefix(t[1..], pat, rep, w[1..]);
      assert t[..|w|] == [t[0]] + t[1..][..|w| - 1];
    }
  }

  /** A prefix a of the result after a skipped first character was already a
      prefix of the input, when rep's first character is absent from the rest of a. */
  lemma PrefixThroughSkip(s: string, pat: string, rep: string, a: string)
    requires |pat| > 0 && |rep| > 0 && |a| > 0 && |s| > 0 && rep[0] !in a[1..]
    requires |a| <= 1 + |ReplaceAll(s[1..], pat, rep)|
    requires ([s[0]] + ReplaceAll(s[1..], pat, rep))[..|a|] == a
    ensures |a| <= |s| && s[..|a|] == a
  {
    var r' := ReplaceAll(s[1..], pat, rep);
    assert r'[..|a| - 1] == a[1..];
    ReplaceAllPrefix(s[1..], pat, rep, a[1..]);
    assert s[..|a|] == [s[0]] + s[1..][..|a| - 1];
  }

  /** Replacing pat by rep cannot create an occurrence of a brace tag a, provided a's
      opening character is absent from rep and rep's first character is absent from
      the rest of a; if a is pat itself, no occurrence survives at all. */
  lemma {:induction false} ReplaceAllNoNewTag(s: string, pat: string, rep: string, a: string)
    requires |pat| > 0 && |rep| > 0 && |a| > 0
    requires a[0] !in rep && rep[0] !in a[1..]
    requires a == pat || !Contains(s, a)
    ensures !Contains(ReplaceAll(s, pat, rep), a)
    decreases |s|, 1
  {
    if |s| < |pat| {
    } else if s[..|pat|] == pat {
      NoNewTagAfterMatch(s, pat, rep, a);
    } else {
      NoNewTagAfterSkip(s, pat, rep, a);
    }
  }

  /** The case of ReplaceAllNoNewTag where s starts with pat. */
  lemma {:induction false} NoNewTagAfterMatch(s: string, pat: string, rep: string, a: string)
    requires |pat| > 0 && |rep| > 0 && |a| > 0
    requires a[0] !in rep && rep[0] !in a[1..]
    requires a == pat || !Contains(s, a)
    requires |s| >= |pat| && s[..|pat|] == pat
    ensures !Contains(ReplaceAll(s, pat, rep), a)
    decreases |s|, 0
  {
    var rest := s[|pat|..];
    var r' := ReplaceAll(rest, pat, rep);
    var r := ReplaceAll(s, pat, rep);
    assert r == rep + r';
    if a != pat && Contains(rest, a) {
      ContainsSuffix(s, a, |pat|);
    }
    ReplaceAllNoNewTag(rest, pat, rep, a);
    if Contains(r, a) {
      var i :| 0 <= i <= |r| - |a| && ContainsAt(r, a, i);
      assert r[i] == a[0];
      assert r[..|rep|] == rep;
      assert i >= |rep|;
      assert r[i..i + |a|] == r'[i - |rep|..i - |rep| + |a|];
      assert ContainsAt(r', a, i - |rep|);
    }
  }

  /** The case of ReplaceAllNoNewTag where s does not start with pat. */
  lemma {:induction false} NoNewTagAfterSkip(s: string, pat: string, rep: string, a: string)
    requires |pat| > 0 && |rep| > 0 && |a| > 0
    requires a[0] !in rep && rep[0] !in a[1..]
    requires a == pat || !Contains(s, a)
    requires |s| >= |pat| && s[..|pat|] != pat
    ensures !Contains(ReplaceAll(s, pat, rep), a)
    decreases |s|, 0
  {
    var r' := ReplaceAll(s[1..], pat, rep);
    var r := ReplaceAll(s, pat, rep);
    assert r == [s[0]] + r';
    if a != pat && Contains(s[1..], a) {
      ContainsSuffix(s, a, 1);
    }
    ReplaceAllNoNewTag(s[1..], pat, rep, a);
    if Contains(r, a) {
      var i :| 0 <= i <= |r| - |a| && ContainsAt(r, a, i);
      if i == 0 {
        PrefixThroughSkip(s, pat, rep, a);
        assert ContainsAt(s, a, 0);
      } else {
        assert r[i..i + |a|] == r'[i - 1..i - 1 + |a|];
        assert ContainsAt(r', a, i - 1);
      }
    }
  }

  // ---------------------------------------------------------------------------
  // str_replace with arrays: each pair is applied to the previous result

  function ReplaceEach(s: string, pairs: seq<(string, string)>): string
    decreases |pairs|
  {
    if |pairs| == 0 then s else ReplaceEach(ReplaceAll(s, pairs[0].0, pairs[0].1), pairs[1..])
  }

  /** The search strings and replacements of pairs are such that no replacement can
      form a search string (see ReplaceAllNoNewTag). */
  predicate TagSafe(pairs: seq<(string, string)>)
  {
    forall j, k :: 0 <= j < |pairs| && 0 <= k < |pairs| ==>
      |pairs[j].0| > 0 && |pairs[k].1| > 0 &&
      pairs[j].0[0] !in pairs[k].1 && pairs[k].1[0] !in pairs[j].0[1..]
  }

  /** A sufficient condition for TagSafe: every search string opens with a character c
      that no replacement contains, the rest of every search string is drawn from
      `alphabet`, and no replacement opens with a character of `alphabet`. */
  lemma TagSafeByAlphabet(pairs: seq<(string, string)>, c: char, alphabet: set<char>)
    requires forall j :: 0 <= j < |pairs| ==> |pairs[j].0| > 0 && pairs[j].0[0] == c
    requires forall j :: 0 <= j < |pairs| ==> forall i :: 1 <= i < |pairs[j].0| ==> pairs[j].0[i] in alphabet
    requires forall k :: 0 <= k < |pairs| ==> |pairs[k].1| > 0 && c !in pairs[k].1 && pairs[k].1[0] !in alphabet
    ensures TagSafe(pairs)
  {
    forall j, k | 0 <= j < |pairs| && 0 <= k < |pairs|
      ensures pairs[k].1[0] !in pairs[j].0[1..]
    {
      var tail := pairs[j].0[1..];
      forall i | 0 <= i < |tail| ensures tail[i] != pairs[k].1[0] {
        assert tail[i] == pairs[j].0[i + 1];
      }
    }
  }

  lemma {:induction false} ReplaceEachKeepsAbsent(s: string, pairs: seq<(string, string)>, a: string)
    requires |a| > 0 && !Contains(s, a)
    requires forall k :: 0 <= k < |pairs| ==>
      |pairs[k].0| > 0 && |pairs[k].1| > 0 && a[0] !in pairs[k].1 && pairs[k].1[0] !in a[1..]
    ensures !Contains(ReplaceEach(s, pairs), a)
    decreases |pairs|
  {
    if |pairs| > 0 {
      ReplaceAllNoNewTag(s, pairs[0].0, pairs[0].1, a);
      ReplaceEachKeepsAbsent(ReplaceAll(s, pairs[0].0, pairs[0].1), pairs[1..], a);
    }
  }

  /** After a tag-safe replacement pass no search string is left. */
  lemma {:induction false} ReplaceEachRemovesAll(s: string, pairs: seq<(string, string)>)
    requires TagSafe(pairs)
    ensures forall j :: 0 <= j < |pairs| ==> !Contains(ReplaceEach(s, pairs), pairs[j].0)
    decreases |pairs|
  {
    if |pairs| > 0 {
      var s1 := ReplaceAll(s, pairs[0].0, pairs[0].1);
      var rest := pairs[1..];
      assert TagSafe(rest) by {
        forall j, k | 0 <= j < |rest| && 0 <= k < |rest|
          ensures |rest[j].0| > 0 && |rest[k].1| > 0 &&
                  rest[j].0[0] !in rest[k].1 && rest[k].1[0] !in rest[j].0[1..]
        {
          assert rest[j] == pairs[j + 1] && rest[k] == pairs[k + 1];
        }
      }
      ReplaceEachRemovesAll(s1, rest);
      ReplaceAllNoNewTag(s, pairs[0].0, pairs[0].1, pairs[0].0);
      forall k | 0 <= k < |rest|
        ensures |rest[k].0| > 0 && |rest[k].1| > 0 &&
                pairs[0].0[0] !in rest[k].1 && rest[k].1[0] !in pairs[0].0[1..]
      {
        assert rest[k] == pairs[k + 1];
      }
      ReplaceEachKeepsAbsent(s1, rest, pairs[0].0);
      forall j | 0 <= j < |pairs|
        ensures !Contains(ReplaceEach(s, pairs), pairs[j].0)
      {
        if j > 0 {
          assert pairs[j] == rest[j - 1];
        }
      }
    }
  }

  /** A string holding none of the search strings is left as it is. */
  lemma {:induction false} ReplaceEachAbsent(s: string, pairs: seq<(string, string)>)
    requires forall j :: 0 <= j < |pairs| ==> !Contains(s, pairs[j].0)
    ensures ReplaceEach(s, pairs) == s
  {
    if |pairs| > 0 {
      ReplaceAllAbsent(s, pairs[0].0, pairs[0].1);
      assert forall j :: 0 <= j < |pairs| - 1 ==> pairs[1..][j] == pairs[j + 1];
      ReplaceEachAbsent(s, pairs[1..]);
    }
  }

  // ---------------------------------------------------------------------------
  // str_replace of single characters

  /** str_replace($chars, $by, $s) where every search string is one character:
      each listed character is replaced, every other character kept. */
  function ReplaceChars(s: string, chars: set<char>, sub: char): (r: string)
    ensures |r| == |s|
    ensures forall i :: 0 <= i < |s| ==> r[i] == if s[i] in chars then sub else s[i]
  {
    seq(|s|, i requires 0 <= i < |s| => if s[i] in chars then sub else s[i])
  }

  /** str_replace($c, '', $s): every occurrence of c removed, the rest kept in order. */
  function RemoveChar(s: string, c: char): (r: string)
    ensures c !in r && |r| <= |s|
    ensures multiset(r) == multiset(s)[c := 0]
  {
    if |s| == 0 then ""
    else
      assert s == [s[0]] + s[1..];
      (if s[0] == c then "" else [s[0]]) + RemoveChar(s[1..], c)
  }

  /** Removal works piece by piece, so the kept characters stay in their order. */
  lemma {:induction false} RemoveCharAppend(a: string, b: string, c: char)
    ensures RemoveChar(a + b, c) == RemoveChar(a, c) + RemoveChar(b, c)
  {
    if |a| == 0 {
      assert a + b == b;
    } else {
      assert (a + b)[1..] == a[1..] + b;
      RemoveCharAppend(a[1..], b, c);
    }
  }

  lemma {:induction false} RemoveCharAbsent(s: string, c: char)
    requires c !in s
    ensures RemoveChar(s, c) == s
  {
    if |s| > 0 {
      RemoveCharAbsent(s[1..], c);
      assert [s[0]] + s[1..] == s;
    }
  }

  // ---------------------------------------------------------------------------
  // (int) casts and string interpolation of integers

  predicate IsDigit(c: char)
  {
    '0' <= c <= '9'
  }

  /** The value of the longest run of decimal digits at the start of s. */
  function LeadingDigits(s: string, acc: nat): nat
  {
    if |s| > 0 && IsDigit(s[0]) then LeadingDigits(s[1..], acc * 10 + (s[0] as int - '0' as int)) else acc
  }

  /** PHP_INT_MIN and PHP_INT_MAX of a 64-bit build. */
  const PhpIntMin: int := -0x8000_0000_0000_0000
  const PhpIntMax: int := 0x7FFF_FFFF_FFFF_FFFF

  /** A value out of the 64-bit range is pinned to its nearer end. */
  function Saturate(n: int): (r: int)
    ensures PhpIntMin <= r <= PhpIntMax
    ensures PhpIntMin <= n <= PhpIntMax ==> r == n
    ensures n > PhpIntMax ==> r == PhpIntMax
    ensures n < PhpIntMin ==> r == PhpIntMin
  {
    if n > PhpIntMax then PhpIntMax else if n < PhpIntMin then PhpIntMin else n
  }

  /** The integer a numeric prefix spells: optional leading white space, an optional
      sign and the digits that follow; 0 when no digit follows. */
  function ReadInteger(s: string): int
  {
    var t := TrimLeft(s, NumericLead);
    if |t| > 0 && t[0] == '-' then -(LeadingDigits(t[1..], 0) as int)
    else if |t| > 0 && t[0] == '+' then LeadingDigits(t[1..], 0)
    else LeadingDigits(t, 0)
  }

  /** (int)$s for a string: the integer its numeric prefix spells, saturated to the
      64-bit range. */
  function IntCast(s: string): int
  {
    Saturate(ReadInteger(s))
  }

  function DigitChar(d: nat): char
    requires d < 10
  {
    ('0' as int + d) as char
  }

  function NatToString(n: nat): (r: string)
    ensures |r| >= 1 && forall i :: 0 <= i < |r| ==> IsDigit(r[i])
  {
    if n < 10 then [DigitChar(n)] else NatToString(n / 10) + [DigitChar(n % 10)]
  }

  /** "$n" for an integer n. */
  function IntToString(n: int): string
  {
    if n < 0 then "-" + NatToString(-n) else NatToString(n)
  }

  /** Reading back a decimal rendering gives the number (digits only, no sign). */
  lemma {:induction false} LeadingDigitsOfNat(n: nat, acc: nat)
    ensures LeadingDigits(NatToString(n), acc) == acc * Pow10(|NatToString(n)|) + n
  {
    if n < 10 {
      var s := NatToString(n);
      assert s[1..] == [];
    } else {
      var hi := NatToString(n / 10);
      assert NatToString(n) == hi + [DigitChar(n % 10)];
      LeadingDigitsAppend(hi, n % 10, acc);
      LeadingDigitsOfNat(n / 10, acc);
      Pow10Succ(|hi|);
      ShiftDigit(acc, Pow10(|hi|), n / 10, n % 10);
    }
  }

  lemma ShiftDigit(acc: int, p: int, q: int, d: int)
    ensures (acc * p + q) * 10 + d == acc * (10 * p) + (q * 10 + d)
  {
  }

  function Pow10(k: nat): nat
  {
    if k == 0 then 1 else 10 * Pow10(k - 1)
  }

  lemma Pow10Succ(k: nat)
    ensures Pow10(k + 1) == 10 * Pow10(k)
  {
  }

  lemma {:induction false} LeadingDigitsAppend(s: string, d: nat, acc: nat)
    requires d < 10
    requires forall i :: 0 <= i < |s| ==> IsDigit(s[i])
    ensures LeadingDigits(s + [DigitChar(d)], acc) == LeadingDigits(s, acc) * 10 + d
  {
    if |s| == 0 {
      assert ([DigitChar(d)])[1..] == [];
    } else {
      assert (s + [DigitChar(d)])[1..] == s[1..] + [DigitChar(d)];
      LeadingDigitsAppend(s[1..], d, acc * 10 + (s[0] as int - '0' as int));
    }
  }

  /** (int)"$n" reads back an interpolated integer: n itself inside the 64-bit
      range, the nearer end of the range outside it. */
  lemma IntCastRoundTrip(n: int)
    ensures IntCast(IntToString(n)) == Saturate(n)
    ensures PhpIntMin <= n <= PhpIntMax ==> IntCast(IntToString(n)) == n
  {
    var m: nat := if n < 0 then -n else n;
    var digits := NatToString(m);
    DigitsReadBack(m);
    if n < 0 {
      CastOfNegative(digits);
    } else {
      CastOfDigits(digits);
    }
  }

  lemma DigitsReadBack(m: nat)
    ensures LeadingDigits(NatToString(m), 0) == m
  {
    LeadingDigitsOfNat(m, 0);
  }

  /** The cast of a text opening with a digit reads its leading digits. */
  lemma CastOfDigits(digits: string)
    requires |digits| >= 1 && IsDigit(digits[0])
    ensures ReadInteger(digits) == LeadingDigits(digits, 0)
  {
    assert TrimLeft(digits, NumericLead) == digits;
  }

  /** The same behind a minus sign, negated. */
  lemma CastOfNegative(digits: string)
    requires |digits| >= 1 && IsDigit(digits[0])
    ensures ReadInteger("-" + digits) == -(LeadingDigits(digits, 0) as int)
  {
    var s := "-" + digits;
    assert s[0] == '-' && s[1..] == digits;
    assert TrimLeft(s, NumericLead) == s;
  }
}
