/** The copyright guard (protection-droits-auteur.php).

    checkCopyright compares the configured author and application name with the
    values written into the class, and enforceCopyright, when anything differs,
    appends a report to the violations log and stops the request with a 403. The
    version, e-mail and portfolio held by the class are not compared. The footer,
    warning, script and blocked page are HTML and are not modelled; the clock and
    the client's address and user agent are inputs. */
module Copyright {
  import opened PhpStrings
  import opened Config

  /** The values the class holds ($this->author, $this->appName). */
  const Author: string := "CHAFIK EL HIRACH"
  const AppName: string := "FINDint"

  const ViolationPrefix: string := "Violation des droits d'auteur: "

  function AuthorViolation(current: Value): string
  {
    ViolationPrefix + "L'auteur a \U{00E9}t\U{00E9} modifi\U{00E9} de '" + Author + "' vers '" + PhpToString(current) + "'"
  }

  function NameViolation(current: Value): string
  {
    ViolationPrefix + "Le nom de l'application a \U{00E9}t\U{00E9} modifi\U{00E9} de '" + AppName + "' vers '" +
    PhpToString(current) + "'"
  }

  // ---------------------------------------------------------------------------
  // checkCopyright (protection-droits-auteur.php:22-38)

  /** The violations: the author's first, then the application name's, each present
      exactly when getConfig (default null) does not return the expected string. */
  function Violations(config: Value): (r: seq<string>)
    ensures |r| <= 2
    ensures r == [] <==>
      ConfigGet(config, AppAuthorKey, Null) == Str(Author) && ConfigGet(config, AppNameKey, Null) == Str(AppName)
    ensures ConfigGet(config, AppAuthorKey, Null) != Str(Author) ==>
      r[0] == AuthorViolation(ConfigGet(config, AppAuthorKey, Null))
    ensures ConfigGet(config, AppNameKey, Null) != Str(AppName) ==>
      r[|r| - 1] == NameViolation(ConfigGet(config, AppNameKey, Null))
    ensures |r| == 2 <==>
      ConfigGet(config, AppAuthorKey, Null) != Str(Author) && ConfigGet(config, AppNameKey, Null) != Str(AppName)
  {
    var author := ConfigGet(config, AppAuthorKey, Null);
    var name := ConfigGet(config, AppNameKey, Null);
    (if author != Str(Author) then [AuthorViolation(author)] else []) +
    (if name != Str(AppName) then [NameViolation(name)] else [])
  }

  /** The method as the class runs it: two tests, each appending to the list. */
  method CheckCopyright(config: Value) returns (violations: seq<string>)
    ensures violations == Violations(config)
  {
    violations := [];
    var currentAuthor := GetConfig(config, AppAuthorKey, Null);
    if currentAuthor != Str(Author) {
      violations := violations + [AuthorViolation(currentAuthor)];
    }
    var currentAppName := GetConfig(config, AppNameKey, Null);
    if currentAppName != Str(AppName) {
      violations := violations + [NameViolation(currentAppName)];
    }
  }

  /** Only the author and the application name are compared: two trees that agree
      on those two keys give the same violations, whatever their version, e-mail or
      portfolio. */
  lemma OnlyAuthorAndNameChecked(c1: Value, c2: Value)
    requires ConfigGet(c1, AppAuthorKey, Null) == ConfigGet(c2, AppAuthorKey, Null)
    requires ConfigGet(c1, AppNameKey, Null) == ConfigGet(c2, AppNameKey, Null)
    ensures Violations(c1) == Violations(c2)
  {
  }

  /** The built-in default tree raises no violation. */
  lemma DefaultTreeRespected()
    ensures Violations(DefaultConfig) == []
  {
    DefaultAppName();
    DefaultAppAuthor();
  }

  // ---------------------------------------------------------------------------
  // enforceCopyright (protection-droits-auteur.php:115-134)

  /** What the request supplies: the time and the client, either of which may be
      missing from $_SERVER. */
  datatype Request = Request(now: string, remoteAddr: Option<string>, userAgent: Option<string>)

  /** The request goes on, or is answered with a status after an entry has been
      appended to a log file. */
  datatype Decision = Proceed | Blocked(status: int, logFile: string, logEntry: string)

  /** The log the entry is appended to (relative to the working directory). */
  const ViolationLog: string := "log/copyright_violations.log"

  function OrUnknown(v: Option<string>): string
  {
    if v.Some? then v.value else "Unknown"
  }

  function LogHeader(now: string): string
  {
    "[" + now + "] VIOLATION COPYRIGHT D\U{00C9}TECT\U{00C9}E:\n"
  }

  /** One "- " line per violation, in order. */
  function ViolationLines(violations: seq<string>): string
  {
    if violations == [] then "" else "- " + violations[0] + "\n" + ViolationLines(violations[1..])
  }

  function LogTrailer(req: Request): string
  {
    "IP: " + OrUnknown(req.remoteAddr) + "\n" + "User Agent: " + OrUnknown(req.userAgent) + "\n" + "---\n"
  }

  function LogMessage(req: Request, violations: seq<string>): string
  {
    LogHeader(req.now) + ViolationLines(violations) + LogTrailer(req)
  }

  /** The log message built with .= as the page does. */
  method BuildLogMessage(req: Request, violations: seq<string>) returns (msg: string)
    ensures msg == LogMessage(req, violations)
  {
    msg := LogHeader(req.now);
    var k := 0;
    while k < |violations|
      invariant 0 <= k <= |violations|
      invariant msg + ViolationLines(violations[k..]) == LogHeader(req.now) + ViolationLines(violations)
    {
      ghost var before := msg;
      assert violations[k..][1..] == violations[k + 1..];
      msg := msg + "- " + violations[k] + "\n";
      assert before + ViolationLines(violations[k..]) == msg + ViolationLines(violations[k + 1..]);
      k := k + 1;
    }
    assert violations[k..] == [];
    msg := msg + "IP: " + OrUnknown(req.remoteAddr) + "\n";
    msg := msg + "User Agent: " + OrUnknown(req.userAgent) + "\n";
    msg := msg + "---\n";
  }

  /** The request is stopped with 403 exactly when there is a violation, after the
      violations have been logged; otherwise nothing happens. */
  method EnforceCopyright(config: Value, req: Request) returns (d: Decision)
    ensures d.Blocked? <==> Violations(config) != []
    ensures d.Blocked? ==>
      d.status == 403 && d.logFile == ViolationLog && d.logEntry == LogMessage(req, Violations(config))
  {
    var violations := CheckCopyright(config);
    if violations != [] {
      var msg := BuildLogMessage(req, violations);
      return Blocked(403, ViolationLog, msg);
    }
    return Proceed;
  }

  /** The bullets of the log, one per violation. */
  function Bullets(violations: seq<string>): (r: seq<string>)
    ensures |r| == |violations|
    ensures forall i :: 0 <= i < |r| ==> r[i] == "- " + violations[i]
  {
    if violations == [] then [] else ["- " + violations[0]] + Bullets(violations[1..])
  }

  /** Read back line by line, the violation block gives one "- " line per violation
      in the same order, provided no violation spans several lines. */
  lemma {:induction false} ViolationLinesSplit(violations: seq<string>)
    requires forall i :: 0 <= i < |violations| ==> '\n' !in violations[i]
    ensures Split(ViolationLines(violations), '\n') == Bullets(violations) + [""]
  {
    if violations == [] {
      assert ViolationLines(violations) == "";
    } else {
      var w := "- " + violations[0];
      var rest := ViolationLines(violations[1..]);
      assert '\n' !in w;
      assert ViolationLines(violations) == w + ['\n'] + rest;
      SplitCons(w, rest, '\n');
      ViolationLinesSplit(violations[1..]);
    }
  }
}
