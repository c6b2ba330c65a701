/** The e-mail template helpers (email_template_helpers.php).

    extractContentWithoutSignature removes the HTML signature blocks from a body
    template and right-trims it; addSignatureToEmailTemplate gives a body template
    that carries the signature, keeping the placeholders {signature_image},
    {nom_expediteur}, {email_expediteur}, {portfolio_url} and {telephone} for the
    substitution done when the mail is sent.

    The signature regex is not interpreted: the places where it matches are given
    as a list of spans, the matcher's answer for the template. The telephone, which
    the PHP function reads from config.local.php itself, is a parameter. */
module EmailTemplate {
  import opened PhpStrings

  // ---------------------------------------------------------------------------
  // Removing the signature (email_template_helpers.php:8-13)

  /** A match of the signature pattern: the characters start..end-1. */
  datatype Span = Span(start: nat, end: nat)

  /** What a left-to-right matcher returns: spans in order, not overlapping, inside
      the text. */
  predicate SpansFit(t: string, spans: seq<Span>)
  {
    forall k :: 0 <= k < |spans| ==>
      spans[k].start <= spans[k].end <= |t| && (k > 0 ==> spans[k - 1].end <= spans[k].start)
  }

  /** Whether position i lies inside one of the spans. */
  predicate InSpans(spans: seq<Span>, i: nat)
  {
    |spans| > 0 && (spans[0].start <= i < spans[0].end || InSpans(spans[1..], i))
  }

  /** The characters of t from position i on that lie outside every span, in order:
      what a deletion of the spans must leave, read character by character. */
  function KeepFrom(t: string, spans: seq<Span>, i: nat): (r: string)
    requires i <= |t|
    ensures |r| <= |t| - i
    decreases |t| - i
  {
    if i == |t| then ""
    else (if InSpans(spans, i) then "" else [t[i]]) + KeepFrom(t, spans, i + 1)
  }

  lemma {:induction false} KeepNoSpans(t: string, i: nat)
    requires i <= |t|
    ensures KeepFrom(t, [], i) == t[i..]
    decreases |t| - i
  {
    if i < |t| {
      KeepNoSpans(t, i + 1);
      assert t[i..] == [t[i]] + t[i + 1..];
    }
  }

  lemma {:induction false} NotInSpansBefore(t: string, spans: seq<Span>, i: nat)
    requires SpansFit(t, spans)
    requires |spans| > 0 ==> i < spans[0].start
    ensures !InSpans(spans, i)
    decreases |spans|
  {
    if |spans| > 0 {
      assert SpansFit(t, spans[1..]) by {
        forall k | 0 <= k < |spans[1..]|
          ensures spans[1..][k].start <= spans[1..][k].end <= |t|
        {
          assert spans[1..][k] == spans[k + 1];
        }
        forall k | 0 < k < |spans[1..]|
          ensures spans[1..][k - 1].end <= spans[1..][k].start
        {
          assert spans[1..][k] == spans[k + 1] && spans[1..][k - 1] == spans[k];
        }
      }
      NotInSpansBefore(t, spans[1..], i);
    }
  }

  lemma {:induction false} KeepBefore(t: string, spans: seq<Span>, i: nat)
    requires SpansFit(t, spans) && |spans| > 0 && i <= spans[0].start
    ensures KeepFrom(t, spans, i) == t[i..spans[0].start] + KeepFrom(t, spans, spans[0].start)
    decreases spans[0].start - i
  {
    if i < spans[0].start {
      NotInSpansBefore(t, spans, i);
      KeepBefore(t, spans, i + 1);
      assert t[i..spans[0].start] == [t[i]] + t[i + 1..spans[0].start];
    }
  }

  lemma {:induction false} KeepInside(t: string, spans: seq<Span>, i: nat)
    requires SpansFit(t, spans) && |spans| > 0 && spans[0].start <= i <= spans[0].end
    ensures KeepFrom(t, spans, i) == KeepFrom(t, spans, spans[0].end)
    decreases spans[0].end - i
  {
    if i < spans[0].end {
      assert InSpans(spans, i);
      KeepInside(t, spans, i + 1);
    }
  }

  lemma {:induction false} KeepAfter(t: string, spans: seq<Span>, i: nat)
    requires |spans| > 0 && spans[0].end <= i <= |t|
    ensures KeepFrom(t, spans, i) == KeepFrom(t, spans[1..], i)
    decreases |t| - i
  {
    if i < |t| {
      assert InSpans(spans, i) == InSpans(spans[1..], i);
      KeepAfter(t, spans, i + 1);
    }
  }

  /** The text from `pos` on with every span deleted: exactly the characters
      outside the spans, in order. */
  function RemoveSpansFrom(t: string, spans: seq<Span>, pos: nat): (r: string)
    requires SpansFit(t, spans) && pos <= |t|
    requires |spans| > 0 ==> pos <= spans[0].start
    ensures r == KeepFrom(t, spans, pos)
    ensures |r| <= |t| - pos
    decreases |spans|
  {
    if spans == [] then
      KeepNoSpans(t, pos);
      t[pos..]
    else
      KeepBefore(t, spans, pos);
      KeepInside(t, spans, spans[0].start);
      KeepAfter(t, spans, spans[0].end);
      t[pos..spans[0].start] + RemoveSpansFrom(t, spans[1..], spans[0].end)
  }

  /** preg_replace($signaturePattern, '', $t) given the matches. */
  function RemoveSpans(t: string, spans: seq<Span>): string
    requires SpansFit(t, spans)
  {
    RemoveSpansFrom(t, spans, 0)
  }

  /** rtrim's second argument "<br><br>\n\r\t " is a set of characters, not a suffix. */
  const RtrimChars: set<char> := {'<', 'b', 'r', '>', '\n', '\r', '\t', ' '}

  function ExtractContentWithoutSignature(template: string, spans: seq<Span>): (r: string)
    requires SpansFit(template, spans)
    ensures r == [] || r[|r| - 1] !in RtrimChars
  {
    TrimRight(RemoveSpans(template, spans), RtrimChars)
  }

  /** Without matches the text is kept, and a final word ending in "r" or "b" loses
      those letters: the trim is by characters. */
  lemma RtrimEatsLetters(w: string)
    requires w == [] || w[|w| - 1] !in RtrimChars
    ensures ExtractContentWithoutSignature(w + "rb<br>", []) == w
  {
    var t := w + "rb<br>";
    assert RemoveSpans(t, []) == t;
    TrimRightAppended(w, "rb<br>", RtrimChars);
  }

  /** A single match is cut out: the text before and after it is kept. */
  lemma RemoveOneSpan(a: string, sig: string, b: string)
    ensures RemoveSpans(a + sig + b, [Span(|a|, |a| + |sig|)]) == a + b
  {
    var t := a + sig + b;
    var spans := [Span(|a|, |a| + |sig|)];
    assert RemoveSpansFrom(t, spans, 0) == t[0..|a|] + RemoveSpansFrom(t, spans[1..], |a| + |sig|);
    assert spans[1..] == [];
    assert t[0..|a|] == a && t[|a| + |sig|..] == b;
  }

  // ---------------------------------------------------------------------------
  // The signature (email_template_helpers.php:27-50)

  const SigBeforeImage: string := ("\n<table style=\"font-fami" + "ly: Arial, sans-serif; f" + "ont-size: 14px; color: #" + "333; line-height: 1.6;\">" + "\n    <tbody>\n        <tr" + ">\n            <td style=" + "\"padding: 0; vertical-al" + "ign: top;\">\n            " + "    <div>\n              " + "      <img style=\"width:" + " 80px; height: auto; bor" + "der-radius: 50%; margin-" + "right: 10px;\" alt=\"Profi" + "l\" src=\"")
  const SigBeforeName: string := ("\"><br>\n                <" + "/div>\n            </td>\n" + "            <td style=\"p" + "adding: 0; vertical-alig" + "n: top;\">\n              " + "  <p style=\"margin: 0; f" + "ont-weight: bold; font-s" + "ize: 16px; color: #1a73e" + "8;\">")
  const SigBeforeEmail: string := ("<br></p>\n               " + " <p style=\"margin: 0; fo" + "nt-size: 14px; color: #6" + "66;\">\U{00C9}tudiant en Informa" + "tique<br></p>\n          " + "      <p style=\"margin: " + "0; font-size: 14px; colo" + "r: #666;\">Email: ")
  const SigAfterEmail: string := "</p>"
  const SigBeforePortfolio: string := ("\n                <p styl" + "e=\"margin: 0; font-size:" + " 14px; color: #666;\">Mon" + " Portfolio : ")
  const SigAfterPortfolio: string := (" <br></p>\n              " + "  <div><hr style=\"border" + ": 0; border-top: 1px sol" + "id #ccc;\"><br></div>\n   " + "         </td>\n        <" + "/tr>\n    </tbody>\n</tabl" + "e>\n<div><br></div>")

  /** The telephone line, present when the trimmed telephone is not PHP-empty. */
  const TelStyle: string := ("<p style=\"margin: 0; fon" + "t-size: 14px; color: #66" + "6;\">")
  const TelBefore: string := TelStyle + TelephoneLabel + ": "
  const TelAfter: string := "</p>"

  const TelephoneLabel: string := "T\U{00E9}l\U{00E9}phone"

  function TelephoneLine(telephone: string): string
  {
    if !PhpEmpty(TrimWs(telephone)) then TelBefore + "{telephone}" + TelAfter else ""
  }

  function SignatureHtml(telephone: string): string
  {
    Assembled(SigBeforeImage, SigBeforeName, SigBeforeEmail, SigAfterEmail, TelephoneLine(telephone),
              SigBeforePortfolio, SigAfterPortfolio)
  }

  /** The body used when the configured template is blank. */
  const DefaultBodyBefore: string := ("Bonjour Madame, Monsieur" + ",<br><br>\nJe vous adress" + "e en pi\U{00E8}ce jointe ma let" + "tre de motivation person" + "nalis\U{00E9}e ainsi que mon CV" + " dans le cadre d'une can" + "didature \U{00E0} un stage d'Ad" + "ministrateur Syst\U{00E8}me au " + "sein de ")
  const DefaultBodyAfter: string := (", du 30 Mars au 03 Juill" + "et 2026.<br><br>\nJe suis" + " \U{00E0} votre enti\U{00E8}re disposi" + "tion pour un entretien a" + "fin d'\U{00E9}changer plus en d" + "\U{00E9}tail sur mes motivation" + "s, mes comp\U{00E9}tences et la" + " mani\U{00E8}re dont je pourrai" + "s contribuer \U{00E0} vos proje" + "ts.<br><br>\nJe vous reme" + "rcie sinc\U{00E8}rement pour l'" + "attention port\U{00E9}e \U{00E0} ma ca" + "ndidature et esp\U{00E8}re pouv" + "oir prochainement collab" + "orer avec votre \U{00E9}quipe.<" + "br><br>\nBien cordialemen" + "t,<br><br>")

  const DefaultEmailBody: string := DefaultBodyBefore + "{entreprise}" + DefaultBodyAfter

  // ---------------------------------------------------------------------------
  // addSignatureToEmailTemplate (email_template_helpers.php:20-67)

  /** A blank (PHP-empty after trim) template gives the default body and the
      signature; a template that already holds {signature_image} and
      {nom_expediteur} is kept as it is; any other template is cleaned and followed
      by "<br><br>" and the signature. */
  function AddSignature(template: string, telephone: string, spans: seq<Span>): string
    requires SpansFit(template, spans)
  {
    AttachSignature(template, SignatureHtml(telephone), spans)
  }

  /** The decision addSignatureToEmailTemplate takes, for a given signature text. */
  function AttachSignature(template: string, signature: string, spans: seq<Span>): string
    requires SpansFit(template, spans)
  {
    if PhpEmpty(TrimWs(template)) then DefaultEmailBody + signature
    else if Contains(template, "{signature_image}") && Contains(template, "{nom_expediteur}") then template
    else ExtractContentWithoutSignature(template, spans) + "<br><br>" + signature
  }

  /** Text assembled like the signature, from its fixed pieces and telephone line. */
  function Assembled(a: string, b: string, c: string, d: string, e: string, f: string, g: string): string
  {
    a + "{signature_image}" + b + "{nom_expediteur}" + c + "{email_expediteur}" + d + e + f + "{portfolio_url}" + g
  }

  lemma ImagePlaceholderIn(a: string, b: string, c: string, d: string, e: string, f: string, g: string)
    ensures Contains(Assembled(a, b, c, d, e, f, g), "{signature_image}")
  {
    var x := b + "{nom_expediteur}" + c + "{email_expediteur}" + d + e + f + "{portfolio_url}" + g;
    assert Assembled(a, b, c, d, e, f, g) == a + "{signature_image}" + x;
    ContainsMiddle(a, "{signature_image}", x);
  }

  lemma NamePlaceholderIn(a: string, b: string, c: string, d: string, e: string, f: string, g: string)
    ensures Contains(Assembled(a, b, c, d, e, f, g), "{nom_expediteur}")
  {
    var y := a + "{signature_image}" + b;
    var x := c + "{email_expediteur}" + d + e + f + "{portfolio_url}" + g;
    assert Assembled(a, b, c, d, e, f, g) == y + "{nom_expediteur}" + x;
    ContainsMiddle(y, "{nom_expediteur}", x);
  }

  lemma EmailPlaceholderIn(a: string, b: string, c: string, d: string, e: string, f: string, g: string)
    ensures Contains(Assembled(a, b, c, d, e, f, g), "{email_expediteur}")
  {
    var y := a + "{signature_image}" + b + "{nom_expediteur}" + c;
    var x := d + e + f + "{portfolio_url}" + g;
    assert Assembled(a, b, c, d, e, f, g) == y + "{email_expediteur}" + x;
    ContainsMiddle(y, "{email_expediteur}", x);
  }

  lemma PortfolioPlaceholderIn(a: string, b: string, c: string, d: string, e: string, f: string, g: string)
    ensures Contains(Assembled(a, b, c, d, e, f, g), "{portfolio_url}")
  {
    var y := a + "{signature_image}" + b + "{nom_expediteur}" + c + "{email_expediteur}" + d + e + f;
    ContainsMiddle(y, "{portfolio_url}", g);
  }

  /** The signature keeps the four placeholders filled in when the mail is sent. */
  lemma SignatureKeepsPlaceholders(telephone: string)
    ensures Contains(SignatureHtml(telephone), "{signature_image}")
    ensures Contains(SignatureHtml(telephone), "{nom_expediteur}")
    ensures Contains(SignatureHtml(telephone), "{email_expediteur}")
    ensures Contains(SignatureHtml(telephone), "{portfolio_url}")
  {
    var a, b, c, d, e, f, g := SigBeforeImage, SigBeforeName, SigBeforeEmail, SigAfterEmail,
      TelephoneLine(telephone), SigBeforePortfolio, SigAfterPortfolio;
    ImagePlaceholderIn(a, b, c, d, e, f, g);
    NamePlaceholderIn(a, b, c, d, e, f, g);
    EmailPlaceholderIn(a, b, c, d, e, f, g);
    PortfolioPlaceholderIn(a, b, c, d, e, f, g);
  }

  /** Assembled texts that differ only in the telephone piece: equal exactly when
      the pieces are; a piece TelBefore + "{telephone}" + TelAfter brings the label. */
  lemma AssembledTelephone(a: string, b: string, c: string, d: string, e: string, f: string, g: string)
    ensures Assembled(a, b, c, d, e, f, g) == Assembled(a, b, c, d, "", f, g) <==> e == ""
    ensures e == TelBefore + "{telephone}" + TelAfter ==>
      Contains(Assembled(a, b, c, d, e, f, g), TelephoneLabel + ": {telephone}")
  {
    var head := a + "{signature_image}" + b + "{nom_expediteur}" + c + "{email_expediteur}" + d;
    var tail := f + "{portfolio_url}" + g;
    assert Assembled(a, b, c, d, e, f, g) == head + e + tail;
    assert Assembled(a, b, c, d, "", f, g) == head + tail;
    assert |head + e + tail| == |head + tail| + |e|;
    if e == TelBefore + "{telephone}" + TelAfter {
      assert head + e + tail == (head + TelStyle) + (TelephoneLabel + ": {telephone}") + (TelAfter + tail);
      ContainsMiddle(head + TelStyle, TelephoneLabel + ": {telephone}", TelAfter + tail);
    }
  }

  /** The signature carries the telephone line (label and {telephone}) when the
      trimmed telephone is not PHP-empty ("" or "0"). */
  lemma TelephoneLineShown(telephone: string)
    requires !PhpEmpty(TrimWs(telephone))
    ensures Contains(SignatureHtml(telephone), TelephoneLabel + ": {telephone}")
  {
    AssembledTelephone(SigBeforeImage, SigBeforeName, SigBeforeEmail, SigAfterEmail, TelephoneLine(telephone),
                       SigBeforePortfolio, SigAfterPortfolio);
  }

  lemma TelephoneLineEmpty(telephone: string)
    ensures TelephoneLine(telephone) == "" <==> PhpEmpty(TrimWs(telephone))
  {
    if !PhpEmpty(TrimWs(telephone)) {
      assert |TelephoneLine(telephone)| >= |"{telephone}"|;
    }
  }

  /** The signature is the bare one (no telephone line) exactly when the trimmed
      telephone is PHP-empty. */
  lemma TelephoneLineIff(telephone: string)
    ensures PhpEmpty(TrimWs(telephone)) <==> SignatureHtml(telephone) == SignatureHtml("")
  {
    AssembledTelephoneIff(SigBeforeImage, SigBeforeName, SigBeforeEmail, SigAfterEmail,
                          SigBeforePortfolio, SigAfterPortfolio, telephone);
  }

  lemma AssembledTelephoneIff(a: string, b: string, c: string, d: string, f: string, g: string, telephone: string)
    ensures PhpEmpty(TrimWs(telephone)) <==>
      Assembled(a, b, c, d, TelephoneLine(telephone), f, g) == Assembled(a, b, c, d, TelephoneLine(""), f, g)
  {
    TelephoneLineEmpty(telephone);
    TelephoneLineEmpty("");
    AssembledTelephone(a, b, c, d, TelephoneLine(telephone), f, g);
  }

  /** An occurrence in the second part of a + b is an occurrence in a + b. */
  lemma ContainsInSecond(a: string, b: string, p: string)
    requires Contains(b, p)
    ensures Contains(a + b, p)
  {
    assert (a + b)[|a|..] == b;
    ContainsSuffix(a + b, p, |a|);
  }

  /** The pattern occurs in a + p + b + c. */
  lemma ContainsMiddleOfThree(a: string, p: string, b: string, c: string)
    ensures Contains(a + p + b + c, p)
  {
    assert a + p + b + c == a + p + (b + c);
    ContainsMiddle(a, p, b + c);
  }

  /** A signature holding both sender placeholders passes them on to the body,
      whatever the template; the blank-template body also carries {entreprise}. */
  lemma AttachCarriesSender(template: string, signature: string, spans: seq<Span>)
    requires SpansFit(template, spans)
    requires Contains(signature, "{signature_image}") && Contains(signature, "{nom_expediteur}")
    ensures Contains(AttachSignature(template, signature, spans), "{signature_image}")
    ensures Contains(AttachSignature(template, signature, spans), "{nom_expediteur}")
    ensures PhpEmpty(TrimWs(template)) ==> Contains(AttachSignature(template, signature, spans), "{entreprise}")
  {
    if PhpEmpty(TrimWs(template)) {
      ContainsInSecond(DefaultEmailBody, signature, "{signature_image}");
      ContainsInSecond(DefaultEmailBody, signature, "{nom_expediteur}");
      ContainsMiddleOfThree(DefaultBodyBefore, "{entreprise}", DefaultBodyAfter, signature);
    } else if !(Contains(template, "{signature_image}") && Contains(template, "{nom_expediteur}")) {
      var cleaned := ExtractContentWithoutSignature(template, spans) + "<br><br>";
      ContainsInSecond(cleaned, signature, "{signature_image}");
      ContainsInSecond(cleaned, signature, "{nom_expediteur}");
    }
  }

  /** Whatever the template, the body returned carries {signature_image} and
      {nom_expediteur}; the blank-template body also carries {entreprise}. */
  lemma AddSignatureCarriesSender(template: string, telephone: string, spans: seq<Span>)
    requires SpansFit(template, spans)
    ensures Contains(AddSignature(template, telephone, spans), "{signature_image}")
    ensures Contains(AddSignature(template, telephone, spans), "{nom_expediteur}")
    ensures PhpEmpty(TrimWs(template)) ==> Contains(AddSignature(template, telephone, spans), "{entreprise}")
  {
    SignatureKeepsPlaceholders(telephone);
    AttachCarriesSender(template, SignatureHtml(telephone), spans);
  }

  /** A text holding a placeholder is never blank after trim. */
  lemma PlaceholderNotBlank(t: string)
    requires Contains(t, "{signature_image}")
    ensures !PhpEmpty(TrimWs(t))
  {
    var i :| 0 <= i <= |t| - |"{signature_image}"| && ContainsAt(t, "{signature_image}", i);
    assert t[i] == '{';
    TrimKeepsOther(t, Whitespace, i);
  }

  /** Adding the signature twice is adding it once: the second call finds both
      sender placeholders and keeps the body, whatever its matcher reports. */
  lemma AddSignatureIdempotent(template: string, telephone: string, spans: seq<Span>, spans2: seq<Span>)
    requires SpansFit(template, spans)
    requires SpansFit(AddSignature(template, telephone, spans), spans2)
    ensures AddSignature(AddSignature(template, telephone, spans), telephone, spans2) ==
            AddSignature(template, telephone, spans)
  {
    var signature := SignatureHtml(telephone);
    var body := AttachSignature(template, signature, spans);
    SignatureKeepsPlaceholders(telephone);
    AttachCarriesSender(template, signature, spans);
    PlaceholderNotBlank(body);
  }

  /** Removing a match that runs to the end, after a run of rtrim characters: the
      run goes with the final rtrim, so the cleaned content comes back. */
  lemma StripAppended(clean: string, tail: string, sig: string)
    requires clean == [] || clean[|clean| - 1] !in RtrimChars
    requires forall i :: 0 <= i < |tail| ==> tail[i] in RtrimChars
    ensures StripsTo(clean + tail + sig, |clean| + |tail|, clean)
  {
    RemoveFinalSpan(clean + tail, sig);
    TrimRightAppended(clean, tail, RtrimChars);
  }

  /** Whether removing the match from start to the end of body and extracting gives
      clean. */
  predicate StripsTo(body: string, start: nat, clean: string)
  {
    start <= |body| && ExtractContentWithoutSignature(body, [Span(start, |body|)]) == clean
  }

  lemma BreaksTrimmed()
    ensures forall i :: 0 <= i < |"<br><br>"| ==> "<br><br>"[i] in RtrimChars
  {
  }

  lemma BreaksNewlineTrimmed()
    ensures forall i :: 0 <= i < |"<br><br>\n"| ==> "<br><br>\n"[i] in RtrimChars
  {
  }

  /** A match that runs to the end of the text leaves the text before it. */
  lemma RemoveFinalSpan(kept: string, sig: string)
    ensures SpansFit(kept + sig, [Span(|kept|, |kept + sig|)])
    ensures RemoveSpans(kept + sig, [Span(|kept|, |kept + sig|)]) == kept
  {
    RemoveOneSpan(kept, sig, "");
    assert kept + sig + "" == kept + sig && kept + "" == kept;
  }

  /** A non-blank template that is not yet signed is cleaned and the signature is
      appended after "<br><br>". */
  lemma AttachUnsigned(template: string, signature: string, spans: seq<Span>)
    requires SpansFit(template, spans)
    requires !PhpEmpty(TrimWs(template))
    requires !(Contains(template, "{signature_image}") && Contains(template, "{nom_expediteur}"))
    ensures AttachSignature(template, signature, spans) ==
      ExtractContentWithoutSignature(template, spans) + "<br><br>" + signature
  {
  }

  /** For any signature: when the match starts exactly where the signature begins,
      right after the "<br><br>", extracting gives back the cleaned template, so the
      signature can be stripped and added again without piling up. */
  lemma AttachRoundTrip(template: string, signature: string, spans: seq<Span>)
    requires SpansFit(template, spans)
    requires !PhpEmpty(TrimWs(template))
    requires !(Contains(template, "{signature_image}") && Contains(template, "{nom_expediteur}"))
    ensures StripsTo(AttachSignature(template, signature, spans), |ExtractContentWithoutSignature(template, spans)| + 8,
                     ExtractContentWithoutSignature(template, spans))
  {
    AttachUnsigned(template, signature, spans);
    BreaksStripped(ExtractContentWithoutSignature(template, spans), signature);
  }

  /** A match that starts right after the "<br><br>" takes the signature, and the
      final rtrim takes the breaks. */
  lemma BreaksStripped(clean: string, signature: string)
    requires clean == [] || clean[|clean| - 1] !in RtrimChars
    ensures StripsTo(clean + "<br><br>" + signature, |clean| + 8, clean)
  {
    BreaksTrimmed();
    StripAppended(clean, "<br><br>", signature);
  }

  /** The signature HTML opens with a newline and then its table tag. */
  lemma SignatureOpensTable(telephone: string)
    ensures OpensTable(SignatureHtml(telephone))
  {
    SigBeforeImageOpens();
    AssembledStarts(SigBeforeImage, SigBeforeName, SigBeforeEmail, SigAfterEmail, TelephoneLine(telephone),
                    SigBeforePortfolio, SigAfterPortfolio, "\n<table");
  }

  lemma SigBeforeImageOpens()
    ensures |SigBeforeImage| >= 7 && SigBeforeImage[..7] == "\n<table"
  {
  }

  lemma AssembledStarts(a: string, b: string, c: string, d: string, e: string, f: string, g: string, head: string)
    requires |head| <= |a| && a[..|head|] == head
    ensures |Assembled(a, b, c, d, e, f, g)| >= |head| && Assembled(a, b, c, d, e, f, g)[..|head|] == head
  {
    var x := "{signature_image}" + b + "{nom_expediteur}" + c + "{email_expediteur}" + d + e + f + "{portfolio_url}" + g;
    assert Assembled(a, b, c, d, e, f, g) == a + x;
    assert (a + x)[..|head|] == a[..|head|];
  }

  /** Stripping a signature that opens with a newline and a table tag, as the one
      addSignatureToEmailTemplate appends: the signature pattern matches from that
      "<table" on, one character after the "<br><br>", and the final rtrim takes the
      newline and the breaks with it. */
  lemma TableSignatureStripped(clean: string, signature: string)
    requires clean == [] || clean[|clean| - 1] !in RtrimChars
    requires OpensTable(signature)
    ensures StripsTo(clean + "<br><br>" + signature, |clean| + 9, clean)
  {
    NewlineMoved(clean, signature);
    BreaksNewlineTrimmed();
    StripAppended(clean, "<br><br>\n", signature[1..]);
  }

  /** The newline that opens the signature can be read as part of the breaks. */
  lemma NewlineMoved(clean: string, signature: string)
    requires OpensTable(signature)
    ensures var body := clean + "<br><br>" + signature;
      body == clean + "<br><br>\n" + signature[1..] && TableAt(body, |clean| + 9)
  {
    assert signature == "\n" + signature[1..];
    assert signature[1..7] == "<table";
  }

  /** The round trip for addSignatureToEmailTemplate itself: the pattern's match in
      the signed template starts at the signature's "<table", one character after
      the "<br><br>" (SignatureOpensTable), and extracting gives back the cleaned
      template. */
  lemma AddSignatureRoundTrip(template: string, telephone: string, spans: seq<Span>)
    requires SpansFit(template, spans)
    requires !PhpEmpty(TrimWs(template))
    requires !(Contains(template, "{signature_image}") && Contains(template, "{nom_expediteur}"))
    ensures TableAt(AddSignature(template, telephone, spans), |ExtractContentWithoutSignature(template, spans)| + 9)
    ensures StripsTo(AddSignature(template, telephone, spans), |ExtractContentWithoutSignature(template, spans)| + 9,
                     ExtractContentWithoutSignature(template, spans))
  {
    SignatureOpensTable(telephone);
    AttachTableAt(template, SignatureHtml(telephone), spans);
    AttachTableRoundTrip(template, SignatureHtml(telephone), spans);
  }

  /** The round trip for a signature that opens with a newline and a table tag. */
  lemma AttachTableRoundTrip(template: string, signature: string, spans: seq<Span>)
    requires SpansFit(template, spans)
    requires !PhpEmpty(TrimWs(template))
    requires !(Contains(template, "{signature_image}") && Contains(template, "{nom_expediteur}"))
    requires OpensTable(signature)
    ensures StripsTo(AttachSignature(template, signature, spans), |ExtractContentWithoutSignature(template, spans)| + 9,
                     ExtractContentWithoutSignature(template, spans))
  {
    AttachUnsigned(template, signature, spans);
    TableSignatureStripped(ExtractContentWithoutSignature(template, spans), signature);
  }

  /** Where the table tag of such a signature sits in the signed template. */
  lemma AttachTableAt(template: string, signature: string, spans: seq<Span>)
    requires SpansFit(template, spans)
    requires !PhpEmpty(TrimWs(template))
    requires !(Contains(template, "{signature_image}") && Contains(template, "{nom_expediteur}"))
    requires OpensTable(signature)
    ensures TableAt(AttachSignature(template, signature, spans), |ExtractContentWithoutSignature(template, spans)| + 9)
  {
    AttachUnsigned(template, signature, spans);
    NewlineMoved(ExtractContentWithoutSignature(template, spans), signature);
  }

  /** Whether s opens with a newline and a table tag, as the signature does. */
  predicate OpensTable(s: string)
  {
    |s| >= 7 && s[..7] == "\n<table"
  }

  /** Whether a table tag starts at position n of body. */
  predicate TableAt(body: string, n: nat)
  {
    n + 6 <= |body| && body[n..n + 6] == "<table"
  }

  /** "0" is PHP-empty: a template "0" is replaced by the default body. */
  lemma ZeroTemplateIsBlank(telephone: string)
    ensures AddSignature("0", telephone, []) == DefaultEmailBody + SignatureHtml(telephone)
  {
    assert TrimLeft("0", Whitespace) == "0";
    assert TrimWs("0") == "0";
  }
}
