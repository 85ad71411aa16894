/**
 * The share route (server/routes/shareRoutes.js): the order in which a request
 * is checked, and the subject, plain-text body, sender block and HTML
 * document of the message handed to the mail transport.
 */
module Share {
  import opened Wrappers
  import opened JsText
  import opened Recipients
  import Markup

  /**
   * The JSON body of a share request. For `summary`, `senderName` and
   * `senderEmail` the handler treats a missing field, `null` and "" alike
   * (all falsy), so each is modelled as a string that is "" when absent.
   */
  datatype ShareRequest = ShareRequest(
    summary: string,
    recipients: RecipientsInput,
    senderName: string,
    senderEmail: string)

  const MissingFields := "summary and recipients are required"
  const NoRecipients := "No valid recipient emails"
  const BadRecipient := "Invalid email address format"
  const BadSender := "Invalid sender email format"

  predicate AllEmailShaped(xs: seq<string>) {
    forall i | 0 <= i < |xs| :: IsEmailShape(xs[i])
  }

  /**
   * The checks of the POST handler, in their order. Every failure is answered
   * with status 400 and the message returned here; success gives the parsed
   * recipient list.
   */
  function ValidateShare(req: ShareRequest): (r: Result<seq<string>, string>)
    ensures r.Ok? <==>
      req.summary != "" && Present(req.recipients) &&
      |ParseRecipients(req.recipients)| > 0 &&
      AllEmailShaped(ParseRecipients(req.recipients)) &&
      (req.senderEmail == "" || IsEmailShape(req.senderEmail))
    ensures r.Ok? ==> r.value == ParseRecipients(req.recipients)
  {
    if req.summary == "" || !Present(req.recipients) then Err(MissingFields)
    else
      var toList := ParseRecipients(req.recipients);
      if |toList| == 0 then Err(NoRecipients)
      else if !AllEmailShaped(toList) then Err(BadRecipient)
      else if req.senderEmail != "" && !IsEmailShape(req.senderEmail) then Err(BadSender)
      else Ok(toList)
  }

  /** Each message is reported exactly when every earlier check passed and its own failed. */
  lemma ValidationOrder(req: ShareRequest)
    ensures ValidateShare(req) == Err(MissingFields) <==> req.summary == "" || !Present(req.recipients)
    ensures ValidateShare(req) == Err(NoRecipients) <==>
      req.summary != "" && Present(req.recipients) && ParseRecipients(req.recipients) == []
    ensures ValidateShare(req) == Err(BadRecipient) <==>
      req.summary != "" && ParseRecipients(req.recipients) != [] &&
      !AllEmailShaped(ParseRecipients(req.recipients))
    ensures ValidateShare(req) == Err(BadSender) <==>
      req.summary != "" && ParseRecipients(req.recipients) != [] &&
      AllEmailShaped(ParseRecipients(req.recipients)) &&
      req.senderEmail != "" && !IsEmailShape(req.senderEmail)
  {
    if !Present(req.recipients) {
      assert ParseRecipients(req.recipients) == [];
    }
  }

  /** An empty list is truthy, so it passes the first check and fails the second. */
  lemma EmptyListHasNoRecipients(summary: string, name: string, email: string)
    requires summary != ""
    ensures ValidateShare(ShareRequest(summary, List([]), name, email)) == Err(NoRecipients)
  {
    assert ParseRecipients(List([])) == [];
  }

  // ---------------------------------------------------------------------------
  // Composition of the message, lines 27-39 and 116-121

  /** The name shown for the sender: the given one, or `Someone`. */
  function DisplayName(senderName: string): (r: string)
    ensures r != ""
    ensures senderName != "" ==> r == senderName
    ensures senderName == "" ==> r == "Someone"
  {
    if senderName != "" then senderName else "Someone"
  }

  const SubjectBase := "Meeting Summary"
  const SubjectSharedBy := "Meeting Summary (shared by "

  /** Line 119: the subject line. */
  function Subject(senderName: string): (r: string)
    ensures senderName == "" <==> r == SubjectBase
    ensures senderName != "" ==> StartsWith(r, SubjectSharedBy) && EndsWith(r, ")")
  {
    if senderName != "" then SubjectSharedBy + senderName + ")" else SubjectBase
  }

  /** Reads the sender name back out of a subject line. */
  function SenderOfSubject(subject: string): string {
    if |subject| > |SubjectSharedBy| && StartsWith(subject, SubjectSharedBy) && EndsWith(subject, ")")
    then subject[|SubjectSharedBy|..|subject| - 1]
    else ""
  }

  /** The subject names the sender, and only the sender. */
  lemma SubjectRoundTrip(senderName: string)
    ensures SenderOfSubject(Subject(senderName)) == senderName
  {
    if senderName != "" {
      var s := Subject(senderName);
      assert s[|SubjectSharedBy|..|s| - 1] == senderName;
    }
  }

  /** The attribution that heads the plain-text body: empty without any sender information. */
  function Attribution(senderName: string, senderEmail: string): (r: string)
    ensures r == "" <==> senderName == "" && senderEmail == ""
    ensures r != "" ==> StartsWith(r, "Shared by: " + DisplayName(senderName) + " ") && EndsWith(r, "\n\n")
  {
    if senderName != "" || senderEmail != "" then
      var paren := if senderEmail != "" then "(" + senderEmail + ")" else "";
      var r := "Shared by: " + DisplayName(senderName) + " " + paren + "\n\n";
      assert r[..|"Shared by: " + DisplayName(senderName) + " "|] == "Shared by: " + DisplayName(senderName) + " ";
      r
    else ""
  }

  /** Line 120: the plain-text body, the raw summary after the attribution. */
  function PlainTextBody(summary: string, senderName: string, senderEmail: string): (r: string)
    ensures StartsWith(r, Attribution(senderName, senderEmail)) && EndsWith(r, summary)
    ensures |r| == |Attribution(senderName, senderEmail)| + |summary|
    ensures r == summary <==> senderName == "" && senderEmail == ""
  {
    var a := Attribution(senderName, senderEmail);
    Framed(a, "", summary);
    assert a + "" + summary == a + summary;
    a + summary
  }

  /** The three attribution forms: name alone (with the template's trailing space), email alone, both. */
  lemma AttributionForms(name: string, email: string)
    requires name != "" && email != ""
    ensures Attribution(name, "") == "Shared by: " + name + " \n\n"
    ensures Attribution("", email) == "Shared by: Someone (" + email + ")\n\n"
    ensures Attribution(name, email) == "Shared by: " + name + " (" + email + ")\n\n"
  {
  }

  /**
   * Placeholders for the styled wrapper of the sender block: the source's inline
   * styles, icon, white space and line breaks are not modelled. The span around
   * the email (`SenderEmailOpen`, `SenderEmailClose`) is the source's own text.
   */
  const SenderBlockOpen := "<div class=\"shared-by\"><strong>Shared by:</strong><div>"
  const SenderBlockClose := "</div></div>"
  const SenderEmailOpen := " <" + "span style=\"color: #666; font-size: 14px;\">("
  const SenderEmailClose := ")</span>"

  /** Line 34: the display name, then the email in parentheses when one is given. */
  function SenderLine(senderName: string, senderEmail: string): (r: string)
    ensures StartsWith(r, DisplayName(senderName))
    ensures senderEmail == "" ==> r == DisplayName(senderName)
    ensures senderEmail != "" ==> EndsWith(r, senderEmail + SenderEmailClose)
  {
    assert senderEmail == "" ==> DisplayName(senderName) + "" == DisplayName(senderName);
    Framed(DisplayName(senderName), SenderEmailOpen, senderEmail + SenderEmailClose);
    assert DisplayName(senderName) + SenderEmailOpen + (senderEmail + SenderEmailClose) ==
      DisplayName(senderName) + (SenderEmailOpen + senderEmail + SenderEmailClose);
    DisplayName(senderName) + if senderEmail != "" then SenderEmailOpen + senderEmail + SenderEmailClose else ""
  }

  /** Lines 27-39: the sender block of the HTML message. */
  function SenderBlock(senderName: string, senderEmail: string): (r: string)
    ensures r == "" <==> senderName == "" && senderEmail == ""
    ensures r != "" ==> StartsWith(r, SenderBlockOpen) && EndsWith(r, SenderBlockClose)
  {
    if senderName != "" || senderEmail != "" then
      Framed(SenderBlockOpen, SenderLine(senderName, senderEmail), SenderBlockClose);
      SenderBlockOpen + SenderLine(senderName, senderEmail) + SenderBlockClose
    else ""
  }

  /** Reads the shown name and the email back out of a sender block. */
  function SenderOfBlock(block: string): (string, string) {
    if |block| >= |SenderBlockOpen| + |SenderBlockClose| && StartsWith(block, SenderBlockOpen) && EndsWith(block, SenderBlockClose)
    then SenderOfLine(block[|SenderBlockOpen|..|block| - |SenderBlockClose|])
    else ("", "")
  }

  /** The name up to the first ` <`, and the email inside the span after it. */
  function SenderOfLine(line: string): (string, string) {
    var cut := SpanStart(line, 0);
    var rest := line[cut..];
    if |rest| >= |SenderEmailOpen| + |SenderEmailClose|
    then (line[..cut], rest[|SenderEmailOpen|..|rest| - |SenderEmailClose|])
    else (line[..cut], "")
  }

  /** Index of the first ` <` at or after `i`, or the end of `s`. */
  function SpanStart(s: string, i: nat): (j: nat)
    requires i <= |s|
    ensures i <= j <= |s|
    decreases |s| - i
  {
    if i == |s| || (i + 1 < |s| && s[i] == ' ' && s[i + 1] == '<') then i else SpanStart(s, i + 1)
  }

  lemma {:induction false} SpanStartSkips(s: string, i: nat, j: nat)
    requires i <= j <= |s|
    requires forall k | i <= k < j :: !(k + 1 < |s| && s[k] == ' ' && s[k + 1] == '<')
    ensures SpanStart(s, i) == SpanStart(s, j)
    decreases j - i
  {
    if i < j {
      SpanStartSkips(s, i + 1, j);
    }
  }

  lemma SenderOfWrappedLine(line: string)
    ensures SenderOfBlock(SenderBlockOpen + line + SenderBlockClose) == SenderOfLine(line)
  {
    var block := SenderBlockOpen + line + SenderBlockClose;
    assert block[..|SenderBlockOpen|] == SenderBlockOpen;
    assert block[|block| - |SenderBlockClose|..] == SenderBlockClose;
    assert block[|SenderBlockOpen|..|block| - |SenderBlockClose|] == line;
  }

  lemma SenderOfShownLine(shown: string, emailPart: string)
    requires Markup.NoPair(shown, ' ', '<')
    requires emailPart == [] || (|emailPart| >= 2 && emailPart[0] == ' ' && emailPart[1] == '<')
    ensures SpanStart(shown + emailPart, 0) == |shown|
  {
    var line := shown + emailPart;
    forall k | 0 <= k < |shown| ensures !(k + 1 < |line| && line[k] == ' ' && line[k + 1] == '<') {
      if k + 1 < |shown| {
        assert line[k] == shown[k] && line[k + 1] == shown[k + 1];
      } else if k + 1 < |line| {
        assert line[k + 1] == emailPart[0];
      }
    }
    SpanStartSkips(line, 0, |shown|);
  }

  lemma SenderOfLineWithEmail(shown: string, email: string)
    requires Markup.NoPair(shown, ' ', '<')
    ensures SenderOfLine(shown + (SenderEmailOpen + email + SenderEmailClose)) == (shown, email)
  {
    var emailPart := SenderEmailOpen + email + SenderEmailClose;
    var line := shown + emailPart;
    assert emailPart[..|SenderEmailOpen|] == SenderEmailOpen;
    assert emailPart[0] == SenderEmailOpen[0] && emailPart[1] == SenderEmailOpen[1];
    SenderOfShownLine(shown, emailPart);
    assert line[..|shown|] == shown && line[|shown|..] == emailPart;
    assert emailPart[|SenderEmailOpen|..|emailPart| - |SenderEmailClose|] == email;
  }

  lemma SenderOfLineWithoutEmail(shown: string)
    requires Markup.NoPair(shown, ' ', '<')
    ensures SenderOfLine(shown) == (shown, "")
  {
    SenderOfShownLine(shown, "");
    assert shown + "" == shown;
    assert shown[..|shown|] == shown;
  }

  /**
   * The sender block shows the display name, and the email exactly when one
   * is given: both can be read back from it, as long as the name holds no ` <`.
   */
  lemma SenderBlockRoundTrip(senderName: string, senderEmail: string)
    requires senderName != "" || senderEmail != ""
    requires Markup.NoPair(DisplayName(senderName), ' ', '<')
    ensures SenderOfBlock(SenderBlock(senderName, senderEmail)) == (DisplayName(senderName), senderEmail)
  {
    var shown := DisplayName(senderName);
    SenderOfWrappedLine(SenderLine(senderName, senderEmail));
    if senderEmail != "" {
      SenderOfLineWithEmail(shown, senderEmail);
    } else {
      assert SenderLine(senderName, senderEmail) == shown + "" == shown;
      SenderOfLineWithoutEmail(shown);
    }
  }

  /**
   * Placeholders for the document template around the date, the sender block
   * and the rendered summary: they keep the template's order and its fixed
   * words, not its styling, emoji or white space.
   */
  const DocumentHead := "<div class=\"meeting-summary\"><h1>Meeting Summary</h1><p>Generated on "
  const DocumentAfterDate := "</p>"
  const DocumentBeforeSummary := "<div class=\"summary\">"
  const DocumentTail := "</div><p>This summary was generated automatically by Meeting Summary App</p></div>"

  /**
   * `formatSummaryHTML`: the template around the date (the server's locale
   * date string, passed in), the sender block and the rendered summary.
   */
  function SummaryHtml(summary: string, senderName: string, senderEmail: string, date: string): (r: string)
    ensures StartsWith(r, DocumentHead + date + DocumentAfterDate + SenderBlock(senderName, senderEmail))
    ensures EndsWith(r, Markup.SummaryMarkup(summary) + DocumentTail)
    ensures |r| == |DocumentHead + date + DocumentAfterDate + SenderBlock(senderName, senderEmail)| +
      |DocumentBeforeSummary| + |Markup.SummaryMarkup(summary) + DocumentTail|
    ensures var n := |DocumentHead + date + DocumentAfterDate + SenderBlock(senderName, senderEmail)|;
      r[n..n + |DocumentBeforeSummary|] == DocumentBeforeSummary
  {
    var head := DocumentHead + date + DocumentAfterDate + SenderBlock(senderName, senderEmail);
    var tail := Markup.SummaryMarkup(summary) + DocumentTail;
    Framed(head, DocumentBeforeSummary, tail);
    var r := head + DocumentBeforeSummary + tail;
    assert r[|head|..|head| + |DocumentBeforeSummary|] == DocumentBeforeSummary;
    r
  }

  /** The message handed to the mail transport (lines 116-122). */
  datatype MailOptions = MailOptions(from: string, to: string, subject: string, text: string, html: string)

  const FromOpen := "\"Meeting Summary App\" <"

  /** Line 117: the sender address, from the configured account name. */
  function FromHeader(smtpUser: string): (r: string)
    ensures |r| == |FromOpen| + |smtpUser| + 1
    ensures StartsWith(r, FromOpen) && EndsWith(r, ">")
    ensures r[|FromOpen|..|r| - 1] == smtpUser
  {
    var r := FromOpen + smtpUser + ">";
    assert r[..|FromOpen|] == FromOpen;
    assert r[|FromOpen|..|r| - 1] == smtpUser;
    r
  }

  /**
   * The share handler up to the mail transport: a validation error (status
   * 400), or the composed message. The account name and the date are
   * parameters; the transport's verify and send steps are not modelled.
   */
  function ShareMail(req: ShareRequest, smtpUser: string, date: string): (r: Result<MailOptions, string>)
    ensures r.Err? <==> ValidateShare(req).Err?
    ensures r.Err? ==> r.error == ValidateShare(req).error
    ensures r.Ok? ==> r.value.subject == Subject(req.senderName)
    ensures r.Ok? ==> r.value.text == PlainTextBody(req.summary, req.senderName, req.senderEmail)
    ensures r.Ok? ==> r.value.to == Join(ValidateShare(req).value, ",")
    ensures r.Ok? ==> r.value.from == FromHeader(smtpUser)
    ensures r.Ok? ==> r.value.html == SummaryHtml(req.summary, req.senderName, req.senderEmail, date)
  {
    match ValidateShare(req)
    case Err(e) => Err(e)
    case Ok(toList) =>
      Ok(MailOptions(
        FromHeader(smtpUser),
        Join(toList, ","),
        Subject(req.senderName),
        PlainTextBody(req.summary, req.senderName, req.senderEmail),
        SummaryHtml(req.summary, req.senderName, req.senderEmail, date)))
  }

  /** For a recipient string, the `to` header splits back on commas into exactly the parsed list. */
  lemma ToHeaderRoundTrip(req: ShareRequest, smtpUser: string, date: string)
    requires req.recipients.Text?
    requires ShareMail(req, smtpUser, date).Ok?
    ensures SplitOn(ShareMail(req, smtpUser, date).value.to, {','}) == ParseRecipients(req.recipients)
  {
    var toList := ParseRecipients(req.recipients);
    forall i | 0 <= i < |toList| ensures Avoids(toList[i], {','}) {
      assert Avoids(toList[i], Separators);
    }
    SplitJoin(toList, ',', {','});
  }
}
