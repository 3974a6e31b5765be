/**
  The send-emails endpoint (app/api/send-emails/route.js): the `POST` handler
  that checks the recipient list, resolves the HTML body, gathers the
  attachments and then tries one mail per recipient, counting successes.

  The parsed multipart form is given as a value, and the mail transport is an
  oracle: `transport(k, mail)` is whether the k-th send attempt, of `mail`,
  succeeds.
*/
module Dispatcher {
  import opened Wrappers
  import opened Text

  type Bytes = seq<bv8>

  /** The value `JSON.parse` gave for the `emails` field, as far as the handler's
      test `!emails || !Array.isArray(emails) || emails.length === 0` can tell them
      apart: a falsy value (`null`, also what a missing field parses to, `false`,
      `0`, `""`), any other non-array value, or an array of addresses. */
  datatype Json = Falsy | Truthy | Array(items: seq<string>)

  /** A file part of the form; `bytes` is `None` when reading it throws. */
  datatype Upload = Upload(name: string, bytes: Option<Bytes>)

  /** The `emailTemplate` part; `text` is `None` when reading it throws. */
  datatype TemplatePart = TemplatePart(text: Option<string>)

  /** The form after `request.formData()`; `emails` is `None` when `JSON.parse` throws. */
  datatype Form = Form(
    emails: Option<Json>,
    subject: string,
    message: string,
    attachments: seq<Upload>,
    template: Option<TemplatePart>)

  datatype Attachment = Attachment(filename: string, content: Bytes)

  /** The options given to the transport for one send. */
  datatype MailOptions = MailOptions(
    from: string, to: string, subject: string, text: string, html: string,
    attachments: seq<Attachment>)

  /** Everything a mail of the batch carries except its `to` address. */
  datatype Content = Content(
    from: string, subject: string, text: string, html: string,
    attachments: seq<Attachment>)

  /** What the loop needs once the request has been checked and read. */
  datatype Batch = Batch(recipients: seq<string>, content: Content)

  /** The JSON response: the summary of a finished batch (HTTP 200), or an error. */
  datatype Response =
    | Completed(message: string, current: nat, total: nat)
    | Rejected(status: nat, error: string)

  const InvalidEmailList: Response := Rejected(400, "Invalid email list")
  const SendFailure: Response := Rejected(500, "Failed to send emails")

  /** The outcome of the k-th send attempt, of the given mail. */
  type Transport = (nat, MailOptions) -> bool

  // ---------------------------------------------------------------- recipient shape

  /** The value passes the handler's shape test: a non-empty array. */
  predicate IsRecipientList(emails: Json) {
    emails.Array? && emails.items != []
  }

  // ---------------------------------------------------------------- HTML body

  const Placeholder: string := "{{message}}"

  /** The HTML body: the message itself without a template; with one, the template
      with its first placeholder replaced by the message, inserted literally. */
  function ResolveHtml(template: Option<string>, message: string): (html: string)
    ensures template.None? ==> html == message
    ensures template.Some? && (forall i :: !OccursAt(template.value, Placeholder, i)) ==>
              html == template.value
    ensures forall i :: template.Some? && FirstOccurrence(template.value, Placeholder, i) ==>
              html == template.value[..i] + message + template.value[i + |Placeholder|..]
  {
    match template
    case None => message
    case Some(t) => ReplaceFirst(t, Placeholder, message)
  }

  /** Only the first placeholder is replaced: a second one stays in the body. */
  lemma OnlyFirstPlaceholderReplaced(message: string)
    ensures ResolveHtml(Some(Placeholder + Placeholder), message) == message + Placeholder
  {
    ReplaceFirstDoubled(Placeholder, message);
  }

  /** The replacement text as `String.prototype.replace` expands it (GetSubstitution
      in ECMAScript, with no capture groups): `$$` gives `$`, `$&` the matched text,
      `` $` `` the text before the match, `$'` the text after it; any other `$` is literal. */
  function Substitution(replacement: string, matched: string, before: string, after: string): string {
    if replacement == [] then []
    else if replacement[0] == '$' && |replacement| >= 2 && replacement[1] in {'$', '&', '`', '\''} then
      var rest := Substitution(replacement[2..], matched, before, after);
      match replacement[1]
      case '$' => "$" + rest
      case '&' => matched + rest
      case '`' => before + rest
      case _ => after + rest
    else [replacement[0]] + Substitution(replacement[1..], matched, before, after)
  }

  /** A replacement without `$` is inserted as it is. */
  lemma {:induction false} SubstitutionLiteral(replacement: string, matched: string, before: string, after: string)
    requires '$' !in replacement
    ensures Substitution(replacement, matched, before, after) == replacement
  {
    if replacement != [] {
      assert replacement[0] != '$';
      assert '$' !in replacement[1..];
      SubstitutionLiteral(replacement[1..], matched, before, after);
      assert [replacement[0]] + replacement[1..] == replacement;
    }
  }

  /** `templateText.replace("{{message}}", message)` exactly as JavaScript evaluates it. */
  function ResolveHtmlAsWritten(template: Option<string>, message: string): (html: string)
    ensures template.None? ==> html == message
    ensures template.Some? && (forall i :: !OccursAt(template.value, Placeholder, i)) ==>
              html == template.value
    ensures forall i :: template.Some? && FirstOccurrence(template.value, Placeholder, i) ==>
              html == template.value[..i]
                      + Substitution(message, Placeholder, template.value[..i], template.value[i + |Placeholder|..])
                      + template.value[i + |Placeholder|..]
  {
    match template
    case None => message
    case Some(t) =>
      match Find(t, Placeholder, 0)
      case None => t
      case Some(i) =>
        var before, after := t[..i], t[i + |Placeholder|..];
        before + Substitution(message, Placeholder, before, after) + after
  }

  /** For every message without a `$`, the handler as written and the literal insertion agree. */
  lemma AsWrittenAgreesWithoutDollar(template: Option<string>, message: string)
    ensures '$' !in message ==> ResolveHtmlAsWritten(template, message) == ResolveHtml(template, message)
  {
    if template.Some? && '$' !in message {
      var t := template.value;
      match Find(t, Placeholder, 0)
      case None =>
      case Some(i) =>
        SubstitutionLiteral(message, Placeholder, t[..i], t[i + |Placeholder|..]);
    }
  }

  /** The message `$&` brings the placeholder back instead of appearing in the body. */
  lemma DollarAmpersandKeepsPlaceholder()
    ensures ResolveHtmlAsWritten(Some(Placeholder), "$&") == Placeholder
    ensures ResolveHtml(Some(Placeholder), "$&") == "$&"
  {
    assert Placeholder[0..|Placeholder|] == Placeholder;
    assert FirstOccurrence(Placeholder, Placeholder, 0);
    assert Find(Placeholder, Placeholder, 0) == Some(0);
    assert "$&"[0] == '$' && "$&"[1] == '&' && "$&"[2..] == [];
    assert Substitution("$&", Placeholder, [], []) == Placeholder;
    assert Placeholder[|Placeholder|..] == [];
  }

  // ---------------------------------------------------------------- attachments

  /** The attachment list: each file part read into memory under its own name, in
      upload order; one unreadable part makes the whole list fail. */
  function Materialize(files: seq<Upload>): (r: Option<seq<Attachment>>)
    ensures r.Some? <==> forall k :: 0 <= k < |files| ==> files[k].bytes.Some?
    ensures r.Some? ==> |r.value| == |files|
    ensures r.Some? ==> forall k :: 0 <= k < |files| ==>
              r.value[k].filename == files[k].name && Some(r.value[k].content) == files[k].bytes
  {
    if files == [] then Some([])
    else
      match (files[0].bytes, Materialize(files[1..]))
      case (Some(b), Some(rest)) =>
        var r := [Attachment(files[0].name, b)] + rest;
        assert forall k :: 1 <= k < |files| ==> r[k] == rest[k - 1] && files[k] == files[1..][k - 1];
        Some(r)
      case (None, _) => None
      case (_, None) =>
        assert exists k :: 0 <= k < |files[1..]| && files[1..][k].bytes.None?;
        None
  }

  // ---------------------------------------------------------------- before the loop

  /** The text of the uploaded template part, when there is one and it could be read. */
  function TemplateText(template: Option<TemplatePart>): Option<string> {
    match template
    case None => None
    case Some(part) => part.text
  }

  /** The request gets past every early exit: it was parsed, its recipient list has the
      right shape, and the template and every attachment could be read. */
  predicate Accepted(request: Option<Form>) {
    && request.Some?
    && request.value.emails.Some?
    && IsRecipientList(request.value.emails.value)
    && (request.value.template.None? || request.value.template.value.text.Some?)
    && Materialize(request.value.attachments).Some?
  }

  /** Everything `POST` does before its send loop: the early responses, or the batch. */
  function Prepare(request: Option<Form>, sender: string): (r: Result<Batch, Response>)
    ensures r.Success? <==> Accepted(request)
    ensures r == Failure(InvalidEmailList) <==>
              request.Some? && request.value.emails.Some? && !IsRecipientList(request.value.emails.value)
    ensures r.Failure? ==> r.error == InvalidEmailList || r.error == SendFailure
    ensures r.Success? ==>
              var form, batch := request.value, r.value;
              && form.emails == Some(Array(batch.recipients)) && batch.recipients != []
              && batch.content.from == sender
              && batch.content.subject == form.subject
              && batch.content.text == form.message
              && batch.content.html == ResolveHtmlAsWritten(TemplateText(form.template), form.message)
              && ('$' !in form.message ==>
                    batch.content.html == ResolveHtml(TemplateText(form.template), form.message))
              && Materialize(form.attachments) == Some(batch.content.attachments)
  {
    match request
    case None => Failure(SendFailure)
    case Some(form) =>
      match form.emails
      case None => Failure(SendFailure)
      case Some(emails) =>
        if !IsRecipientList(emails) then Failure(InvalidEmailList)
        else if form.template.Some? && form.template.value.text.None? then Failure(SendFailure)
        else
          var html := ResolveHtmlAsWritten(TemplateText(form.template), form.message);
          match Materialize(form.attachments)
          case Some(attachments) =>
            AsWrittenAgreesWithoutDollar(TemplateText(form.template), form.message);
            Success(Batch(emails.items, Content(sender, form.subject, form.message, html, attachments)))
          case None => Failure(SendFailure)
  }

  // ---------------------------------------------------------------- the send loop

  /** The mail for one recipient. */
  function MailTo(to: string, content: Content): MailOptions {
    MailOptions(content.from, to, content.subject, content.text, content.html, content.attachments)
  }

  /** The attempts of a batch: one per recipient, in order, all alike but for `to`. */
  function Attempts(recipients: seq<string>, content: Content): (mails: seq<MailOptions>)
    ensures |mails| == |recipients|
    ensures forall k :: 0 <= k < |mails| ==>
              && mails[k].to == recipients[k]
              && mails[k].from == content.from && mails[k].subject == content.subject
              && mails[k].text == content.text && mails[k].html == content.html
              && mails[k].attachments == content.attachments
  {
    seq(|recipients|, k requires 0 <= k < |recipients| => MailTo(recipients[k], content))
  }

  /** How many of the attempts the transport accepted. */
  function SuccessCount(attempts: seq<MailOptions>, transport: Transport): (n: nat)
    ensures n <= |attempts|
  {
    if attempts == [] then 0
    else
      var last := |attempts| - 1;
      SuccessCount(attempts[..last], transport) + (if transport(last, attempts[last]) then 1 else 0)
  }

  /** The positions of the attempts the transport accepted. */
  function Delivered(attempts: seq<MailOptions>, transport: Transport): set<nat> {
    set k: nat | k < |attempts| && transport(k, attempts[k])
  }

  /** The counter is the number of accepted attempts, whatever the others did. */
  lemma {:induction false} SuccessCountIsDelivered(attempts: seq<MailOptions>, transport: Transport)
    ensures SuccessCount(attempts, transport) == |Delivered(attempts, transport)|
  {
    if attempts != [] {
      var last := |attempts| - 1;
      var prefix := attempts[..last];
      SuccessCountIsDelivered(prefix, transport);
      var before := Delivered(prefix, transport);
      assert before == Delivered(attempts, transport) - {last};
      if transport(last, attempts[last]) {
        assert Delivered(attempts, transport) == before + {last};
      } else {
        assert Delivered(attempts, transport) == before;
      }
    }
  }

  /** The counter reaches the number of attempts exactly when every attempt succeeded. */
  lemma {:induction false} SuccessCountAll(attempts: seq<MailOptions>, transport: Transport)
    ensures SuccessCount(attempts, transport) == |attempts| <==>
              forall k :: 0 <= k < |attempts| ==> transport(k, attempts[k])
  {
    if attempts != [] {
      var last := |attempts| - 1;
      SuccessCountAll(attempts[..last], transport);
      assert forall k :: 0 <= k < last ==> attempts[..last][k] == attempts[k];
    }
  }

  /** The sequential loop: one attempt per recipient, in order; a failed attempt is
      swallowed and the loop goes on; each success increments the counter. */
  method SendAll(recipients: seq<string>, content: Content, transport: Transport)
    returns (successCount: nat, attempts: seq<MailOptions>)
    ensures attempts == Attempts(recipients, content)
    ensures successCount == SuccessCount(attempts, transport)
  {
    successCount := 0;
    attempts := [];
    for i := 0 to |recipients|
      invariant attempts == Attempts(recipients[..i], content)
      invariant successCount == SuccessCount(attempts, transport)
    {
      var mail := MailTo(recipients[i], content);
      var ok := transport(i, mail);
      assert (attempts + [mail])[..i] == attempts;
      attempts := attempts + [mail];
      if ok {
        successCount := successCount + 1;
      }
    }
    assert recipients[..|recipients|] == recipients;
  }

  /** The summary text of a finished batch. */
  function Summary(current: nat, total: nat): string {
    "Successfully sent " + Decimal(current) + " out of " + Decimal(total) + " emails"
  }

  /** The summary message determines the counts it reports. */
  lemma SummaryDeterminesCounts(c: nat, t: nat, c': nat, t': nat)
    requires Summary(c, t) == Summary(c', t')
    ensures c == c' && t == t'
  {
    var head, mid, tail := "Successfully sent ", " out of ", " emails";
    RegroupHead(head, Decimal(c), mid, Decimal(t), tail);
    RegroupHead(head, Decimal(c'), mid, Decimal(t'), tail);
    DropPrefix(head, Decimal(c) + (mid + (Decimal(t) + tail)), Decimal(c') + (mid + (Decimal(t') + tail)));
    ReadCounts(mid, tail, c, t, c', t');
  }

  /** `POST`: returns the response and the send attempts made, in order. */
  method Post(request: Option<Form>, sender: string, transport: Transport)
    returns (response: Response, attempts: seq<MailOptions>)
    ensures Prepare(request, sender).Failure? ==>
              response == Prepare(request, sender).error && attempts == []
    ensures Prepare(request, sender).Success? ==>
              var batch := Prepare(request, sender).value;
              && attempts == Attempts(batch.recipients, batch.content)
              && var current, total := SuccessCount(attempts, transport), |batch.recipients|;
                 response == Completed(Summary(current, total), current, total)
    ensures response.Completed? ==> response.current <= response.total == |attempts|
  {
    match Prepare(request, sender)
    case Failure(early) =>
      response, attempts := early, [];
    case Success(batch) =>
      var successCount;
      successCount, attempts := SendAll(batch.recipients, batch.content, transport);
      var total := |batch.recipients|;
      response := Completed(Summary(successCount, total), successCount, total);
  }

  /** A batch of three whose second send fails: the third is still attempted and two succeed. */
  lemma MixedBatch(a: string, b: string, c: string, content: Content, transport: Transport)
    requires transport(0, MailTo(a, content)) && !transport(1, MailTo(b, content))
    requires transport(2, MailTo(c, content))
    ensures var attempts := Attempts([a, b, c], content);
            && |attempts| == 3 && attempts[2].to == c
            && SuccessCount(attempts, transport) == 2
  {
    var attempts := Attempts([a, b, c], content);
    var ma, mb, mc := MailTo(a, content), MailTo(b, content), MailTo(c, content);
    assert attempts == [ma, mb, mc];
    assert [ma][..0] == [];
    assert SuccessCount([ma], transport) == 1;
    assert [ma, mb][..1] == [ma];
    assert SuccessCount([ma, mb], transport) == 1;
    assert [ma, mb, mc][..2] == [ma, mb];
  }
}
