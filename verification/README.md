# Bulk mailer: recipient handling and the send loop, in Dafny

A Next.js bulk mailer. A page (`app/page.js`) collects a comma-separated recipient
list, a subject, a message, an optional HTML template and attachments. A list file
may separate addresses by newlines or commas; the import rewrites it as one
comma-separated line. Text typed into the field is split at commas only, so a typed
newline-separated list is a single entry with whitespace inside, which is rejected.
It checks each address against a regular expression and posts everything to one
endpoint (`app/api/send-emails/route.js`). The endpoint checks the recipient list,
builds the HTML body from the template, reads the attachments, and then sends one
mail per recipient through an SMTP transport. A failed send is caught and the
loop goes on. Successes are counted, and the endpoint answers with
`{current: successes, total: recipients}`.

The model has three files:

- `text.dfy`: module `Wrappers` (`Option`, `Result`) and module `Text`, the
  string operations the code uses. Some keep their JavaScript meaning: the
  whitespace set shared by `\s` and `trim`, `trim` itself, `split` on
  one-character separators, `join`, `filter`, and `${n}` for a count. Two are
  helpers of the model. `IndexOf` splits an address at its `@`.
  `ReplaceFirst` replaces the first occurrence literally; JavaScript's `replace`
  expands `$` patterns instead (see Findings).
- `composer.dfy`: module `Composer`, the page. It holds `validateEmail`, the
  list-import normaliser, the submit-time splitter and its invalid-entry
  filter. Class `HomePage` holds the React state that `handleFileImport` and
  `handleSubmit` set.
- `dispatcher.dfy`: module `Dispatcher`, the `POST` handler. `Prepare` is
  everything before the loop: the 400 and 500 exits, the HTML body as the code
  computes it, and the attachment list. `SendAll` is the send loop, a method with loop invariants.
  `Post` puts the two together.

The mail transport is an oracle: `transport(k, mail)` says whether the k-th send
attempt, of `mail`, succeeds. The parsed multipart form is a value (`Form`). A part
whose reading throws is `None` in it.

## Model

| member | source | states |
|---|---|---|
| `Text.Trim` | app/page.js:34 | the result has no whitespace at either end and is no longer than the input |
| `Text.TrimDecomposes` | app/page.js:34 | trim keeps one stretch of the input; only whitespace is cut from each side of it |
| `Text.TrimUnique` | app/page.js:34 | a trimmed string padded with whitespace on both sides trims back to itself |
| `Text.TrimLeadingWhitespace` | app/page.js:76 | a leading whitespace character never changes the trim |
| `Text.Split` | app/page.js:76 | a split has one more piece than the input has separators; empty pieces are kept |
| `Text.SplitPieces` | app/page.js:33 | no piece of a split contains a separator |
| `Text.SplitNoSeparator` | app/page.js:33 | a string without separators splits into itself alone |
| `Text.SplitAtSeparator` | app/page.js:33 | the pieces of `a + sep + b` are the pieces of `a` followed by those of `b` |
| `Text.Join` | app/page.js:36 | the parts in order with the separator between neighbours; the result opens with the first part |
| `Text.JoinSplit` | app/page.js:76 | joining the pieces of a comma split with "," gives the input back |
| `Text.SplitJoin` | app/page.js:76 | separator-free parts joined with their separator split back into the same parts |
| `Text.IndexOf` | app/page.js:17 | the index found holds the character and none comes before it; `None` means the character does not occur |
| `Text.Find` | app/api/send-emails/route.js:31 | the position found is the leftmost occurrence of the pattern; `None` means there is none |
| `Text.ReplaceFirst` | app/api/send-emails/route.js:31 | with no occurrence the text is unchanged; otherwise only the leftmost occurrence is replaced |
| `Text.Filter` | app/page.js:35 | the kept elements come from the input and satisfy the test; every input element that passes is kept |
| `Text.FilterConcat` | app/page.js:77 | filtering keeps input order: it distributes over concatenation |
| `Text.Decimal` | app/api/send-emails/route.js:64 | a count renders as a non-empty run of digits with no leading zero |
| `Text.DecimalRoundTrip` | app/api/send-emails/route.js:64 | reading the rendered digits back gives the count |
| `Composer.ValidateEmail` | app/page.js:16-19 | `validateEmail` as a hand-written check: one `@` with a non-empty local part before it, no whitespace and no second `@`, and a domain with a `.` that is neither first nor last (its partner is `ValidateEmailMatchesPattern`) |
| `Composer.ValidateEmailShortest` | app/page.js:17 | an accepted address contains `@` and has at least five characters, as in `a@b.c` |
| `Composer.ValidateEmailMatchesPattern` | app/page.js:16-19 | the hand-written check (exactly one `@`, non-empty whitespace-free local part, whitespace-free domain with an inner `.`) accepts exactly the strings `^[^\s@]+@[^\s@]+\.[^\s@]+$` matches |
| `Composer.ValidateEmailSound` | app/page.js:16-19 | every address the check accepts matches the pattern |
| `Composer.ValidateEmailComplete` | app/page.js:16-19 | every string the pattern matches passes the check |
| `Composer.ImportTokens` | app/page.js:32-35 | every imported token is non-empty and trimmed, and contains no comma and no newline |
| `Composer.TrimInfix` | app/page.js:34 | trimming never brings in a separator |
| `Composer.ImportTokensAtSeparator` | app/page.js:32-35 | tokens keep file order: the tokens of `a + sep + b` are those of `a` then those of `b` |
| `Composer.ImportTokensOfPiece` | app/page.js:32-35 | a separator-free stretch gives its trimmed text, or nothing when that is empty |
| `Composer.ImportTokensCons` | app/page.js:32-35 | a clean token before a separator comes first, ahead of the rest's tokens |
| `Composer.ImportTokensOfLines` | app/page.js:32-35 | newline, comma and a blank last line give exactly the three tokens |
| `Composer.ImportNormalisesLines` | app/page.js:32-36 | three addresses on lines and after a comma, plus a blank line, become "a, b, c" |
| `Composer.ImportExample` | app/page.js:32-36 | "a@x.com\nb@y.com,c@z.com\n\n" imports as "a@x.com, b@y.com, c@z.com" |
| `Composer.ImportRecipients` | app/page.js:36 | the field is empty exactly when the file held no token; otherwise it has one comma fewer than there are tokens |
| `Composer.ImportNothingSubmitsEmpty` | app/page.js:36 | a file without tokens leaves the field empty; that field would split into one empty entry that fails validation (the field's `required` attribute stops the form before `handleSubmit` runs) |
| `Composer.ImportThenSubmitRoundTrip` | app/page.js:36 | whenever the file holds a token, splitting the imported text on "," and trimming gives back the imported tokens |
| `Composer.SubmitListOfJoin` | app/page.js:76 | trimmed comma-free entries joined with ", " are split and trimmed back into themselves |
| `Composer.SubmitListLeadingSpace` | app/page.js:76 | the space after each comma has no effect on the entries |
| `Composer.TrimAllSameTail` | app/page.js:76 | lists equal after their head with heads trimming alike trim alike |
| `Composer.SubmitListOfPiece` | app/page.js:76 | text without a comma is a single entry, its trim |
| `Composer.SubmitListAtComma` | app/page.js:76 | the entry before the first comma is that text trimmed, followed by the entries of the rest |
| `Composer.SubmitList` | app/page.js:76 | one entry per comma plus one, empty entries kept; each entry trimmed and comma-free |
| `Composer.InvalidEmails` | app/page.js:77 | exactly the entries failing `validateEmail` are reported, and the report is no longer than the list, so with `InvalidEmailsInOrder` each offender appears once per occurrence, in input order; the report is empty iff every entry is valid |
| `Composer.InvalidEmailsOfOne` | app/page.js:77 | a single entry is reported once when it fails the check and not at all otherwise |
| `Composer.InvalidEmailsInOrder` | app/page.js:77 | the report keeps input order |
| `Composer.TrailingCommaBlocksSubmit` | app/page.js:76-83 | a trailing comma leaves an empty last entry, and that entry blocks the submission |
| `Composer.SubmitReportsInvalidOnly` | app/page.js:76-83 | in `a, n, b` with only `n` invalid, `n` alone is reported |
| `Composer.ValidExampleAddresses` | app/page.js:16-19 | "a@x.com" and "b@y.com" pass the check |
| `Composer.ValidExampleAddress` | app/page.js:16-19 | every address of the form `?@?.com` with lower-case letters passes the check |
| `Composer.NotAnEmail` | app/page.js:16-19 | "not-an-email" fails the check |
| `Composer.SubmitExample` | app/page.js:76-83 | "a@x.com, not-an-email, b@y.com" is rejected, naming "not-an-email" alone |
| `Composer.InvalidStatus` | app/page.js:80 | the status naming the invalid entries, joined by ", " (its partner is `InvalidStatusNamesOffenders`) |
| `Composer.InvalidStatusNamesOffenders` | app/page.js:80 | the status opens with "Invalid email(s): ", and splitting the rest at commas and trimming gives back exactly the invalid entries |
| `Composer.SentStatus` | app/page.js:112-114 | the success status with the reported counts (its partner is `SentStatusDeterminesCounts`) |
| `Composer.SentStatusDeterminesCounts` | app/page.js:112-114 | two equal success statuses report the same counts: the status determines both numbers |
| `Composer.HomePage.constructor` | app/page.js:5-71 | the page starts with empty recipients and status, not submitting, progress 0 of 0 |
| `Composer.HomePage.SetEmails` | app/page.js:181 | typing stores the raw text unchecked |
| `Composer.HomePage.HandleFileImport` | app/page.js:27-38 | with a file, its name is set; once its text is read, the field becomes the normalised token list joined by ", "; a failed read leaves the field as it was; without a file, nothing changes |
| `Composer.HomePage.StartSubmit` | app/page.js:73-104 | with an invalid entry, nothing is posted, the status lists the offenders, submitting is cleared and progress is untouched; otherwise the split list is posted while the page shows "Sending emails...", submitting is set, and progress is 0 out of the number of entries |
| `Composer.HomePage.FinishSubmit` | app/page.js:106-119 | a delivered reply sets the progress to its counts and the success status; a failure sets the failure status and leaves the progress as it was (0 out of the entries after `StartSubmit`); submitting ends cleared |
| `Composer.HomePage.HandleSubmit` | app/page.js:73-120 | the two phases in order: an invalid entry stops it before posting; otherwise the reply decides the final progress and status; submitting ends cleared |
| `Dispatcher.ResolveHtml` | app/api/send-emails/route.js:28-32 | without a template the body is the message; a template without placeholder is unchanged; otherwise only the first `{{message}}` is replaced by the message |
| `Dispatcher.OnlyFirstPlaceholderReplaced` | app/api/send-emails/route.js:31 | a template with two placeholders keeps the second |
| `Dispatcher.Substitution` | app/api/send-emails/route.js:31 | the replacement text as `replace` expands it: `$$`, `$&`, `` $` `` and `$'` are patterns, anything else is literal (its partner is `SubstitutionLiteral`) |
| `Dispatcher.ResolveHtmlAsWritten` | app/api/send-emails/route.js:28-32 | without a template the body is the message; a template without placeholder is unchanged; otherwise the first placeholder is replaced by the message as `replace` expands it |
| `Dispatcher.SubstitutionLiteral` | app/api/send-emails/route.js:31 | a replacement without `$` is inserted as it is |
| `Dispatcher.AsWrittenAgreesWithoutDollar` | app/api/send-emails/route.js:28-32 | for every message without `$`, the body as JavaScript computes it equals `ResolveHtml` |
| `Dispatcher.DollarAmpersandKeepsPlaceholder` | app/api/send-emails/route.js:31 | as written, the message "$&" puts "{{message}}" back into the body instead of "$&" |
| `Dispatcher.IsRecipientList` | app/api/send-emails/route.js:21 | the shape test the recipient value must pass: a non-empty array |
| `Dispatcher.TemplateText` | app/api/send-emails/route.js:29-30 | the template's text, when a template part was sent and could be read |
| `Dispatcher.Accepted` | app/api/send-emails/route.js:13-39 | the request passes every early exit: parsed, a recipient list of the right shape, a readable template if any, and readable attachments |
| `Dispatcher.Materialize` | app/api/send-emails/route.js:34-39 | the attachment list fails iff some part is unreadable; otherwise it has one entry per file, in order, with the file's name and bytes |
| `Dispatcher.Prepare` | app/api/send-emails/route.js:13-39 | the batch is built exactly when the request passes every early exit; the 400 response is given exactly when the parsed recipient value fails the shape test, and every other failure is the 500 response; the batch has the posted addresses, sender, subject, text = message, the body as the code computes it (equal to literal insertion when the message has no `$`), and the attachments |
| `Dispatcher.MailTo` | app/api/send-emails/route.js:47-54 | the mail for one recipient: the batch's from, subject, text, html and attachments, addressed to that recipient alone |
| `Dispatcher.Attempts` | app/api/send-emails/route.js:45-54 | one mail per recipient in order; each has that recipient as `to` and the batch's from, subject, text, html and attachments |
| `Dispatcher.SuccessCount` | app/api/send-emails/route.js:41-61 | the counter never exceeds the number of attempts |
| `Dispatcher.SuccessCountIsDelivered` | app/api/send-emails/route.js:45-61 | the counter is the number of attempts the transport accepted |
| `Dispatcher.SuccessCountAll` | app/api/send-emails/route.js:45-61 | the counter equals the number of attempts iff every attempt succeeded |
| `Dispatcher.SendAll` | app/api/send-emails/route.js:41-61 | every recipient is attempted once, in order, whatever earlier attempts did; the counter is the number of successes |
| `Dispatcher.Summary` | app/api/send-emails/route.js:64 | the summary message with the success count and the total (its partner is `SummaryDeterminesCounts`) |
| `Dispatcher.SummaryDeterminesCounts` | app/api/send-emails/route.js:64 | two equal summary messages report the same counts |
| `Dispatcher.Post` | app/api/send-emails/route.js:12-75 | an early exit returns its error and sends nothing; otherwise every recipient is attempted and the reply is `current` = successes, `total` = recipients, so `current <= total` |
| `Dispatcher.MixedBatch` | app/api/send-emails/route.js:45-61 | with sends to A and C succeeding and B failing, C is still attempted and the count is 2 of 3 |

## Findings

| source | as written | input that shows it | evidently intended | confidence | as-written member | corrected member |
|---|---|---|---|---|---|---|
| app/api/send-emails/route.js:31 | `templateText.replace("{{message}}", message)` treats `$$`, `$&`, `` $` `` and `$'` in the message as replacement patterns | template `{{message}}`, message `$&`: the body is `{{message}}`, not `$&` | the message is inserted literally | high (ECMAScript GetSubstitution); not executed | `Dispatcher.DollarAmpersandKeepsPlaceholder` | `Dispatcher.ResolveHtml` |

The as-written behaviour is `Dispatcher.ResolveHtmlAsWritten`, and `Prepare` and `Post` use it, as the
code does. `Dispatcher.AsWrittenAgreesWithoutDollar` proves it equals the corrected `ResolveHtml` for
every message without `$`, and `Prepare`'s contract carries that equality into every batch.

## Left out

- One might expect every `{{message}}` to be replaced. The code replaces only the first, and the
  model follows the code.
- The `required` attributes on the recipient, subject and message fields (app/page.js:189, 259, 280):
  the browser refuses to submit the form while one of them is empty, so `handleSubmit` never runs
  then. `Composer.HomePage.StartSubmit` and `Composer.HomePage.HandleSubmit` are modelled for any
  field text, including the empty field the browser never submits.
- JSX rendering, theme toggling, template preview, `handleAttachmentChange`, `handleTemplateChange`
  and file-name display: these are UI state with no logic to verify.
- The progress percentage `Math.round((current/total)*100)`: floating point and cosmetic.
- `fetch`, `FormData`, `JSON.stringify` and `response.json()` on the page: `StartSubmit` returns
  the list it would post. The server's answer is the `Reply` parameter. A network error, a non-OK
  status or an unreadable body all become `Failed`.
- `request.formData()` and `JSON.parse`: the parsed form is the `Form` value. The `emails` value is
  classified as the handler tests it (`Falsy`, `Truthy`, `Array`), and array items are taken to be
  strings, as the page always sends. A missing `subject` or `message` (JavaScript `null`) is not
  modelled.
- nodemailer, the Gmail transporter and the `EMAIL_USER`/`EMAIL_PASSWORD` configuration: the
  transport is the `transport` oracle, and the sender address is a parameter of `Post`.
- `Buffer.from(await file.arrayBuffer())`: file bytes are given as `Option<seq<bv8>>`. `None`
  marks a read that throws.
- `async`/`await` and `Promise.all`: the handler is sequential, and so is the model.
  `Promise.all` rejecting on any failed read is `Materialize` returning `None`.
- The `status: 200` field inside the success body and the HTTP status codes of
  `NextResponse.json` are carried only as `Completed` or `Rejected(status, error)`.
- `console.error` logging.
- JavaScript strings are UTF-16 code units; the model's strings are sequences of Unicode scalar
  values, so lone surrogates are not represented.
- `Composer.HomePage.HandleSubmit`: the request is not linked to `Dispatcher.Post`. The reply is
  any `Reply`, so nothing ties the reported counts to the list that was posted.
- `file.text()` in `handleFileImport`: the UTF-8 decoding is not modelled. The file's text is given
  as a string, or `None` when the read fails.
