/**
  The composer page (app/page.js): the recipient text handling it does
  before anything leaves the browser, and the page state that its import
  and submit handlers update.

  - `ValidateEmail` is the page's email syntax check;
  - `ImportTokens` / `ImportRecipients` normalise an imported list file;
  - `SubmitList` / `InvalidEmails` split and vet the recipient text at submit time;
  - class `HomePage` holds the React state that the handlers set.
*/
module Composer {
  import opened Wrappers
  import opened Text

  // ---------------------------------------------------------------- email syntax

  /** A character of the class `[^\s@]`. */
  predicate Plain(c: char) {
    !IsWhitespace(c) && c != '@'
  }

  predicate AllPlain(s: string) {
    forall k :: 0 <= k < |s| ==> Plain(s[k])
  }

  /** The pattern `^[^\s@]+@[^\s@]+\.[^\s@]+$` read literally: three non-empty runs
      of `[^\s@]`, the first two separated by `@` and the last two by `.`. */
  ghost predicate MatchesEmailPattern(s: string) {
    exists i, j :: 0 < i && i + 1 < j && j + 1 < |s| && s[i] == '@' && s[j] == '.'
                   && AllPlain(s[..i]) && AllPlain(s[i + 1..j]) && AllPlain(s[j + 1..])
  }

  /** The domain has a `.` that is neither its first nor its last character. */
  predicate HasInnerDot(domain: string) {
    |domain| >= 3 && '.' in domain[1..|domain| - 1]
  }

  /** `validateEmail`: exactly one `@`, a non-empty local part before it, and no
      whitespace anywhere; after the `@`, a dot with at least one character on each side. */
  predicate ValidateEmail(s: string) {
    match IndexOf(s, '@')
    case None => false
    case Some(i) => 0 < i && AllPlain(s[..i]) && AllPlain(s[i + 1..]) && HasInnerDot(s[i + 1..])
  }

  /** The shortest address the check accepts has five characters, as in `a@b.c`. */
  lemma ValidateEmailShortest(s: string)
    requires ValidateEmail(s)
    ensures '@' in s && 5 <= |s|
  {
    var i := IndexOf(s, '@').value;
    assert |s[i + 1..]| >= 3;
  }

  /** Every string the hand-written check accepts matches the regular expression. */
  lemma ValidateEmailSound(s: string)
    requires ValidateEmail(s)
    ensures MatchesEmailPattern(s)
  {
    var i := IndexOf(s, '@').value;
    var d := s[i + 1..];
    var inner := d[1..|d| - 1];
    assert '.' in inner;
    var m :| 0 <= m < |inner| && inner[m] == '.';
    var j := i + 2 + m;
    assert s[j] == '.';
    assert s[i + 1..j] == d[..m + 1];
    assert s[j + 1..] == d[m + 2..];
    assert AllPlain(s[i + 1..j]) && AllPlain(s[j + 1..]);
  }

  /** Every string the regular expression matches passes the hand-written check. */
  lemma ValidateEmailComplete(s: string)
    requires MatchesEmailPattern(s)
    ensures ValidateEmail(s)
  {
    var i, j :| 0 < i && i + 1 < j && j + 1 < |s| && s[i] == '@' && s[j] == '.'
                && AllPlain(s[..i]) && AllPlain(s[i + 1..j]) && AllPlain(s[j + 1..]);
    FirstAt(s, i);
    DomainPlain(s, i, j);
    var d := s[i + 1..];
    assert d[1..|d| - 1][j - i - 2] == '.';
    assert HasInnerDot(d);
  }

  /** The `@` after a run of plain characters is the first one. */
  lemma FirstAt(s: string, i: nat)
    requires i < |s| && s[i] == '@' && AllPlain(s[..i])
    ensures IndexOf(s, '@') == Some(i)
  {
    assert '@' !in s[..i] by {
      forall k | 0 <= k < i ensures s[..i][k] != '@' {
        assert Plain(s[..i][k]);
      }
    }
  }

  /** Two plain runs around a `.` make a plain domain. */
  lemma DomainPlain(s: string, i: nat, j: nat)
    requires i < j < |s| && s[j] == '.' && AllPlain(s[i + 1..j]) && AllPlain(s[j + 1..])
    ensures AllPlain(s[i + 1..])
  {
    var d := s[i + 1..];
    forall k | 0 <= k < |d| ensures Plain(d[k]) {
      if k < j - i - 1 {
        assert d[k] == s[i + 1..j][k];
      } else if k > j - i - 1 {
        assert d[k] == s[j + 1..][k - (j - i)];
      } else {
        assert d[k] == '.';
      }
    }
  }

  /** The hand-written check accepts exactly the strings the regular expression matches. */
  lemma ValidateEmailMatchesPattern(s: string)
    ensures ValidateEmail(s) <==> MatchesEmailPattern(s)
  {
    if ValidateEmail(s) {
      ValidateEmailSound(s);
    }
    if MatchesEmailPattern(s) {
      ValidateEmailComplete(s);
    }
  }

  /** The empty entry that a trailing comma leaves behind is never a valid address. */
  lemma EmptyIsInvalid()
    ensures !ValidateEmail("")
  {
  }

  // ---------------------------------------------------------------- list import

  const ImportSeparators: set<char> := {'\n', ','}

  function TrimAll(xs: seq<string>): (r: seq<string>)
    ensures |r| == |xs|
    ensures forall k :: 0 <= k < |r| ==> r[k] == Trim(xs[k])
  {
    seq(|xs|, k requires 0 <= k < |xs| => Trim(xs[k]))
  }

  /** The token list `handleFileImport` builds from a file's text: split on newline
      or comma, trim each token, drop the empty ones. */
  function ImportTokens(text: string): (tokens: seq<string>)
    ensures forall k :: 0 <= k < |tokens| ==>
              tokens[k] != [] && Trimmed(tokens[k]) && NoneIn(tokens[k], ImportSeparators)
  {
    var pieces := Split(text, ImportSeparators);
    SplitPieces(text, ImportSeparators);
    var trimmed := TrimAll(pieces);
    assert forall k :: 0 <= k < |trimmed| ==> NoneIn(trimmed[k], ImportSeparators) by {
      forall k | 0 <= k < |trimmed| ensures NoneIn(trimmed[k], ImportSeparators) {
        TrimInfix(pieces[k], ImportSeparators);
      }
    }
    Filter(t => t != [], trimmed)
  }

  /** Trimming only removes characters, so it adds no separator. */
  lemma TrimInfix(s: string, seps: set<char>)
    requires NoneIn(s, seps)
    ensures NoneIn(Trim(s), seps)
  {
    var r, i := Trim(s), |s| - |TrimStart(s)|;
    TrimDecomposes(s);
    forall k | 0 <= k < |r| ensures r[k] !in seps {
      assert r[k] == s[i + k];
    }
  }

  /** The text `handleFileImport` puts into the recipient field: empty exactly when the
      file held no token, and otherwise with one comma between each pair of tokens. */
  function ImportRecipients(text: string): (field: string)
    ensures field == [] <==> ImportTokens(text) == []
    ensures ImportTokens(text) != [] ==> CountIn(field, {','}) + 1 == |ImportTokens(text)|
  {
    var tokens := ImportTokens(text);
    if tokens == [] then Join(tokens, ", ")
    else
      SubmitListOfJoin(tokens);
      Join(tokens, ", ")
  }

  /** The import keeps the tokens in file order: a separator splits the file into
      two parts whose tokens follow one another. */
  lemma ImportTokensAtSeparator(a: string, c: char, b: string)
    requires c in ImportSeparators
    ensures ImportTokens(a + [c] + b) == ImportTokens(a) + ImportTokens(b)
  {
    var pa, pb := Split(a, ImportSeparators), Split(b, ImportSeparators);
    SplitAtSeparator(a, c, b, ImportSeparators);
    assert TrimAll(pa + pb) == TrimAll(pa) + TrimAll(pb);
    FilterConcat(t => t != [], TrimAll(pa), TrimAll(pb));
  }

  /** A stretch of the file without separators yields its trimmed text, or nothing when that is empty. */
  lemma ImportTokensOfPiece(a: string)
    requires NoneIn(a, ImportSeparators)
    ensures ImportTokens(a) == if Trim(a) == [] then [] else [Trim(a)]
  {
    SplitNoSeparator(a, ImportSeparators);
    assert TrimAll([a]) == [Trim(a)];
  }

  // ---------------------------------------------------------------- submit-time split

  /** `emails.split(",").map(trim)` in `handleSubmit`: empty entries are kept. */
  function SubmitList(emails: string): (entries: seq<string>)
    ensures |entries| == CountIn(emails, {','}) + 1
    ensures forall k :: 0 <= k < |entries| ==> Trimmed(entries[k]) && ',' !in entries[k]
  {
    var pieces := Split(emails, {','});
    SplitPieces(emails, {','});
    assert forall k :: 0 <= k < |pieces| ==> NoneIn(Trim(pieces[k]), {','}) by {
      forall k | 0 <= k < |pieces| ensures NoneIn(Trim(pieces[k]), {','}) {
        TrimInfix(pieces[k], {','});
      }
    }
    TrimAll(pieces)
  }

  /** The entries that fail `validateEmail`, in the order they were typed. */
  function InvalidEmails(entries: seq<string>): (invalid: seq<string>)
    ensures |invalid| <= |entries|
    ensures forall k :: 0 <= k < |invalid| ==> invalid[k] in entries && !ValidateEmail(invalid[k])
    ensures forall k :: 0 <= k < |entries| && !ValidateEmail(entries[k]) ==> entries[k] in invalid
    ensures invalid == [] <==> forall k :: 0 <= k < |entries| ==> ValidateEmail(entries[k])
  {
    var invalid := Filter(e => !ValidateEmail(e), entries);
    FilterWitness(e => !ValidateEmail(e), entries);
    invalid
  }

  /** A single entry is reported once when it fails the check and not at all otherwise;
      with `InvalidEmailsInOrder` this fixes the report of every list. */
  lemma InvalidEmailsOfOne(e: string)
    ensures InvalidEmails([e]) == if ValidateEmail(e) then [] else [e]
  {
  }

  /** The invalid entries of a list typed in two parts are those of the first part, then those of the second. */
  lemma InvalidEmailsInOrder(a: seq<string>, b: seq<string>)
    ensures InvalidEmails(a + b) == InvalidEmails(a) + InvalidEmails(b)
  {
    FilterConcat(e => !ValidateEmail(e), a, b);
  }

  /** A trailing comma leaves an empty last entry, which blocks the submission. */
  lemma TrailingCommaBlocksSubmit(emails: string)
    requires emails != [] && emails[|emails| - 1] == ','
    ensures var entries := SubmitList(emails);
            entries[|entries| - 1] == [] && InvalidEmails(entries) != []
  {
    var n := |emails|;
    assert emails == emails[..n - 1] + [','] + [];
    SplitAtSeparator(emails[..n - 1], ',', [], {','});
    var entries := SubmitList(emails);
    assert Trim([]) == [];
    EmptyIsInvalid();
    assert !ValidateEmail(entries[|entries| - 1]);
  }

  /** Splitting and trimming the text an import produced gives back the imported tokens,
      whenever the file held at least one token. */
  lemma ImportThenSubmitRoundTrip(text: string)
    requires ImportTokens(text) != []
    ensures SubmitList(ImportRecipients(text)) == ImportTokens(text)
  {
    SubmitListOfJoin(ImportTokens(text));
  }

  /** A file without any token leaves the field empty. That field would split into one
      empty entry that fails validation; the field's `required` attribute stops the form
      before `handleSubmit` runs. */
  lemma ImportNothingSubmitsEmpty(text: string)
    requires ImportTokens(text) == []
    ensures SubmitList(ImportRecipients(text)) == [""]
    ensures InvalidEmails(SubmitList(ImportRecipients(text))) == [""]
  {
    assert Trim([]) == [];
    EmptyIsInvalid();
  }

  lemma {:induction false} SubmitListOfJoin(tokens: seq<string>)
    requires tokens != []
    requires forall k :: 0 <= k < |tokens| ==> Trimmed(tokens[k]) && NoneIn(tokens[k], {','})
    ensures SubmitList(Join(tokens, ", ")) == tokens
  {
    var t := tokens[0];
    SplitNoSeparator(t, {','});
    TrimUnique([], t, []);
    assert [] + t + [] == t;
    if |tokens| > 1 {
      var rest := Join(tokens[1..], ", ");
      SubmitListOfJoin(tokens[1..]);
      assert Join(tokens, ", ") == t + [','] + ([' '] + rest);
      SubmitListAtComma(t, [' '] + rest);
      SubmitListLeadingSpace(rest);
      assert tokens == [t] + tokens[1..];
    }
  }

  /** Text without a comma is a single entry: its trim. */
  lemma SubmitListOfPiece(a: string)
    requires NoneIn(a, {','})
    ensures SubmitList(a) == [Trim(a)]
  {
    SplitNoSeparator(a, {','});
  }

  /** The entry before the first comma, then the entries of the rest. */
  lemma SubmitListAtComma(a: string, b: string)
    requires NoneIn(a, {','})
    ensures SubmitList(a + [','] + b) == [Trim(a)] + SubmitList(b)
  {
    SplitNoSeparator(a, {','});
    SplitAtSeparator(a, ',', b, {','});
    var pb := Split(b, {','});
    assert Split(a + [','] + b, {','}) == [a] + pb;
    TrimAllCons(a, pb);
  }

  lemma TrimAllCons(x: string, xs: seq<string>)
    ensures TrimAll([x] + xs) == [Trim(x)] + TrimAll(xs)
  {
    var l, r := TrimAll([x] + xs), [Trim(x)] + TrimAll(xs);
    forall k | 0 <= k < |l| ensures l[k] == r[k] {
      if k > 0 {
        assert ([x] + xs)[k] == xs[k - 1];
      }
    }
  }

  /** The space `join(", ")` puts after each comma disappears in the trim. */
  lemma SubmitListLeadingSpace(s: string)
    ensures SubmitList([' '] + s) == SubmitList(s)
  {
    var p0 := Split(s, {','});
    var p1 := Split([' '] + s, {','});
    assert ([' '] + s)[1..] == s;
    assert p1 == [[' '] + p0[0]] + p0[1..];
    TrimLeadingWhitespace(' ', p0[0]);
    TrimAllSameTail(p0, p1);
  }

  lemma TrimAllSameTail(p0: seq<string>, p1: seq<string>)
    requires |p0| == |p1| && |p0| > 0
    requires Trim(p0[0]) == Trim(p1[0]) && p0[1..] == p1[1..]
    ensures TrimAll(p0) == TrimAll(p1)
  {
    var t0, t1 := TrimAll(p0), TrimAll(p1);
    forall k | 0 <= k < |t0| ensures t0[k] == t1[k] {
      if k > 0 {
        assert p1[k] == p1[1..][k - 1] == p0[k];
      }
    }
  }

  /** A file of addresses separated by a newline, a comma and a trailing blank line
      becomes one comma-separated line of those addresses. */
  lemma ImportNormalisesLines(a: string, b: string, c: string)
    requires a != [] && Trimmed(a) && NoneIn(a, ImportSeparators)
    requires b != [] && Trimmed(b) && NoneIn(b, ImportSeparators)
    requires c != [] && Trimmed(c) && NoneIn(c, ImportSeparators)
    ensures ImportRecipients(a + "\n" + b + "," + c + "\n\n") == a + ", " + b + ", " + c
  {
    LinesText(a, b, c);
    ImportTokensOfLines(a, b, c);
    JoinThree(a, b, c, ", ");
  }

  /** A proof step for resource use: it models nothing. */
  lemma LinesText(a: string, b: string, c: string)
    ensures a + "\n" + b + "," + c + "\n\n" == a + ['\n'] + (b + [','] + (c + ['\n'] + ([] + ['\n'] + [])))
  {
  }

  lemma ImportTokensOfLines(a: string, b: string, c: string)
    requires a != [] && Trimmed(a) && NoneIn(a, ImportSeparators)
    requires b != [] && Trimmed(b) && NoneIn(b, ImportSeparators)
    requires c != [] && Trimmed(c) && NoneIn(c, ImportSeparators)
    ensures ImportTokens(a + ['\n'] + (b + [','] + (c + ['\n'] + ([] + ['\n'] + []))))
            == [a, b, c]
  {
    var tail := [] + ['\n'] + [];
    var rest2 := c + ['\n'] + tail;
    var rest1 := b + [','] + rest2;
    ImportTokensOfPiece([]);
    ImportTokensAtSeparator([], '\n', []);
    assert ImportTokens(tail) == [];
    ImportTokensCons(c, '\n', tail);
    assert ImportTokens(rest2) == [c];
    ImportTokensCons(b, ',', rest2);
    assert ImportTokens(rest1) == [b, c];
    ImportTokensCons(a, '\n', rest1);
  }

  /** A token followed by a separator comes first in the import, ahead of the rest. */
  lemma ImportTokensCons(a: string, c: char, rest: string)
    requires a != [] && Trimmed(a) && NoneIn(a, ImportSeparators) && c in ImportSeparators
    ensures ImportTokens(a + [c] + rest) == [a] + ImportTokens(rest)
  {
    ImportTokensOfPiece(a);
    TrimUnique([], a, []);
    assert [] + a + [] == a;
    ImportTokensAtSeparator(a, c, rest);
  }

  lemma JoinThree(a: string, b: string, c: string, sep: string)
    ensures Join([a, b, c], sep) == a + sep + b + sep + c
  {
    assert [b, c][1..] == [c];
    assert Join([b, c], sep) == b + sep + c;
    assert [a, b, c][1..] == [b, c];
    assert Join([a, b, c], sep) == a + sep + (b + sep + c);
  }

  /** The import of the file "a@x.com", newline, "b@y.com,c@z.com", two newlines. */
  lemma ImportExample()
    ensures ImportRecipients("a@x.com\nb@y.com,c@z.com\n\n") == "a@x.com, b@y.com, c@z.com"
  {
    var a, b, c := "a@x.com", "b@y.com", "c@z.com";
    ExampleAddressShape(a);
    ExampleAddressShape(b);
    ExampleAddressShape(c);
    ImportNormalisesLines(a, b, c);
    ImportExampleText();
  }

  /** A proof step for resource use: it models nothing. */
  lemma ImportExampleText()
    ensures "a@x.com" + "\n" + "b@y.com" + "," + "c@z.com" + "\n\n" == "a@x.com\nb@y.com,c@z.com\n\n"
    ensures "a@x.com" + ", " + "b@y.com" + ", " + "c@z.com" == "a@x.com, b@y.com, c@z.com"
  {
  }

  /** A seven-character address of the form `?@?.com` with plain letters. */
  lemma ExampleAddressShape(s: string)
    requires |s| == 7 && 'a' <= s[0] <= 'z' && s[1] == '@' && 'a' <= s[2] <= 'z' && s[3..] == ".com"
    ensures s != [] && Trimmed(s) && NoneIn(s, ImportSeparators) && NoneIn(s, {','})
  {
    assert forall k :: 3 <= k < 7 ==> s[k] == ".com"[k - 3];
  }

  /** In a list typed as `a, n, b` where only `n` fails the check, `n` alone is reported. */
  lemma SubmitReportsInvalidOnly(a: string, n: string, b: string)
    requires Trimmed(a) && NoneIn(a, {','}) && ValidateEmail(a)
    requires Trimmed(n) && NoneIn(n, {','}) && !ValidateEmail(n)
    requires Trimmed(b) && NoneIn(b, {','}) && ValidateEmail(b)
    ensures InvalidEmails(SubmitList(a + ", " + n + ", " + b)) == [n]
  {
    JoinThree(a, n, b, ", ");
    SubmitListOfJoin([a, n, b]);
    InvalidEmailsInOrder([a], [n, b]);
    InvalidEmailsInOrder([n], [b]);
    assert [a] + [n, b] == [a, n, b] && [n] + [b] == [n, b];
  }

  lemma ValidExampleAddresses()
    ensures ValidateEmail("a@x.com") && ValidateEmail("b@y.com")
  {
    assert "a@x.com"[3..] == ".com" && "b@y.com"[3..] == ".com";
    ValidExampleAddress("a@x.com");
    ValidExampleAddress("b@y.com");
  }

  /** Every seven-character address of the form `?@?.com` with plain letters passes the check. */
  lemma ValidExampleAddress(s: string)
    requires |s| == 7 && 'a' <= s[0] <= 'z' && s[1] == '@' && 'a' <= s[2] <= 'z' && s[3..] == ".com"
    ensures ValidateEmail(s)
  {
    assert forall k :: 3 <= k < 7 ==> s[k] == ".com"[k - 3];
    FirstAt(s, 1);
    var d := s[2..];
    forall k | 0 <= k < |d| ensures Plain(d[k]) {
      assert d[k] == s[k + 2];
    }
    assert d[1] == s[3] == '.';
    assert d[1..|d| - 1][0] == d[1];
  }

  /** The submission "a@x.com, not-an-email, b@y.com" is blocked, naming "not-an-email" alone. */
  lemma SubmitExample()
    ensures InvalidEmails(SubmitList("a@x.com, not-an-email, b@y.com")) == ["not-an-email"]
  {
    var a, n, b := "a@x.com", "not-an-email", "b@y.com";
    ExampleAddressShape(a);
    ExampleAddressShape(b);
    ValidExampleAddresses();
    NotAnEmail();
    SubmitReportsInvalidOnly(a, n, b);
    SubmitExampleText();
  }

  lemma NotAnEmail()
    ensures Trimmed("not-an-email") && NoneIn("not-an-email", {','}) && !ValidateEmail("not-an-email")
  {
  }

  /** A proof step for resource use: it models nothing. */
  lemma SubmitExampleText()
    ensures "a@x.com" + ", " + "not-an-email" + ", " + "b@y.com" == "a@x.com, not-an-email, b@y.com"
  {
  }

  // ---------------------------------------------------------------- page state

  datatype Progress = Progress(current: int, total: int)

  /** What `fetch` and `response.json()` delivered: the counts of a completed
      batch, or any failure (network, non-OK status, unreadable body). */
  datatype Reply = Delivered(current: nat, total: nat) | Failed

  const SendingStatus: string := "Sending emails..."

  function InvalidStatus(invalid: seq<string>): string {
    "Invalid email(s): " + Join(invalid, ", ")
  }

  function SentStatus(current: nat, total: nat): string {
    Decimal(current) + " out of " + Decimal(total) + " emails sent successfully!"
  }

  /** The offenders can be read back from the status: the text after its prefix,
      split at commas and trimmed, is the list of invalid entries. */
  lemma InvalidStatusNamesOffenders(invalid: seq<string>)
    requires invalid != []
    requires forall k :: 0 <= k < |invalid| ==> Trimmed(invalid[k]) && ',' !in invalid[k]
    ensures var status, prefix := InvalidStatus(invalid), "Invalid email(s): ";
            |prefix| <= |status| && status[..|prefix|] == prefix
            && SubmitList(status[|prefix|..]) == invalid
  {
    var prefix := "Invalid email(s): ";
    assert InvalidStatus(invalid)[|prefix|..] == Join(invalid, ", ");
    SubmitListOfJoin(invalid);
  }

  /** The success status determines the counts it reports. */
  lemma SentStatusDeterminesCounts(c: nat, t: nat, c': nat, t': nat)
    requires SentStatus(c, t) == SentStatus(c', t')
    ensures c == c' && t == t'
  {
    var mid, tail := " out of ", " emails sent successfully!";
    Regroup(Decimal(c), mid, Decimal(t), tail);
    Regroup(Decimal(c'), mid, Decimal(t'), tail);
    ReadCounts(mid, tail, c, t, c', t');
  }

  const FailedStatus: string := "Failed to send emails. Please try again."

  /** The React state of the page that the import and submit handlers touch. */
  class HomePage {
    var emails: string
    var status: string
    var isSubmitting: bool
    var sendingProgress: Progress
    var importedFileName: string

    constructor ()
      ensures emails == "" && status == "" && !isSubmitting
      ensures sendingProgress == Progress(0, 0) && importedFileName == ""
    {
      emails := "";
      status := "";
      isSubmitting := false;
      sendingProgress := Progress(0, 0);
      importedFileName := "";
    }

    /** The recipient field's change handler: the raw text is stored, not checked. */
    method SetEmails(text: string)
      modifies this`emails
      ensures emails == text
    {
      emails := text;
    }

    /** `handleFileImport`: with a chosen file, its name is shown and, once its text
        has been read, the field is replaced by the normalised token list; a read that
        fails leaves the name shown and the field as it was. Without a file, nothing changes. */
    method HandleFileImport(file: Option<(string, Option<string>)>)
      modifies this`emails, this`importedFileName
      ensures file.None? ==> emails == old(emails) && importedFileName == old(importedFileName)
      ensures file.Some? ==> importedFileName == file.value.0
      ensures file.Some? && file.value.1.None? ==> emails == old(emails)
      ensures file.Some? && file.value.1.Some? ==> emails == ImportRecipients(file.value.1.value)
    {
      if file.Some? {
        var (name, text) := file.value;
        importedFileName := name;
        if text.Some? {
          emails := ImportRecipients(text.value);
        }
      }
    }

    /** `handleSubmit` up to the request: the typed list is split and vetted; invalid
        entries end the submission with a status naming them, and otherwise the page
        shows it is sending, with progress 0 out of the number of entries, and the
        entries are the list it posts. */
    method StartSubmit() returns (posted: Option<seq<string>>)
      modifies this`status, this`isSubmitting, this`sendingProgress
      ensures var entries := SubmitList(emails);
              var invalid := InvalidEmails(entries);
              && (invalid != [] ==>
                    posted.None? && status == InvalidStatus(invalid) && !isSubmitting
                    && sendingProgress == old(sendingProgress))
              && (invalid == [] ==>
                    posted == Some(entries) && status == SendingStatus && isSubmitting
                    && sendingProgress == Progress(0, |entries|))
    {
      isSubmitting := true;
      var entries := SubmitList(emails);
      var invalid := InvalidEmails(entries);
      if invalid != [] {
        status := InvalidStatus(invalid);
        isSubmitting := false;
        return None;
      }
      status := SendingStatus;
      sendingProgress := Progress(0, |entries|);
      posted := Some(entries);
    }

    /** `handleSubmit` once the request has settled: the reported counts and the success
        status, or the failure status with the progress left where it was. */
    method FinishSubmit(reply: Reply)
      modifies this`status, this`isSubmitting, this`sendingProgress
      ensures !isSubmitting
      ensures reply.Delivered? ==>
                sendingProgress == Progress(reply.current, reply.total)
                && status == SentStatus(reply.current, reply.total)
      ensures reply.Failed? ==> sendingProgress == old(sendingProgress) && status == FailedStatus
    {
      match reply
      case Delivered(current, total) =>
        sendingProgress := Progress(current, total);
        status := SentStatus(current, total);
        isSubmitting := false;
      case Failed =>
        status := FailedStatus;
        isSubmitting := false;
    }

    /** `handleSubmit` from start to finish: returns the recipient list it posts, or
        `None` when validation stops it before a request is built. */
    method HandleSubmit(reply: Reply) returns (posted: Option<seq<string>>)
      modifies this`status, this`isSubmitting, this`sendingProgress
      ensures !isSubmitting
      ensures var entries := SubmitList(emails);
              var invalid := InvalidEmails(entries);
              && (invalid != [] ==>
                    posted.None? && status == InvalidStatus(invalid)
                    && sendingProgress == old(sendingProgress))
              && (invalid == [] ==> posted == Some(entries))
              && (invalid == [] && reply.Delivered? ==>
                    sendingProgress == Progress(reply.current, reply.total)
                    && status == SentStatus(reply.current, reply.total))
              && (invalid == [] && reply.Failed? ==>
                    sendingProgress == Progress(0, |entries|) && status == FailedStatus)
    {
      posted := StartSubmit();
      if posted.Some? {
        FinishSubmit(reply);
      }
    }
  }
}
