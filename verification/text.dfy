/** The optional value used where the mailer's JavaScript has `null` or a missing part. */
module Wrappers {

  datatype Option<+T> = None | Some(value: T)

  datatype Result<+R, +E> = Success(value: R) | Failure(error: E)
}

/**
  String operations the mailer uses. `trim`, `split` on a set of one-character
  separators, `join`, `filter`, and the decimal rendering of a count in a
  template literal keep their JavaScript meaning, and so does the
  whitespace class shared by `\s` and `String.prototype.trim`.
  `IndexOf` and `ReplaceFirst` are helpers of this model: `IndexOf` splits an
  address at its `@` to read the email pattern, and `ReplaceFirst` is a
  first-occurrence replacement that inserts its replacement literally, unlike
  JavaScript's `replace`, which expands `$` patterns in it.
*/
module Text {
  import opened Wrappers

  /** ECMAScript WhiteSpace and LineTerminator code points: the set matched by `\s`
      and stripped by `String.prototype.trim`. */
  predicate IsWhitespace(c: char) {
    || c == '\t' || c == '\n' || c == '\U{B}' || c == '\U{C}' || c == '\r' || c == ' '
    || c == '\U{A0}' || c == '\U{1680}' || ('\U{2000}' <= c <= '\U{200A}')
    || c == '\U{2028}' || c == '\U{2029}' || c == '\U{202F}' || c == '\U{205F}'
    || c == '\U{3000}' || c == '\U{FEFF}'
  }

  predicate AllWhitespace(s: string) {
    forall k :: 0 <= k < |s| ==> IsWhitespace(s[k])
  }

  /** Neither end of `s` is whitespace: what `trim` produces. */
  predicate Trimmed(s: string) {
    s == [] || (!IsWhitespace(s[0]) && !IsWhitespace(s[|s| - 1]))
  }

  /** No character of `s` is in `seps`. */
  predicate NoneIn(s: string, seps: set<char>) {
    forall k :: 0 <= k < |s| ==> s[k] !in seps
  }

  // ---------------------------------------------------------------- trim

  function TrimStart(s: string): string {
    if s != [] && IsWhitespace(s[0]) then TrimStart(s[1..]) else s
  }

  /** `TrimStart` drops a whitespace prefix and stops at the first other character. */
  lemma {:induction false} TrimStartFacts(s: string)
    ensures var r := TrimStart(s);
            && |r| <= |s| && r == s[|s| - |r|..]
            && AllWhitespace(s[..|s| - |r|])
            && (r == [] || !IsWhitespace(r[0]))
  {
    if s != [] && IsWhitespace(s[0]) {
      TrimStartFacts(s[1..]);
      var r := TrimStart(s[1..]);
      assert s[..|s| - |r|] == [s[0]] + s[1..][..|s| - 1 - |r|];
    }
  }

  function TrimEnd(s: string): string {
    if s != [] && IsWhitespace(s[|s| - 1]) then TrimEnd(s[..|s| - 1]) else s
  }

  /** `TrimEnd` drops a whitespace suffix and stops at the last other character. */
  lemma {:induction false} TrimEndFacts(s: string)
    ensures var r := TrimEnd(s);
            && |r| <= |s| && r == s[..|r|]
            && AllWhitespace(s[|r|..])
            && (r == [] || !IsWhitespace(r[|r| - 1]))
  {
    if s != [] && IsWhitespace(s[|s| - 1]) {
      TrimEndFacts(s[..|s| - 1]);
      var r := TrimEnd(s[..|s| - 1]);
      assert s[|r|..] == s[..|s| - 1][|r|..] + [s[|s| - 1]];
    }
  }

  /** `String.prototype.trim`. */
  function Trim(s: string): (r: string)
    ensures Trimmed(r)
    ensures |r| <= |s|
  {
    TrimStartFacts(s);
    TrimEndFacts(TrimStart(s));
    TrimEnd(TrimStart(s))
  }

  /** What trim removes is whitespace, and what it keeps is one stretch of the
      input, starting where the leading whitespace ends. */
  lemma TrimDecomposes(s: string)
    ensures |TrimStart(s)| <= |s|
    ensures var r, i := Trim(s), |s| - |TrimStart(s)|;
            && i + |r| <= |s| && r == s[i..i + |r|]
            && AllWhitespace(s[..i]) && AllWhitespace(s[i + |r|..])
  {
    var t := TrimStart(s);
    var r := TrimEnd(t);
    var i := |s| - |t|;
    TrimStartFacts(s);
    TrimEndFacts(t);
    assert r == s[i..i + |r|];
    assert s[i + |r|..] == t[|r|..];
  }

  lemma {:induction false} TrimStartPadded(p: string, x: string)
    requires AllWhitespace(p)
    ensures TrimStart(p + x) == TrimStart(x)
  {
    if p != [] {
      assert (p + x)[1..] == p[1..] + x;
      TrimStartPadded(p[1..], x);
    } else {
      assert p + x == x;
    }
  }

  lemma {:induction false} TrimEndPadded(x: string, q: string)
    requires AllWhitespace(q)
    ensures TrimEnd(x + q) == TrimEnd(x)
  {
    if q != [] {
      assert (x + q)[..|x + q| - 1] == x + q[..|q| - 1];
      TrimEndPadded(x, q[..|q| - 1]);
    } else {
      assert x + q == x;
    }
  }

  /** Trimming removes exactly the surrounding whitespace and nothing else:
      a trimmed string padded with whitespace on both sides is given back. */
  lemma TrimUnique(p: string, t: string, q: string)
    requires AllWhitespace(p) && AllWhitespace(q) && Trimmed(t)
    ensures Trim(p + t + q) == t
  {
    var x := t + q;
    assert p + t + q == p + x;
    TrimStartPadded(p, x);
    if t == [] {
      assert x == q + [];
      TrimStartPadded(q, []);
      assert TrimStart(x) == [];
    } else {
      assert TrimStart(x) == x;
      TrimEndPadded(t, q);
    }
  }

  /** A leading whitespace character never survives `trim`. */
  lemma TrimLeadingWhitespace(c: char, s: string)
    requires IsWhitespace(c)
    ensures Trim([c] + s) == Trim(s)
  {
    assert ([c] + s)[1..] == s;
  }

  // ---------------------------------------------------------------- split and join

  /** The number of characters of `s` that are in `seps`. */
  function CountIn(s: string, seps: set<char>): nat {
    if s == [] then 0 else (if s[0] in seps then 1 else 0) + CountIn(s[1..], seps)
  }

  /** `s.split(sep)` where the separator is any one character of `seps`:
      the pieces between separators, empty pieces kept, and never an empty list. */
  function Split(s: string, seps: set<char>): (r: seq<string>)
    ensures |r| == CountIn(s, seps) + 1
  {
    if s == [] then [[]]
    else
      var rest := Split(s[1..], seps);
      if s[0] in seps then [[]] + rest else [[s[0]] + rest[0]] + rest[1..]
  }

  /** No piece of a split contains a separator. */
  lemma {:induction false} SplitPieces(s: string, seps: set<char>)
    ensures forall k :: 0 <= k < |Split(s, seps)| ==> NoneIn(Split(s, seps)[k], seps)
  {
    if s != [] {
      SplitPieces(s[1..], seps);
    }
  }

  /** `parts.join(sep)`: the parts in order with `sep` between neighbours, so the
      result opens with the first part. */
  function Join(parts: seq<string>, sep: string): (r: string)
    ensures parts != [] ==> |parts[0]| <= |r| && r[..|parts[0]|] == parts[0]
  {
    if |parts| == 0 then []
    else if |parts| == 1 then parts[0]
    else parts[0] + sep + Join(parts[1..], sep)
  }

  /** A string without separators is split into itself alone. */
  lemma {:induction false} SplitNoSeparator(s: string, seps: set<char>)
    requires NoneIn(s, seps)
    ensures Split(s, seps) == [s]
  {
    if s != [] {
      SplitNoSeparator(s[1..], seps);
      assert [s[0]] + s[1..] == s;
    }
  }

  /** Splitting distributes over a separator: the pieces of `a + [c] + b`
      are the pieces of `a` followed by the pieces of `b`, in order. */
  lemma {:induction false} SplitAtSeparator(a: string, c: char, b: string, seps: set<char>)
    requires c in seps
    ensures Split(a + [c] + b, seps) == Split(a, seps) + Split(b, seps)
  {
    var s := a + [c] + b;
    if a == [] {
      assert s[1..] == b;
    } else {
      assert s[1..] == a[1..] + [c] + b;
      SplitAtSeparator(a[1..], c, b, seps);
    }
  }

  /** Round trip: joining the pieces of `s` with their separator gives `s` back. */
  lemma {:induction false} JoinSplit(s: string, c: char)
    ensures Join(Split(s, {c}), [c]) == s
  {
    if s != [] {
      var rest := Split(s[1..], {c});
      JoinSplit(s[1..], c);
      if s[0] == c {
        assert Split(s, {c}) == [[]] + rest;
        assert ([[]] + rest)[1..] == rest;
      } else {
        var parts := [[s[0]] + rest[0]] + rest[1..];
        assert Split(s, {c}) == parts;
        if |rest| == 1 {
          assert Join(rest, [c]) == rest[0];
        } else {
          assert parts[1..] == rest[1..];
          assert Join(rest, [c]) == rest[0] + [c] + Join(rest[1..], [c]);
        }
      }
    }
  }

  /** Round trip: separator-free parts joined with their separator split back into themselves. */
  lemma {:induction false} SplitJoin(parts: seq<string>, c: char)
    requires parts != []
    requires forall k :: 0 <= k < |parts| ==> NoneIn(parts[k], {c})
    ensures Split(Join(parts, [c]), {c}) == parts
  {
    if |parts| == 1 {
      SplitNoSeparator(parts[0], {c});
    } else {
      SplitJoin(parts[1..], c);
      SplitAtSeparator(parts[0], c, Join(parts[1..], [c]), {c});
      SplitNoSeparator(parts[0], {c});
      assert parts == [parts[0]] + parts[1..];
    }
  }

  // ---------------------------------------------------------------- search

  /** The first position of `c` in `s`, or `None` when `c` does not occur. */
  function IndexOf(s: string, c: char): (r: Option<nat>)
    ensures r.None? ==> c !in s
    ensures r.Some? ==> r.value < |s| && s[r.value] == c && c !in s[..r.value]
  {
    if s == [] then None
    else if s[0] == c then Some(0)
    else match IndexOf(s[1..], c)
      case None => None
      case Some(i) =>
        assert s[..i + 1] == [s[0]] + s[1..][..i];
        Some(i + 1)
  }

  predicate OccursAt(s: string, pat: string, i: int) {
    0 <= i && i + |pat| <= |s| && s[i..i + |pat|] == pat
  }

  /** `i` is the leftmost place where `pat` occurs in `s`. */
  predicate FirstOccurrence(s: string, pat: string, i: int) {
    OccursAt(s, pat, i) && forall j :: 0 <= j < i ==> !OccursAt(s, pat, j)
  }

  /** `s.indexOf(pat, from)` for a string pattern. */
  function Find(s: string, pat: string, from: nat): (r: Option<nat>)
    requires from <= |s|
    ensures r.Some? ==> from <= r.value && OccursAt(s, pat, r.value)
    ensures forall j :: from <= j && (r.None? || j < r.value) ==> !OccursAt(s, pat, j)
    decreases |s| - from
  {
    if from + |pat| > |s| then None
    else if s[from..from + |pat|] == pat then Some(from)
    else Find(s, pat, from + 1)
  }

  /** Replacement of the leftmost occurrence only, inserting `rep` literally (no `$`
      patterns are expanded, unlike `String.prototype.replace`). */
  function ReplaceFirst(s: string, pat: string, rep: string): (r: string)
    ensures (forall i :: !OccursAt(s, pat, i)) ==> r == s
    ensures forall i :: FirstOccurrence(s, pat, i) ==> r == s[..i] + rep + s[i + |pat|..]
  {
    match Find(s, pat, 0)
    case None => s
    case Some(i) => s[..i] + rep + s[i + |pat|..]
  }

  /** In a pattern written twice, only the first copy is replaced. */
  lemma ReplaceFirstDoubled(pat: string, rep: string)
    ensures ReplaceFirst(pat + pat, pat, rep) == rep + pat
  {
    var t := pat + pat;
    assert t[..|pat|] == pat;
    assert FirstOccurrence(t, pat, 0);
    assert t[|pat|..] == pat;
    assert t[..0] + rep + t[|pat|..] == rep + pat;
  }

  // ---------------------------------------------------------------- filter

  /** `xs.filter(p)`. */
  function Filter<T>(p: T -> bool, xs: seq<T>): (r: seq<T>)
    ensures |r| <= |xs|
    ensures forall k :: 0 <= k < |r| ==> r[k] in xs && p(r[k])
    ensures forall k :: 0 <= k < |xs| && p(xs[k]) ==> xs[k] in r
  {
    if xs == [] then []
    else
      var rest := Filter(p, xs[1..]);
      assert forall k :: 1 <= k < |xs| ==> xs[k] == xs[1..][k - 1];
      if p(xs[0]) then [xs[0]] + rest else rest
  }

  /** A non-empty filter result has a witness in the input. */
  lemma FilterWitness<T>(p: T -> bool, xs: seq<T>)
    ensures Filter(p, xs) != [] ==> exists k :: 0 <= k < |xs| && p(xs[k])
  {
    var r := Filter(p, xs);
    if r != [] {
      assert r[0] in xs;
      var k :| 0 <= k < |xs| && xs[k] == r[0];
      assert p(xs[k]);
    }
  }

  /** Filtering keeps order: it distributes over concatenation. */
  lemma {:induction false} FilterConcat<T>(p: T -> bool, a: seq<T>, b: seq<T>)
    ensures Filter(p, a + b) == Filter(p, a) + Filter(p, b)
  {
    if a != [] {
      assert (a + b)[1..] == a[1..] + b;
      FilterConcat(p, a[1..], b);
    } else {
      assert a + b == b;
    }
  }

  // ---------------------------------------------------------------- numbers

  function DigitChar(d: nat): (c: char)
    requires d < 10
    ensures '0' <= c <= '9'
  {
    ['0', '1', '2', '3', '4', '5', '6', '7', '8', '9'][d]
  }

  function DigitValue(c: char): nat {
    if '0' <= c <= '9' then (c as int - '0' as int) as nat else 0
  }

  /** The number a string of decimal digits denotes. */
  function DecimalValue(s: string): nat {
    if s == [] then 0 else DecimalValue(s[..|s| - 1]) * 10 + DigitValue(s[|s| - 1])
  }

  /** How `${n}` renders a count: its shortest decimal digits. (JavaScript switches to
      exponent form from 1e21 on; a count is bounded by an array length, far below that.) */
  function Decimal(n: nat): (r: string)
    ensures r != [] && forall k :: 0 <= k < |r| ==> '0' <= r[k] <= '9'
    ensures |r| > 1 ==> r[0] != '0'
  {
    if n < 10 then [DigitChar(n)] else Decimal(n / 10) + [DigitChar(n % 10)]
  }

  /** Reading the rendered digits back gives the number. */
  lemma {:induction false} DecimalRoundTrip(n: nat)
    ensures DecimalValue(Decimal(n)) == n
  {
    var r := Decimal(n);
    if n < 10 {
      assert r[..0] == [];
    } else {
      DecimalRoundTrip(n / 10);
      assert r[..|r| - 1] == Decimal(n / 10);
    }
  }

  /** In digits followed by text that opens with a non-digit, the first non-digit is where the text starts. */
  lemma FirstNonDigit(a: string, x: string)
    requires forall k :: 0 <= k < |a| ==> '0' <= a[k] <= '9'
    requires x != [] && !('0' <= x[0] <= '9')
    ensures forall k :: 0 <= k < |a| ==> '0' <= (a + x)[k] <= '9'
    ensures !('0' <= (a + x)[|a|] <= '9')
  {
  }

  /** A rendered count followed by text that does not start with a digit can be read
      back: the digits and the text after them are both determined. */
  lemma DecimalPrefix(m: nat, x: string, n: nat, y: string)
    requires x != [] && !('0' <= x[0] <= '9')
    requires y != [] && !('0' <= y[0] <= '9')
    requires Decimal(m) + x == Decimal(n) + y
    ensures m == n && x == y
  {
    var a, b := Decimal(m), Decimal(n);
    FirstNonDigit(a, x);
    FirstNonDigit(b, y);
    assert |a| == |b|;
    assert a == (a + x)[..|a|] == (b + y)[..|b|] == b;
    DecimalRoundTrip(m);
    DecimalRoundTrip(n);
    assert x == (a + x)[|a|..] == (b + y)[|b|..] == y;
  }

  /** A proof step for resource use: it models nothing. */
  lemma Regroup(a: string, b: string, c: string, d: string)
    ensures a + b + c + d == a + (b + (c + d))
  {
  }

  /** A proof step for resource use: it models nothing. */
  lemma RegroupHead(h: string, a: string, b: string, c: string, d: string)
    ensures h + a + b + c + d == h + (a + (b + (c + d)))
  {
  }

  /** A proof step for resource use: it models nothing. */
  lemma DropPrefix(h: string, x: string, y: string)
    requires h + x == h + y
    ensures x == y
  {
    assert x == (h + x)[|h|..];
  }

  /** Two counts rendered between fixed texts, neither of which starts with a digit,
      can be read back: a message of that shape determines both counts. */
  lemma ReadCounts(mid: string, tail: string, c: nat, t: nat, c': nat, t': nat)
    requires mid != [] && !('0' <= mid[0] <= '9')
    requires tail != [] && !('0' <= tail[0] <= '9')
    requires Decimal(c) + (mid + (Decimal(t) + tail)) == Decimal(c') + (mid + (Decimal(t') + tail))
    ensures c == c' && t == t'
  {
    var x, y := mid + (Decimal(t) + tail), mid + (Decimal(t') + tail);
    assert x[0] == mid[0] && y[0] == mid[0];
    DecimalPrefix(c, x, c', y);
    assert x[|mid|..] == Decimal(t) + tail;
    assert y[|mid|..] == Decimal(t') + tail;
    DecimalPrefix(t, tail, t', tail);
  }
}
