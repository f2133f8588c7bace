/** The transfer-subject grammar `validate_email` tests a subject against:

      [Ss]end ?\$?(\d+(\.\d{1,2})?) (eth|usdc) to (.+@.+(\..+)+)

    with an unanchored search, so a subject is accepted when any stretch of
    it spells a transfer. The first part of the module states, piece by
    piece after the pattern, when the stretch from position `i` to position
    `j` of a subject `s` is one match; the second part is a deterministic
    recognizer; the lemmas after it prove the two agree. `\d` is read as the
    ASCII digits and `.` as any character but a line feed. */
module Subject {
  import opened Wrappers
  import opened Decimal

  // ---------------------------------------------------------------------
  // The language of one match, as the stretch [i, j) of a subject s
  // ---------------------------------------------------------------------

  /** `[Ss]end ?\$?` is [i, d): the verb with only its first letter in
      either case, then an optional space and an optional dollar sign, in
      that order. */
  predicate LeadIn(s: string, i: nat, d: nat) {
    && i + 4 <= d <= i + 6 && d <= |s|
    && (s[i] == 'S' || s[i] == 's') && s[i + 1] == 'e' && s[i + 2] == 'n' && s[i + 3] == 'd'
    && (d == i + 5 ==> s[i + 4] == ' ' || s[i + 4] == '$')
    && (d == i + 6 ==> s[i + 4] == ' ' && s[i + 5] == '$')
  }

  /** [i, j) is all digits (possibly none). */
  predicate DigitsIn(s: string, i: nat, j: nat) {
    i <= j <= |s| && forall k :: i <= k < j ==> IsDigit(s[k])
  }

  /** `(\.\d{1,2})?` is [n, m): nothing, or a point and one or two digits. */
  predicate FractionIn(s: string, n: nat, m: nat) {
    n <= m <= |s| && (m == n || (n + 2 <= m <= n + 3 && s[n] == '.' && DigitsIn(s, n + 1, m)))
  }

  /** `\d+(\.\d{1,2})?` is [i, m): one or more digits, then an optional
      fraction. */
  ghost predicate AmountIn(s: string, i: nat, m: nat) {
    exists n :: i < n <= m && DigitsIn(s, i, n) && FractionIn(s, n, m)
  }

  /** Every character of [i, j) is one `.` may match: anything but a line
      feed. */
  predicate OnOneLineIn(s: string, i: nat, j: nat) {
    i <= j <= |s| && forall k :: i <= k < j ==> s[k] != '\n'
  }

  /** `(\..+)+` is [d, q): one or more groups, each a point and at least one
      character. */
  ghost predicate DotGroupsIn(s: string, d: nat, q: nat)
    decreases q - d
  {
    d + 2 <= q <= |s| && s[d] == '.' && exists k: nat :: d + 2 <= k <= q && (k == q || DotGroupsIn(s, k, q))
  }

  /** `.+@.+(\..+)+` is [i, q): some text, `@`, some text, then point
      groups, all on one line. */
  ghost predicate RecipientIn(s: string, i: nat, q: nat) {
    OnOneLineIn(s, i, q) && exists a, d :: i + 1 <= a && a + 2 <= d <= q && s[a] == '@' && DotGroupsIn(s, d, q)
  }

  /** `s` holds `w` at position `i`. */
  predicate HasAt(s: string, i: nat, w: string) {
    i + |w| <= |s| && forall k :: 0 <= k < |w| ==> s[i + k] == w[k]
  }

  /** ` (eth|usdc) to (.+@.+(\..+)+)` is [i, q): the token, lower case and
      between single spaces, then `to ` and a recipient. */
  ghost predicate TokenPhraseIn(s: string, i: nat, q: nat) {
    || (HasAt(s, i, " eth to ") && i + 8 <= q && RecipientIn(s, i + 8, q))
    || (HasAt(s, i, " usdc to ") && i + 9 <= q && RecipientIn(s, i + 9, q))
  }

  /** `(\d+(\.\d{1,2})?) (eth|usdc) to (.+@.+(\..+)+)` is [i, q): an amount,
      then a token phrase. */
  ghost predicate AmountPhraseIn(s: string, i: nat, q: nat) {
    exists m :: i < m <= q && AmountIn(s, i, m) && TokenPhraseIn(s, m, q)
  }

  /** The whole pattern is [i, q): one transfer request from end to end. */
  ghost predicate TransferIn(s: string, i: nat, q: nat) {
    exists d :: i + 4 <= d <= q && LeadIn(s, i, d) && AmountPhraseIn(s, d, q)
  }

  // ---------------------------------------------------------------------
  // The recognizer, reading `s` from position `i` on
  // ---------------------------------------------------------------------

  /** End of the run of digits that starts at `i`. */
  function DigitsEnd(s: string, i: nat): (j: nat)
    requires i <= |s|
    decreases |s| - i
    ensures DigitsIn(s, i, j)
    ensures j < |s| ==> !IsDigit(s[j])
  {
    if i == |s| || !IsDigit(s[i]) then i else DigitsEnd(s, i + 1)
  }

  /** End of the line that position `i` is on: the next line feed, or the
      end of `s`. */
  function LineEnd(s: string, i: nat): (j: nat)
    requires i <= |s|
    decreases |s| - i
    ensures OnOneLineIn(s, i, j)
    ensures j < |s| ==> s[j] == '\n'
  {
    if i == |s| || s[i] == '\n' then i else LineEnd(s, i + 1)
  }

  /** The first position in [from, to) where `s` holds `c`. */
  function IndexOf(s: string, c: char, from: nat, to: nat): (r: Option<nat>)
    requires to <= |s|
    decreases if from < to then to - from else 0
    ensures r.Some? ==> from <= r.value < to && s[r.value] == c
    ensures forall k :: from <= k < to && (r.None? || k < r.value) ==> s[k] != c
  {
    if from >= to then None
    else if s[from] == c then Some(from)
    else IndexOf(s, c, from + 1, to)
  }

  /** A recipient starts at `i`: on the rest of that line there is an `@`
      after the first character, and a `.` at least two places after that
      `@` with at least one character after the `.`. */
  predicate LeadingRecipient(s: string, i: nat)
    requires i <= |s|
  {
    var end := LineEnd(s, i);
    match IndexOf(s, '@', i + 1, end)
    case None => false
    case Some(at) =>
      match IndexOf(s, '.', at + 2, end)
      case None => false
      case Some(dot) => dot + 2 <= end
  }

  predicate LeadingTokenPhrase(s: string, i: nat)
    requires i <= |s|
  {
    || (HasAt(s, i, " eth to ") && LeadingRecipient(s, i + 8))
    || (HasAt(s, i, " usdc to ") && LeadingRecipient(s, i + 9))
  }

  /** The digit run is taken whole: the pattern needs a point or a space
      right after it, so a shorter run can never be part of a match. */
  predicate LeadingAmountPhrase(s: string, i: nat)
    requires i <= |s|
  {
    var n := DigitsEnd(s, i);
    && n > i
    && if n < |s| && s[n] == '.' then
         var m := DigitsEnd(s, n + 1);
         n + 2 <= m <= n + 3 && LeadingTokenPhrase(s, m)
       else
         LeadingTokenPhrase(s, n)
  }

  /** Position after an optional `c` at position `i`. */
  function SkipOptional(s: string, i: nat, c: char): (j: nat)
    requires i <= |s|
    ensures i <= j <= |s|
  {
    if i < |s| && s[i] == c then i + 1 else i
  }

  predicate LeadingTransfer(s: string, i: nat)
    requires i <= |s|
  {
    && i + 4 <= |s|
    && (s[i] == 'S' || s[i] == 's') && s[i + 1] == 'e' && s[i + 2] == 'n' && s[i + 3] == 'd'
    && LeadingAmountPhrase(s, SkipOptional(s, SkipOptional(s, i + 4, ' '), '$'))
  }

  /** Tries the start positions `p`, `p + 1`, ..., `n` in turn until
      `found` holds at one. */
  predicate SearchFrom(found: nat -> bool, p: nat, n: nat)
    decreases if p <= n then n - p else 0
  {
    p <= n && (found(p) || (p < n && SearchFrom(found, p + 1, n)))
  }

  /** The anchored recognizer as a test of start positions. */
  function Tries(s: string): nat -> bool {
    (p: nat) => p <= |s| && LeadingTransfer(s, p)
  }

  /** `Regex::is_match` for the transfer pattern: the anchored recognizer is
      tried at every position of `s`, and some stretch of `s` is a transfer
      request exactly when one of those tries succeeds. */
  predicate IsMatch(s: string)
    ensures IsMatch(s) <==> exists p, q {:trigger TransferIn(s, p, q)} :: 0 <= p <= q <= |s| && TransferIn(s, p, q)
  {
    SearchSpec(s);
    SearchFrom(Tries(s), 0, |s|)
  }

  // ---------------------------------------------------------------------
  // The recognizer against the language
  // ---------------------------------------------------------------------

  lemma DigitsEndUnique(s: string, i: nat, n: nat)
    requires DigitsIn(s, i, n) && (n < |s| ==> !IsDigit(s[n]))
    ensures DigitsEnd(s, i) == n
  {
  }

  /** `(\..+)+` accepts exactly a point and at least one more character: one
      group can always take the rest. */
  lemma DotGroupsShape(s: string, d: nat, q: nat)
    ensures DotGroupsIn(s, d, q) <==> d + 2 <= q <= |s| && s[d] == '.'
  {
    if d + 2 <= q <= |s| && s[d] == '.' {
      assert !DotGroupsIn(s, q, q);
    }
  }

  /** What the recipient recognizer accepts at `i` is a recipient. */
  lemma RecipientSound(s: string, i: nat) returns (q: nat)
    requires i <= |s| && LeadingRecipient(s, i)
    ensures i <= q <= |s| && RecipientIn(s, i, q)
  {
    var end := LineEnd(s, i);
    var at := IndexOf(s, '@', i + 1, end).value;
    var dot := IndexOf(s, '.', at + 2, end).value;
    q := dot + 2;
    DotGroupsShape(s, dot, q);
    assert s[at] == '@' && DotGroupsIn(s, dot, q);
  }

  /** A recipient at `i` is one the recognizer accepts. */
  lemma RecipientComplete(s: string, i: nat, q: nat)
    requires RecipientIn(s, i, q)
    ensures LeadingRecipient(s, i)
  {
    var a, d :| i + 1 <= a && a + 2 <= d <= q && s[a] == '@' && DotGroupsIn(s, d, q);
    DotGroupsShape(s, d, q);
    var end := LineEnd(s, i);
    assert q <= end;
    var at := IndexOf(s, '@', i + 1, end);
    assert at.Some? && at.value <= a;
    var dot := IndexOf(s, '.', at.value + 2, end);
    assert dot.Some? && dot.value <= d;
  }

  /** A recipient at `i` is found exactly when one exists. */
  lemma RecipientAt(s: string, i: nat)
    requires i <= |s|
    ensures LeadingRecipient(s, i) <==>
      exists q {:trigger RecipientIn(s, i, q)} :: i <= q <= |s| && RecipientIn(s, i, q)
  {
    if LeadingRecipient(s, i) {
      var q := RecipientSound(s, i);
    }
    if q :| i <= q <= |s| && RecipientIn(s, i, q) {
      RecipientComplete(s, i, q);
    }
  }

  /** What the token recognizer accepts at `i` is a token phrase. */
  lemma TokenPhraseSound(s: string, i: nat) returns (q: nat)
    requires i <= |s| && LeadingTokenPhrase(s, i)
    ensures i <= q <= |s| && TokenPhraseIn(s, i, q)
  {
    if HasAt(s, i, " eth to ") && LeadingRecipient(s, i + 8) {
      q := RecipientSound(s, i + 8);
    } else {
      q := RecipientSound(s, i + 9);
    }
  }

  /** A token phrase at `i` is one the recognizer accepts. */
  lemma TokenPhraseComplete(s: string, i: nat, q: nat)
    requires TokenPhraseIn(s, i, q)
    ensures LeadingTokenPhrase(s, i)
  {
    if HasAt(s, i, " eth to ") && i + 8 <= q && RecipientIn(s, i + 8, q) {
      RecipientComplete(s, i + 8, q);
    } else {
      RecipientComplete(s, i + 9, q);
    }
  }

  /** A token phrase at `i` is found exactly when one exists. */
  lemma TokenPhraseAt(s: string, i: nat)
    requires i <= |s|
    ensures LeadingTokenPhrase(s, i) <==>
      exists q {:trigger TokenPhraseIn(s, i, q)} :: i <= q <= |s| && TokenPhraseIn(s, i, q)
  {
    if LeadingTokenPhrase(s, i) {
      var q := TokenPhraseSound(s, i);
    }
    if q :| i <= q <= |s| && TokenPhraseIn(s, i, q) {
      TokenPhraseComplete(s, i, q);
    }
  }

  lemma TokenPhraseStartsWithSpace(s: string, i: nat, q: nat)
    requires TokenPhraseIn(s, i, q)
    ensures i < |s| && s[i] == ' '
  {
    if HasAt(s, i, " eth to ") {
      assert s[i + 0] == " eth to "[0];
    } else {
      assert s[i + 0] == " usdc to "[0];
    }
  }

  /** Where the digits and the fraction of an amount phrase end. */
  lemma AmountPhraseSplit(s: string, i: nat, q: nat) returns (n: nat, m: nat)
    requires AmountPhraseIn(s, i, q)
    ensures i < n <= m <= q && DigitsIn(s, i, n) && FractionIn(s, n, m) && TokenPhraseIn(s, m, q)
  {
    m :| i < m <= q && AmountIn(s, i, m) && TokenPhraseIn(s, m, q);
    n :| i < n <= m && DigitsIn(s, i, n) && FractionIn(s, n, m);
  }

  /** What the recognizer accepts as an amount phrase is one. */
  lemma AmountPhraseSound(s: string, i: nat) returns (q: nat)
    requires i <= |s| && LeadingAmountPhrase(s, i)
    ensures i <= q <= |s| && AmountPhraseIn(s, i, q)
  {
    var n := DigitsEnd(s, i);
    var m := if n < |s| && s[n] == '.' then DigitsEnd(s, n + 1) else n;
    assert FractionIn(s, n, m);
    assert AmountIn(s, i, m);
    q := TokenPhraseSound(s, m);
  }

  /** Digits and a fraction followed by a space are read to their end, and
      the recognizer goes on with the token phrase there. */
  lemma AmountRecognized(s: string, i: nat, n: nat, m: nat)
    requires i < n && DigitsIn(s, i, n) && FractionIn(s, n, m) && m < |s| && s[m] == ' '
    ensures LeadingAmountPhrase(s, i) == LeadingTokenPhrase(s, m)
  {
    DigitsEndUnique(s, i, n);
    if n < m {
      DigitsEndUnique(s, n + 1, m);
    }
  }

  /** An amount phrase at `i` is one the recognizer accepts. */
  lemma AmountPhraseComplete(s: string, i: nat, q: nat)
    requires AmountPhraseIn(s, i, q)
    ensures LeadingAmountPhrase(s, i)
  {
    var n, m := AmountPhraseSplit(s, i, q);
    TokenPhraseStartsWithSpace(s, m, q);
    AmountRecognized(s, i, n, m);
    TokenPhraseComplete(s, m, q);
  }

  /** An amount phrase at `i` is found exactly when one exists. */
  lemma AmountPhraseAt(s: string, i: nat)
    requires i <= |s|
    ensures LeadingAmountPhrase(s, i) <==>
      exists q {:trigger AmountPhraseIn(s, i, q)} :: i <= q <= |s| && AmountPhraseIn(s, i, q)
  {
    if LeadingAmountPhrase(s, i) {
      var q := AmountPhraseSound(s, i);
    }
    if q :| i <= q <= |s| && AmountPhraseIn(s, i, q) {
      AmountPhraseComplete(s, i, q);
    }
  }

  /** What the recognizer accepts at `i` is a transfer. */
  lemma TransferSound(s: string, i: nat) returns (q: nat)
    requires i <= |s| && LeadingTransfer(s, i)
    ensures i <= q <= |s| && TransferIn(s, i, q)
  {
    var d := SkipOptional(s, SkipOptional(s, i + 4, ' '), '$');
    q := AmountPhraseSound(s, d);
    assert LeadIn(s, i, d);
  }

  /** The recognizer reads a lead followed by a digit to its end. */
  lemma LeadRecognized(s: string, i: nat, d: nat)
    requires LeadIn(s, i, d) && d < |s| && IsDigit(s[d])
    ensures SkipOptional(s, SkipOptional(s, i + 4, ' '), '$') == d
  {
  }

  /** A transfer at `i` is one the recognizer accepts. */
  lemma TransferComplete(s: string, i: nat, q: nat)
    requires TransferIn(s, i, q)
    ensures LeadingTransfer(s, i)
  {
    var d :| i + 4 <= d <= q && LeadIn(s, i, d) && AmountPhraseIn(s, d, q);
    var n, m := AmountPhraseSplit(s, d, q);
    LeadRecognized(s, i, d);
    AmountPhraseComplete(s, d, q);
  }

  /** A transfer at `i` is found exactly when one exists. */
  lemma TransferAt(s: string, i: nat)
    requires i <= |s|
    ensures LeadingTransfer(s, i) <==>
      exists q {:trigger TransferIn(s, i, q)} :: i <= q <= |s| && TransferIn(s, i, q)
  {
    if LeadingTransfer(s, i) {
      var q := TransferSound(s, i);
    }
    if q :| i <= q <= |s| && TransferIn(s, i, q) {
      TransferComplete(s, i, q);
    }
  }

  /** The search from `p` succeeds exactly when `found` holds at some
      position from `p` to `n`. */
  lemma {:induction false} SearchFromSpec(found: nat -> bool, p: nat, n: nat)
    requires p <= n
    decreases n - p
    ensures SearchFrom(found, p, n) <==> exists p' {:trigger found(p')} :: p <= p' <= n && found(p')
  {
    if p < n {
      SearchFromSpec(found, p + 1, n);
    }
  }

  /** Searching all of `s` finds a transfer exactly when some stretch of
      `s` is one. */
  lemma SearchSpec(s: string)
    ensures SearchFrom(Tries(s), 0, |s|) <==>
      exists p, q {:trigger TransferIn(s, p, q)} :: 0 <= p <= q <= |s| && TransferIn(s, p, q)
  {
    SearchFromSpec(Tries(s), 0, |s|);
    RecognizedSomewhere(s);
    forall p | 0 <= p <= |s|
      ensures Tries(s)(p) == LeadingTransfer(s, p)
    {
    }
  }

  /** The recognizer succeeds at some position exactly when some stretch of
      `s` is a transfer. */
  lemma RecognizedSomewhere(s: string)
    ensures (exists p {:trigger LeadingTransfer(s, p)} :: 0 <= p <= |s| && LeadingTransfer(s, p)) <==>
      exists p, q {:trigger TransferIn(s, p, q)} :: 0 <= p <= q <= |s| && TransferIn(s, p, q)
  {
    if p :| 0 <= p <= |s| && LeadingTransfer(s, p) {
      var q := TransferSound(s, p);
    }
    if p, q :| 0 <= p <= q <= |s| && TransferIn(s, p, q) {
      TransferComplete(s, p, q);
    }
  }

  // ---------------------------------------------------------------------
  // What the accepted subjects look like
  // ---------------------------------------------------------------------

  /** A transfer begins with `Send` or `send`: only the first letter of the
      verb may be either case. */
  lemma TransferStartsWithVerb(s: string, p: nat, q: nat)
    requires TransferIn(s, p, q)
    ensures p + 4 <= q <= |s| && (s[p] == 'S' || s[p] == 's') && s[p + 1] == 'e' && s[p + 2] == 'n' && s[p + 3] == 'd'
  {
    var d :| p + 4 <= d <= q && LeadIn(s, p, d) && AmountPhraseIn(s, d, q);
    var n, m := AmountPhraseSplit(s, d, q);
  }

  /** The recipient is the last piece of a transfer: the match ends with a
      point and at least one character after it, and the `@` comes before. */
  lemma TransferEndsWithAddress(s: string, p: nat, q: nat)
    requires TransferIn(s, p, q)
    ensures exists a, d :: p + 4 < a && a + 2 <= d && d + 2 <= q <= |s| && s[a] == '@' && s[d] == '.'
  {
    var d0 :| p + 4 <= d0 <= q && LeadIn(s, p, d0) && AmountPhraseIn(s, d0, q);
    var n, m := AmountPhraseSplit(s, d0, q);
    var r := if HasAt(s, m, " eth to ") && m + 8 <= q && RecipientIn(s, m + 8, q) then m + 8 else m + 9;
    assert RecipientIn(s, r, q);
    var a, d :| r + 1 <= a && a + 2 <= d <= q && s[a] == '@' && DotGroupsIn(s, d, q);
  }

  lemma TokenPhraseOnOneLine(s: string, i: nat, q: nat)
    requires TokenPhraseIn(s, i, q)
    ensures OnOneLineIn(s, i, q)
  {
    if HasAt(s, i, " eth to ") && i + 8 <= q && RecipientIn(s, i + 8, q) {
      assert forall k :: i <= k < i + 8 ==> s[k] == " eth to "[k - i];
    } else {
      assert forall k :: i <= k < i + 9 ==> s[k] == " usdc to "[k - i];
    }
  }

  lemma OnOneLineJoin(s: string, i: nat, j: nat, k: nat)
    requires OnOneLineIn(s, i, j) && OnOneLineIn(s, j, k)
    ensures OnOneLineIn(s, i, k)
  {
  }

  lemma LeadOnOneLine(s: string, p: nat, d: nat)
    requires LeadIn(s, p, d)
    ensures OnOneLineIn(s, p, d)
  {
  }

  lemma AmountOnOneLine(s: string, i: nat, n: nat, m: nat)
    requires DigitsIn(s, i, n) && FractionIn(s, n, m)
    ensures OnOneLineIn(s, i, m)
  {
  }

  /** No part of a transfer crosses a line feed. */
  lemma TransferOnOneLine(s: string, p: nat, q: nat)
    requires TransferIn(s, p, q)
    ensures OnOneLineIn(s, p, q)
  {
    var d :| p + 4 <= d <= q && LeadIn(s, p, d) && AmountPhraseIn(s, d, q);
    var n, m := AmountPhraseSplit(s, d, q);
    LeadOnOneLine(s, p, d);
    AmountOnOneLine(s, d, n, m);
    TokenPhraseOnOneLine(s, m, q);
    OnOneLineJoin(s, d, m, q);
    OnOneLineJoin(s, p, d, q);
  }

  // ---------------------------------------------------------------------
  // The search is unanchored
  // ---------------------------------------------------------------------

  /** `t` holds, from position `off` on, the stretch [i, j) of `s`. */
  predicate Copied(s: string, t: string, off: nat, i: nat, j: nat) {
    i <= j <= |s| && off + j <= |t| && forall k :: i <= k < j ==> t[off + k] == s[k]
  }

  lemma RecipientCopied(s: string, t: string, off: nat, i: nat, q: nat)
    requires RecipientIn(s, i, q) && Copied(s, t, off, i, q)
    ensures RecipientIn(t, off + i, off + q)
  {
    var a, d :| i + 1 <= a && a + 2 <= d <= q && s[a] == '@' && DotGroupsIn(s, d, q);
    DotGroupsShape(s, d, q);
    DotGroupsShape(t, off + d, off + q);
    forall k | off + i <= k < off + q
      ensures t[k] != '\n'
    {
      assert t[off + (k - off)] == s[k - off];
    }
    assert t[off + a] == '@' && DotGroupsIn(t, off + d, off + q);
  }

  lemma TokenPhraseCopied(s: string, t: string, off: nat, i: nat, q: nat)
    requires TokenPhraseIn(s, i, q) && Copied(s, t, off, i, q)
    ensures TokenPhraseIn(t, off + i, off + q)
  {
    if HasAt(s, i, " eth to ") && i + 8 <= q && RecipientIn(s, i + 8, q) {
      forall k | 0 <= k < 8
        ensures t[off + i + k] == " eth to "[k]
      {
        assert t[off + (i + k)] == s[i + k];
      }
      RecipientCopied(s, t, off, i + 8, q);
    } else {
      forall k | 0 <= k < 9
        ensures t[off + i + k] == " usdc to "[k]
      {
        assert t[off + (i + k)] == s[i + k];
      }
      RecipientCopied(s, t, off, i + 9, q);
    }
  }

  /** A transfer copied into another string is a transfer there too. */
  lemma TransferCopied(s: string, t: string, off: nat, p: nat, q: nat)
    requires TransferIn(s, p, q) && Copied(s, t, off, p, q)
    ensures TransferIn(t, off + p, off + q)
  {
    var d :| p + 4 <= d <= q && LeadIn(s, p, d) && AmountPhraseIn(s, d, q);
    var n, m := AmountPhraseSplit(s, d, q);
    assert LeadIn(t, off + p, off + d);
    forall k | off + d <= k < off + m
      ensures t[k] == s[k - off]
    {
      assert t[off + (k - off)] == s[k - off];
    }
    assert DigitsIn(t, off + d, off + n) && FractionIn(t, off + n, off + m);
    assert AmountIn(t, off + d, off + m);
    TokenPhraseCopied(s, t, off, m, q);
    assert AmountPhraseIn(t, off + d, off + q);
  }

  /** Text before and after a matching subject does not prevent the match. */
  lemma MatchInContext(pre: string, s: string, post: string)
    requires IsMatch(s)
    ensures IsMatch(pre + s + post)
  {
    var p, q :| 0 <= p <= q <= |s| && TransferIn(s, p, q);
    var t := pre + s + post;
    assert Copied(s, t, |pre|, p, q);
    TransferCopied(s, t, |pre|, p, q);
  }

  /** A transfer request anywhere in the subject makes it match. */
  lemma TransferInContext(pre: string, w: string, post: string)
    requires TransferIn(w, 0, |w|)
    ensures IsMatch(pre + w + post)
  {
    var t := pre + w + post;
    assert Copied(w, t, |pre|, 0, |w|);
    TransferCopied(w, t, |pre|, 0, |w|);
  }

  /** Every match contains the `n` of its verb, so a subject without that
      letter never matches. */
  lemma NoMatchWithoutVerb(s: string)
    requires 'n' !in s
    ensures !IsMatch(s)
  {
    if p: nat, q: nat :| p <= q <= |s| && TransferIn(s, p, q) {
      TransferStartsWithVerb(s, p, q);
    }
  }

  /** When the only `n` of the subject sits at `v + 2`, the subject matches
      exactly when a transfer is recognized at `v`. */
  lemma MatchOnlyAtVerb(s: string, v: nat)
    requires v <= |s|
    requires forall k :: 0 <= k < |s| && s[k] == 'n' ==> k == v + 2
    ensures IsMatch(s) <==> LeadingTransfer(s, v)
  {
    if IsMatch(s) {
      var p, q :| 0 <= p <= q <= |s| && TransferIn(s, p, q);
      TransferComplete(s, p, q);
    }
    if LeadingTransfer(s, v) {
      var q := TransferSound(s, v);
    }
  }

  // ---------------------------------------------------------------------
  // Subjects accepted and rejected
  // ---------------------------------------------------------------------

  /** `5`, `5.5` and `5.50` are amounts. */
  lemma AmountExamples(a: string, b: string, c: string)
    requires a == "5" && b == "5.5" && c == "5.50"
    ensures AmountIn(a, 0, 1) && AmountIn(b, 0, 3) && AmountIn(c, 0, 4)
  {
    assert DigitsIn(a, 0, 1) && FractionIn(a, 1, 1);
    assert DigitsIn(b, 0, 1) && FractionIn(b, 1, 3);
    assert DigitsIn(c, 0, 1) && FractionIn(c, 1, 4);
  }

  /** A transfer whose pieces are given by position: the lead [p, d), the
      digits [d, n), the fraction [n, m), the token phrase up to the
      recipient [r, q), whose `@` is at `a` and whose last point is at `dot`. */
  lemma TransferAtPositions(s: string, p: nat, d: nat, n: nat, m: nat, r: nat, a: nat, dot: nat, q: nat)
    requires LeadIn(s, p, d) && d < n && DigitsIn(s, d, n) && FractionIn(s, n, m)
    requires (r == m + 8 && HasAt(s, m, " eth to ")) || (r == m + 9 && HasAt(s, m, " usdc to "))
    requires r + 1 <= a && a + 2 <= dot && dot + 2 <= q <= |s| && s[a] == '@' && s[dot] == '.' && OnOneLineIn(s, r, q)
    ensures TransferIn(s, p, q)
  {
    DotGroupsShape(s, dot, q);
    assert RecipientIn(s, r, q);
    assert TokenPhraseIn(s, m, q);
    assert AmountIn(s, d, m);
    assert AmountPhraseIn(s, d, q);
  }

  /** A request with text around it: the match is [7, 28). */
  lemma SurroundedTransfer(s: string)
    requires s == "Please send 5 eth to a@b.com thanks"
    ensures TransferIn(s, 7, 28)
  {
    SurroundedHead(s);
    SurroundedTail(s);
    TransferAtPositions(s, 7, 12, 13, 13, 21, 22, 24, 28);
  }

  lemma SurroundedHead(s: string)
    requires s == "Please send 5 eth to a@b.com thanks"
    ensures LeadIn(s, 7, 12) && DigitsIn(s, 12, 13) && FractionIn(s, 13, 13)
  {
  }

  lemma SurroundedTail(s: string)
    requires s == "Please send 5 eth to a@b.com thanks"
    ensures HasAt(s, 13, " eth to ") && s[22] == '@' && s[24] == '.' && OnOneLineIn(s, 21, 28)
  {
  }

  /** A request with a space, a dollar sign, a fraction and the other token. */
  lemma DollarTransfer(s: string)
    requires s == "Send $5.50 usdc to a@b.com"
    ensures TransferIn(s, 0, 26)
  {
    DollarHead(s);
    DollarTail(s);
    TransferAtPositions(s, 0, 6, 7, 10, 19, 20, 22, 26);
  }

  lemma DollarHead(s: string)
    requires s == "Send $5.50 usdc to a@b.com"
    ensures LeadIn(s, 0, 6) && DigitsIn(s, 6, 7) && FractionIn(s, 7, 10)
  {
  }

  lemma DollarTail(s: string)
    requires s == "Send $5.50 usdc to a@b.com"
    ensures HasAt(s, 10, " usdc to ") && s[20] == '@' && s[22] == '.' && OnOneLineIn(s, 19, 26)
  {
  }

  /** Subjects the pattern finds, one with surrounding text. */
  lemma AcceptedExamples()
    ensures IsMatch("Please send 5 eth to a@b.com thanks")
    ensures IsMatch("Send $5.50 usdc to a@b.com")
  {
    SurroundedTransfer("Please send 5 eth to a@b.com thanks");
    DollarTransfer("Send $5.50 usdc to a@b.com");
  }

  /** Three digits after the point are not an amount. */
  lemma LongFractionRejected(s: string)
    requires s == "send 5.555 eth to a@b.com"
    ensures !LeadingTransfer(s, 0)
  {
    assert SkipOptional(s, SkipOptional(s, 4, ' '), '$') == 5;
    DigitsEndUnique(s, 5, 6);
    DigitsEndUnique(s, 7, 10);
  }

  /** The token is lower case only. */
  lemma UpperTokenRejected(s: string)
    requires s == "send 5 ETH to a@b.com"
    ensures !LeadingTransfer(s, 0)
  {
    assert SkipOptional(s, SkipOptional(s, 4, ' '), '$') == 5;
    DigitsEndUnique(s, 5, 6);
    assert s[6 + 1] != " eth to "[1] && s[6 + 1] != " usdc to "[1];
  }

  /** Only the first letter of the verb may be upper case. */
  lemma UpperVerbRejected()
    ensures !IsMatch("SEND 5 eth to a@b.com")
  {
    NoMatchWithoutVerb("SEND 5 eth to a@b.com");
  }

  /** A subject with no transfer in it is not found. */
  lemma PlainTextRejected()
    ensures !IsMatch("hello world")
  {
    NoMatchWithoutVerb("hello world");
  }

  lemma LongFractionNotFound()
    ensures !IsMatch("send 5.555 eth to a@b.com")
  {
    MatchOnlyAtVerb("send 5.555 eth to a@b.com", 0);
    LongFractionRejected("send 5.555 eth to a@b.com");
  }

  lemma UpperTokenNotFound()
    ensures !IsMatch("send 5 ETH to a@b.com")
  {
    MatchOnlyAtVerb("send 5 ETH to a@b.com", 0);
    UpperTokenRejected("send 5 ETH to a@b.com");
  }
}
