/**
 The date normalizer (`_parse_date`): folds the text to lower case, rewrites
 every "coming" to "next", hands the result to a flexible date grammar, and
 answers with the canonical `YYYY-MM-DD` text or an `Error:` message.

 The grammar (dateutil, read month-first) and the clock are outside the model:
 the grammar is the parameter `parse` and the clock is the parameter `today`.
 */
module DateNormalizer {
  import opened Wrappers
  import opened Text
  import opened Dates

  const COMING: string := "coming"
  const NEXT: string := "next"

  const ERROR_TAG: string := "Error:"
  const PAST_HEAD: string := ERROR_TAG + " Cannot book in the past. The date you provided ("
  const PAST_TAIL: string := ") is a past date."
  const UNCLEAR_HEAD: string := ERROR_TAG + " Could not understand the date '"
  /** The quote closing the echoed text, then the advice. */
  const UNCLEAR_TAIL: string := "'" + UNCLEAR_ADVICE
  const UNCLEAR_ADVICE: string :=
    ". Please provide a clear date like 'tomorrow', 'next Thursday', or '2024-10-25'."

  /** The text the grammar is given: `date_text.lower().replace('coming', 'next')`. */
  function NormalizeText(text: string): string
  {
    Replace(Lower(text), COMING, NEXT)
  }

  /** The three outcomes of validating a date text. */
  datatype DateCheck =
    | Accepted(date: CalendarDate)
    | InPast(date: CalendarDate)
    | NotUnderstood(text: string)

  /** Decides the outcome from what the grammar makes of the normalized text. */
  function CheckDate(text: string, today: CalendarDate, parse: string -> Option<CalendarDate>): DateCheck
  {
    match parse(NormalizeText(text))
    case None => NotUnderstood(text)
    case Some(d) => if Before(d, today) then InPast(d) else Accepted(d)
  }

  /** The text `_parse_date` returns for each outcome. */
  function Reply(c: DateCheck): string
  {
    match c
    case Accepted(d) => Iso(d)
    case InPast(d) => PAST_HEAD + LongForm(d) + PAST_TAIL
    case NotUnderstood(t) => UNCLEAR_HEAD + t + UNCLEAR_TAIL
  }

  /**
   `_parse_date(text)` with the grammar `parse` and the clock reading `today`:
   an `Error:` message exactly when the grammar fails or the date is past; the
   past-date message shows the date, the unparsable one quotes the text, and
   any other answer decodes back to the parsed date.
   */
  function ParseDate(text: string, today: CalendarDate, parse: string -> Option<CalendarDate>): (r: string)
    ensures StartsWith(r, ERROR_TAG) <==>
      (parse(NormalizeText(text)).None? || Before(parse(NormalizeText(text)).value, today))
    ensures !StartsWith(r, ERROR_TAG) ==> ParseIso(r) == parse(NormalizeText(text))
    ensures parse(NormalizeText(text)).Some? && Before(parse(NormalizeText(text)).value, today) ==>
      Contains(r, LongForm(parse(NormalizeText(text)).value))
    ensures parse(NormalizeText(text)).None? ==> Contains(r, text)
    ensures parse(NormalizeText(text)).Some? && Before(parse(NormalizeText(text)).value, today) ==>
      StartsWith(r, PAST_HEAD + LongForm(parse(NormalizeText(text)).value))
    ensures parse(NormalizeText(text)).None? ==> StartsWith(r, UNCLEAR_HEAD + text + "'")
  {
    var c := CheckDate(text, today, parse);
    ReplyTagged(c);
    match c
    case Accepted(d) => IsoRoundTrip(d); Reply(c)
    case InPast(d) => ContainsInfix(PAST_HEAD, LongForm(d), PAST_TAIL); Reply(c)
    case NotUnderstood(t) => ContainsInfix(UNCLEAR_HEAD, t, UNCLEAR_TAIL); Reply(c)
  }

  /**
   The `startswith("Error:")` test the booking performs on the reply tells the
   accepted outcome apart from the two rejections: a canonical date starts
   with a digit.
   */
  lemma ReplyTagged(c: DateCheck)
    ensures StartsWith(Reply(c), ERROR_TAG) <==> !c.Accepted?
    ensures c.InPast? ==> StartsWith(Reply(c), PAST_HEAD + LongForm(c.date))
    ensures c.NotUnderstood? ==> StartsWith(Reply(c), UNCLEAR_HEAD + c.text + "'")
  {
    match c
    case Accepted(d) =>
      assert Reply(c)[0] == Pad4(d.year)[0];
      assert IsDigit(Reply(c)[0]);
    case InPast(d) => PastReplyShape(d);
    case NotUnderstood(t) => UnclearReplyShape(t);
  }

  /** The past-date message: the error tag, its wording, then the date in long form. */
  lemma PastReplyShape(d: CalendarDate)
    ensures StartsWith(Reply(InPast(d)), PAST_HEAD + LongForm(d))
    ensures StartsWith(Reply(InPast(d)), ERROR_TAG)
  {
    StartsWithAppend(PAST_HEAD + LongForm(d), PAST_TAIL);
    assert PAST_HEAD + LongForm(d) == ERROR_TAG + (PAST_HEAD[6..] + LongForm(d));
    StartsWithShorter(Reply(InPast(d)), ERROR_TAG, PAST_HEAD[6..] + LongForm(d));
  }

  /** The not-understood message: the error tag, its wording, then the text quoted. */
  lemma UnclearReplyShape(t: string)
    ensures StartsWith(Reply(NotUnderstood(t)), UNCLEAR_HEAD + t + "'")
    ensures StartsWith(Reply(NotUnderstood(t)), ERROR_TAG)
  {
    var quoted := UNCLEAR_HEAD + t;
    assert Reply(NotUnderstood(t)) == quoted + ("'" + UNCLEAR_ADVICE);
    assert quoted + ("'" + UNCLEAR_ADVICE) == (quoted + "'") + UNCLEAR_ADVICE;
    StartsWithAppend(UNCLEAR_HEAD + t + "'", UNCLEAR_ADVICE);
    assert UNCLEAR_HEAD + t + "'" == ERROR_TAG + (UNCLEAR_HEAD[6..] + t + "'");
    StartsWithShorter(Reply(NotUnderstood(t)), ERROR_TAG, UNCLEAR_HEAD[6..] + t + "'");
  }

  /** A canonical date is never earlier than the reference day when accepted. */
  lemma AcceptedNotBeforeToday(text: string, today: CalendarDate, parse: string -> Option<CalendarDate>)
    requires CheckDate(text, today, parse).Accepted?
    ensures !StrLess(Iso(CheckDate(text, today, parse).date), Iso(today))
    ensures ParseIso(Reply(CheckDate(text, today, parse))) == parse(NormalizeText(text))
  {
    var d := CheckDate(text, today, parse).date;
    IsoOrder(d, today);
    IsoRoundTrip(d);
  }

  /*
   The remaining lemmas are about the rewrite step. `NoNextSeam(p)` says that no
   `n` of `p` can be the `n` of an inserted "next": each `n` is followed by
   something other than `e`.
   */

  predicate NoNextSeam(p: string)
    decreases |p|
  {
    |p| == 0 ||
    ((p[0] == 'n' ==> |p| >= 2 && p[1] != 'e') && NoNextSeam(p[1..]))
  }

  function Rewrite(s: string): string
  {
    Replace(s, COMING, NEXT)
  }

  lemma RewriteStep(s: string)
    requires |s| > 0
    ensures StartsWith(s, COMING) ==> Rewrite(s) == NEXT + Rewrite(s[6..])
    ensures !StartsWith(s, COMING) ==> Rewrite(s) == [s[0]] + Rewrite(s[1..])
  {
  }

  /**
   A rewritten text begins with such a `p` only if the original began with it:
   the rewrite creates no new text that looks like `p` at the front.
   */
  lemma {:induction false} RewritePrefix(s: string, p: string)
    requires NoNextSeam(p)
    requires StartsWith(Rewrite(s), p)
    ensures StartsWith(s, p)
    decreases |s|
  {
    if |p| > 0 {
      RewriteStep(s);
      if StartsWith(s, COMING) {
        assert false;
      }
      assert Rewrite(s)[1..] == Rewrite(s[1..]);
      RewritePrefix(s[1..], p[1..]);
      assert s == [s[0]] + s[1..];
    }
  }

  /** The same, when the rewritten text is folded afterwards. */
  lemma {:induction false} LowerRewritePrefix(s: string, p: string)
    requires NoNextSeam(p)
    requires StartsWith(Lower(Rewrite(s)), p)
    ensures StartsWith(Lower(s), p)
    decreases |s|
  {
    if |p| > 0 {
      RewriteStep(s);
      if StartsWith(s, COMING) {
        assert false;
      }
      LowerAppend([s[0]], Rewrite(s[1..]));
      assert Lower(Rewrite(s))[1..] == Lower(Rewrite(s[1..]));
      LowerRewritePrefix(s[1..], p[1..]);
      LowerChars(s);
      LowerChars(Rewrite(s));
      assert Lower(s) == [LowerChar(s[0])] + Lower(s[1..]);
    }
  }

  /** After the rewrite no "coming" is left. */
  lemma {:induction false} RewriteLeavesNoComing(s: string)
    ensures !Contains(Rewrite(s), COMING)
    decreases |s|
  {
    if |s| > 0 {
      RewriteStep(s);
      if StartsWith(s, COMING) {
        RewriteLeavesNoComing(s[6..]);
        ContainsSkipsPrefix(NEXT, Rewrite(s[6..]), COMING);
      } else {
        var rest := Rewrite(s[1..]);
        RewriteLeavesNoComing(s[1..]);
        assert Rewrite(s) == [s[0]] + rest;
        assert COMING[1..] == "oming";
        StartsWithCons(s[0], rest, COMING);
        StartsWithCons(s[0], s[1..], COMING);
        assert s == [s[0]] + s[1..];
        if s[0] == 'c' && StartsWith(rest, "oming") {
          RewritePrefix(s[1..], "oming");
        }
        assert !StartsWith(Rewrite(s), COMING);
        assert Rewrite(s)[1..] == rest;
      }
    }
  }

  /** Text without "coming" is left as it is by the rewrite. */
  lemma {:induction false} RewriteIdle(s: string)
    requires !Contains(s, COMING)
    ensures Rewrite(s) == s
    decreases |s|
  {
    if |s| > 0 {
      RewriteStep(s);
      RewriteIdle(s[1..]);
      assert s == [s[0]] + s[1..];
    }
  }

  /** The rewrite keeps folded text folded: "next" is lower case. */
  lemma {:induction false} RewriteKeepsLower(s: string)
    requires IsLower(s)
    ensures IsLower(Rewrite(s))
    decreases |s|
  {
    if |s| > 0 {
      RewriteStep(s);
      if StartsWith(s, COMING) {
        RewriteKeepsLower(s[6..]);
      } else {
        RewriteKeepsLower(s[1..]);
      }
    }
  }

  /** The normalized text contains no "coming". */
  lemma NormalizedHasNoComing(text: string)
    ensures !Contains(NormalizeText(text), COMING)
  {
    RewriteLeavesNoComing(Lower(text));
  }

  /** Normalizing twice gives the same text as normalizing once. */
  lemma NormalizeIdempotent(text: string)
    ensures NormalizeText(NormalizeText(text)) == NormalizeText(text)
  {
    var n := NormalizeText(text);
    LowerIsLower(text);
    RewriteKeepsLower(Lower(text));
    LowerOfLower(n);
    RewriteLeavesNoComing(Lower(text));
    RewriteIdle(n);
  }

  /** Text that folds to "oming" holds no "c", so no "coming" can start inside it. */
  lemma FoldsToOmingHasNoC(s: string)
    requires Lower(s) == "oming"
    ensures forall i :: 0 <= i < |s| ==> s[i] != 'c'
  {
    forall i | 0 <= i < |s|
      ensures s[i] != 'c'
    {
      assert LowerChar(s[i]) == "oming"[i];
    }
  }

  /** Rewriting text that starts with "coming". */
  lemma RewriteComingFront(x: string)
    ensures Rewrite(COMING + x) == NEXT + Rewrite(x)
  {
    assert (COMING + x)[..6] == COMING;
    assert (COMING + x)[6..] == x;
  }

  /** Normalizing text whose folded form starts with "coming". */
  lemma NormalizeAtComing(s: string)
    requires StartsWith(Lower(s), COMING)
    ensures NormalizeText(s) == NEXT + NormalizeText(s[6..])
  {
    assert s == s[..6] + s[6..];
    LowerAppend(s[..6], s[6..]);
    assert Lower(s[..6]) == Lower(s)[..6];
    RewriteComingFront(Lower(s[6..]));
  }

  /**
   The rewrite passes over a capitalised "coming" (one whose folded form is
   "coming" but which is not "coming" as written): the first six characters
   stay and only the rest is rewritten.
   */
  lemma RewriteSkipsCapitalised(s: string)
    requires |s| >= 6 && Lower(s[..6]) == COMING && !StartsWith(s, COMING)
    ensures Rewrite(s) == s[..6] + Rewrite(s[6..])
  {
    LowerChars(s[..6]);
    LowerChars(s[1..6]);
    assert Lower(s[1..6]) == "oming";
    FoldsToOmingHasNoC(s[1..6]);
    ReplaceSkipsPrefix(s[1..6], s[6..], COMING, NEXT);
    assert s[1..] == s[1..6] + s[6..];
    assert s[..6] == [s[0]] + s[1..6];
    RewriteStep(s);
  }

  /**
   The same for the rewritten text: its first six characters are either the
   "next" written for "coming", or a spelling of "coming" with capitals that
   the rewrite passes over and folding turns into "coming".
   */
  lemma NormalizeRewriteAtComing(s: string)
    requires StartsWith(Lower(s), COMING)
    ensures NormalizeText(Rewrite(s)) == NEXT + NormalizeText(Rewrite(s[6..]))
  {
    assert |s| >= 6 by { assert |Lower(s)| == |s|; }
    var tail := Rewrite(s[6..]);
    LowerChars(s);
    LowerChars(s[..6]);
    assert Lower(s[..6]) == Lower(s)[..6];
    if StartsWith(s, COMING) {
      RewriteStep(s);
      LowerAppend(NEXT, tail);
      assert Lower(NEXT) == NEXT;
      ReplaceSkipsPrefix(NEXT, Lower(tail), COMING, NEXT);
    } else {
      RewriteSkipsCapitalised(s);
      LowerAppend(s[..6], tail);
      RewriteComingFront(Lower(tail));
    }
  }

  lemma {:induction false} AbsorbedAtComing(s: string)
    requires StartsWith(Lower(s), COMING)
    requires NormalizeText(Rewrite(s[6..])) == NormalizeText(s[6..])
    ensures NormalizeText(Rewrite(s)) == NormalizeText(s)
  {
    NormalizeAtComing(s);
    NormalizeRewriteAtComing(s);
  }

  /** Text that does not start with "coming" once folded does not start with it as written. */
  lemma NotComingUnfolded(s: string)
    requires !StartsWith(Lower(s), COMING)
    ensures !StartsWith(s, COMING)
  {
    if |s| >= 6 {
      assert Lower(s)[..6] == Lower(s[..6]);
    }
  }

  /**
   Folding the rewritten tail cannot complete a "coming" with a first
   character that did not start one before.
   */
  lemma FoldedSeam(s: string)
    requires |s| > 0 && !StartsWith(Lower(s), COMING)
    ensures !StartsWith([LowerChar(s[0])] + Lower(Rewrite(s[1..])), COMING)
  {
    var c := LowerChar(s[0]);
    var t := Lower(Rewrite(s[1..]));
    assert Lower(s) == [c] + Lower(s[1..]);
    StartsWithCons(c, Lower(s[1..]), COMING);
    StartsWithCons(c, t, COMING);
    assert COMING[1..] == "oming";
    if c == 'c' && StartsWith(t, "oming") {
      LowerRewritePrefix(s[1..], "oming");
    }
  }

  lemma {:induction false} AbsorbedElsewhere(s: string)
    requires |s| > 0 && !StartsWith(Lower(s), COMING)
    requires NormalizeText(Rewrite(s[1..])) == NormalizeText(s[1..])
    ensures NormalizeText(Rewrite(s)) == NormalizeText(s)
  {
    var c := LowerChar(s[0]);
    var L := Lower(s);
    var t := Lower(Rewrite(s[1..]));
    NotComingUnfolded(s);
    RewriteStep(s);
    LowerAppend([s[0]], Rewrite(s[1..]));
    assert Lower(Rewrite(s)) == [c] + t;
    FoldedSeam(s);
    RewriteStep([c] + t);
    assert ([c] + t)[1..] == t;
    assert L == [c] + Lower(s[1..]);
    RewriteStep(L);
    assert L[1..] == Lower(s[1..]);
  }

  /**
   Writing "next" for every "coming" before the call changes nothing the
   grammar sees: folding and rewriting absorb the earlier rewrite.
   */
  lemma {:induction false} RewriteAbsorbed(s: string)
    ensures NormalizeText(Rewrite(s)) == NormalizeText(s)
    decreases |s|
  {
    if |s| > 0 {
      if StartsWith(Lower(s), COMING) {
        RewriteAbsorbed(s[6..]);
        AbsorbedAtComing(s);
      } else {
        RewriteAbsorbed(s[1..]);
        AbsorbedElsewhere(s);
      }
    }
  }

  /**
   A date text and the same text with every "coming" written as "next" are
   judged alike: the same accepted or past date, or both not understood.
   */
  lemma ComingReadsAsNext(text: string, today: CalendarDate, parse: string -> Option<CalendarDate>)
    ensures CheckDate(Rewrite(text), today, parse).NotUnderstood? <==>
      CheckDate(text, today, parse).NotUnderstood?
    ensures !CheckDate(text, today, parse).NotUnderstood? ==>
      CheckDate(Rewrite(text), today, parse) == CheckDate(text, today, parse)
  {
    RewriteAbsorbed(text);
  }
}
