/**
 * The card parser `parseCardTextToFields` (server.js:35-78; its in-page copy
 * `parseCardTextLocal` at server.js:154-191 is the same code and is modelled once).
 */
module Card {
  import opened Text
  import opened Entities

  /** The alternatives of the relative-time pattern, in the pattern's order. */
  const TimeWords: seq<string> := ["week", "day", "hour", "minute", "month", "yesterday", "today", "new"]

  /** `w` occurs at `i` as a whole word (between `\b`s), ASCII case ignored. */
  predicate WordAt(l: string, i: nat, w: string) {
    && i + |w| <= |l|
    && Lower(l[i..i + |w|]) == w
    && (i == 0 || !IsWordChar(l[i - 1]))
    && (i + |w| == |l| || !IsWordChar(l[i + |w|]))
  }

  /** `/\b(week|day|hour|minute|month|yesterday|today|new)\b/i.test(l)`. */
  predicate IsTimeLine(l: string) {
    exists i, k | 0 <= i < |l| && 0 <= k < |TimeWords| :: WordAt(l, i, TimeWords[k])
  }

  /**
   * The company loop's metadata test: a label anywhere in the line, case-sensitively,
   * "easy apply" anywhere, case ignored, or a relative-time word.
   */
  predicate IsMetaLine(l: string) {
    || Contains(l, "Place of work:")
    || Contains(l, "Workload:")
    || Contains(l, "Contract type:")
    || Contains(Lower(l), "easy apply")
    || IsTimeLine(l)
  }

  /** The card's lines: split on '\n', each trimmed, blank ones dropped. */
  function CardLines(cardText: string): (lines: seq<string>)
    ensures forall k :: 0 <= k < |lines| ==> lines[k] != [] && Trimmed(lines[k])
  {
    NonBlank(Split(cardText, '\n'))
  }

  /**
   * The card's lines are its newline-free pieces, in order, each trimmed and the blank
   * ones dropped: every non-blank trimmed piece is a line and every line is such a piece.
   */
  lemma CardLinesSpec(pieces: seq<string>)
    requires pieces != [] && forall k :: 0 <= k < |pieces| ==> '\n' !in pieces[k]
    ensures CardLines(Join(pieces, "\n")) == NonBlank(pieces)
    ensures forall k :: 0 <= k < |pieces| && Trim(pieces[k]) != [] ==>
      Trim(pieces[k]) in CardLines(Join(pieces, "\n"))
    ensures forall x :: x in CardLines(Join(pieces, "\n")) ==>
      exists k :: 0 <= k < |pieces| && x == Trim(pieces[k])
  {
    SplitJoin(pieces, '\n');
    NonBlankMembers(pieces);
  }

  datatype CardFields = CardFields(
    title: string,
    company: string,
    location: string,
    workload: string,
    contractType: string,
    postedText: string)

  /** The first line from index `i` on that is not a metadata line, or "". */
  function FirstNonMeta(lines: seq<string>, i: nat): string
    decreases |lines| - i
  {
    if i >= |lines| then ""
    else if !IsMetaLine(lines[i]) then lines[i]
    else FirstNonMeta(lines, i + 1)
  }

  /**
   * `findAfter(prefix)`: the first line whose lower-case form starts with the lower-case prefix,
   * with `^prefix\s*` removed case-insensitively and the rest trimmed; "" when there is none.
   */
  function FindAfter(lines: seq<string>, prefix: string): string
    decreases |lines|
  {
    if lines == [] then ""
    else if StartsWithIgnoreCase(lines[0], prefix) then Trim(lines[0][|prefix|..])
    else FindAfter(lines[1..], prefix)
  }

  /** The last of the first `n` lines that has a relative-time word, or "". */
  function LastTimeLine(lines: seq<string>, n: nat): string
    requires n <= |lines|
    decreases n
  {
    if n == 0 then ""
    else if IsTimeLine(lines[n - 1]) then lines[n - 1]
    else LastTimeLine(lines, n - 1)
  }

  /** What `parseCardTextToFields` returns for a card's text. */
  function CardFieldsOf(cardText: string): CardFields {
    var lines := CardLines(cardText);
    CardFields(
      if |lines| > 0 then lines[0] else "",
      FirstNonMeta(lines, 1),
      FindAfter(lines, "Place of work:"),
      FindAfter(lines, "Workload:"),
      FindAfter(lines, "Contract type:"),
      LastTimeLine(lines, |lines|))
  }

  /**
   * `parseCardTextToFields`: the company loop runs forward from the second line and stops at
   * the first non-metadata line; the posted-date loop runs backward and stops at the first
   * (that is, the last) relative-time line.
   */
  method ParseCardText(cardText: string) returns (f: CardFields)
    ensures f == CardFieldsOf(cardText)
  {
    var lines := CardLines(cardText);
    var title := if |lines| > 0 then lines[0] else "";
    var company := FirstCompanyLine(lines);
    var location := FindAfter(lines, "Place of work:");
    var workload := FindAfter(lines, "Workload:");
    var contractType := FindAfter(lines, "Contract type:");
    var postedText := LastPostedLine(lines);
    f := CardFields(title, company, location, workload, contractType, postedText);
  }

  /** The company loop: forward from the second line, stopping at the first non-metadata line. */
  method FirstCompanyLine(lines: seq<string>) returns (company: string)
    ensures company == FirstNonMeta(lines, 1)
  {
    company := "";
    var i := 1;
    while i < |lines|
      invariant 1 <= i
      invariant FirstNonMeta(lines, i) == FirstNonMeta(lines, 1)
      invariant company == ""
    {
      if !IsMetaLine(lines[i]) {
        company := lines[i];
        return;
      }
      i := i + 1;
    }
  }

  /** The posted-date loop: backward from the last line, stopping at the first time line it meets. */
  method LastPostedLine(lines: seq<string>) returns (postedText: string)
    ensures postedText == LastTimeLine(lines, |lines|)
  {
    postedText := "";
    var j := |lines|;
    while j > 0
      invariant 0 <= j <= |lines|
      invariant LastTimeLine(lines, j) == LastTimeLine(lines, |lines|)
      invariant postedText == ""
    {
      if IsTimeLine(lines[j - 1]) {
        postedText := lines[j - 1];
        return;
      }
      j := j - 1;
    }
  }

  /**
   * The company is the first line at index 1 or later that is not a metadata line, and it is
   * "" exactly when every such line is a metadata line.
   */
  lemma {:induction false} FirstNonMetaSpec(lines: seq<string>, i: nat)
    requires forall k :: 0 <= k < |lines| ==> lines[k] != []
    ensures var r := FirstNonMeta(lines, i);
      && (r == "" <==> forall j :: i <= j < |lines| ==> IsMetaLine(lines[j]))
      && (r != "" ==> exists k :: i <= k < |lines| && r == lines[k] && !IsMetaLine(lines[k])
                                  && forall j :: i <= j < k ==> IsMetaLine(lines[j]))
    decreases |lines| - i
  {
    if i < |lines| && IsMetaLine(lines[i]) {
      FirstNonMetaSpec(lines, i + 1);
      var r := FirstNonMeta(lines, i);
      if r != "" {
        var k :| i + 1 <= k < |lines| && r == lines[k] && !IsMetaLine(lines[k])
                 && forall j :: i + 1 <= j < k ==> IsMetaLine(lines[j]);
        assert forall j :: i <= j < k ==> IsMetaLine(lines[j]);
      }
    }
  }

  /**
   * A prefix field comes from the first line that starts with the prefix, case ignored, and
   * is "" when no line does.
   */
  lemma {:induction false} FindAfterSpec(lines: seq<string>, prefix: string)
    ensures (forall k :: 0 <= k < |lines| ==> !StartsWithIgnoreCase(lines[k], prefix))
            ==> FindAfter(lines, prefix) == ""
    ensures forall k :: 0 <= k < |lines| && StartsWithIgnoreCase(lines[k], prefix)
                        && (forall j :: 0 <= j < k ==> !StartsWithIgnoreCase(lines[j], prefix))
                        ==> FindAfter(lines, prefix) == Trim(lines[k][|prefix|..])
  {
    forall k | 0 <= k < |lines| && StartsWithIgnoreCase(lines[k], prefix)
               && (forall j :: 0 <= j < k ==> !StartsWithIgnoreCase(lines[j], prefix))
      ensures FindAfter(lines, prefix) == Trim(lines[k][|prefix|..])
    {
      FindAfterFirst(lines, prefix, k);
    }
    FindAfterAbsent(lines, prefix);
  }

  lemma {:induction false} FindAfterAbsent(lines: seq<string>, prefix: string)
    ensures (forall k :: 0 <= k < |lines| ==> !StartsWithIgnoreCase(lines[k], prefix))
            ==> FindAfter(lines, prefix) == ""
  {
    if forall k :: 0 <= k < |lines| ==> !StartsWithIgnoreCase(lines[k], prefix) {
      FindAfterNone(lines, prefix);
    }
  }

  lemma {:induction false} FindAfterNone(lines: seq<string>, prefix: string)
    requires forall k :: 0 <= k < |lines| ==> !StartsWithIgnoreCase(lines[k], prefix)
    ensures FindAfter(lines, prefix) == ""
    decreases |lines|
  {
    if lines != [] {
      var rest := lines[1..];
      forall k | 0 <= k < |rest| ensures !StartsWithIgnoreCase(rest[k], prefix) {
        assert rest[k] == lines[k + 1];
      }
      FindAfterNone(rest, prefix);
    }
  }

  lemma {:induction false} FindAfterFirst(lines: seq<string>, prefix: string, k: nat)
    requires k < |lines| && StartsWithIgnoreCase(lines[k], prefix)
    requires forall j :: 0 <= j < k ==> !StartsWithIgnoreCase(lines[j], prefix)
    ensures FindAfter(lines, prefix) == Trim(lines[k][|prefix|..])
    decreases k
  {
    if k > 0 {
      assert !StartsWithIgnoreCase(lines[0], prefix);
      var rest := lines[1..];
      assert rest[k - 1] == lines[k];
      forall j | 0 <= j < k - 1 ensures !StartsWithIgnoreCase(rest[j], prefix) {
        assert rest[j] == lines[j + 1];
      }
      FindAfterFirst(rest, prefix, k - 1);
    }
  }

  /**
   * The posted date is the last line with a relative-time word: it is "" exactly when no line
   * has one, and otherwise it is that line itself.
   */
  lemma {:induction false} LastTimeLineSpec(lines: seq<string>, n: nat)
    requires n <= |lines|
    requires forall k :: 0 <= k < |lines| ==> lines[k] != []
    ensures var r := LastTimeLine(lines, n);
      && (r == "" <==> forall j :: 0 <= j < n ==> !IsTimeLine(lines[j]))
      && (r != "" ==> exists k :: 0 <= k < n && r == lines[k] && IsTimeLine(lines[k])
                                  && forall j :: k < j < n ==> !IsTimeLine(lines[j]))
  {
    LastTimeLineNone(lines, n);
    LastTimeLineFound(lines, n);
  }

  lemma {:induction false} LastTimeLineNone(lines: seq<string>, n: nat)
    requires n <= |lines|
    requires forall k :: 0 <= k < |lines| ==> lines[k] != []
    ensures LastTimeLine(lines, n) == "" <==> forall j :: 0 <= j < n ==> !IsTimeLine(lines[j])
    decreases n
  {
    if n > 0 {
      if IsTimeLine(lines[n - 1]) {
        assert lines[n - 1] != [];
      } else {
        LastTimeLineNone(lines, n - 1);
      }
    }
  }

  lemma {:induction false} LastTimeLineFound(lines: seq<string>, n: nat)
    requires n <= |lines|
    ensures var r := LastTimeLine(lines, n);
      r != "" ==> exists k :: 0 <= k < n && r == lines[k] && IsTimeLine(lines[k])
                              && forall j :: k < j < n ==> !IsTimeLine(lines[j])
    decreases n
  {
    if n > 0 {
      var r := LastTimeLine(lines, n);
      if IsTimeLine(lines[n - 1]) {
        assert r == lines[n - 1];
      } else {
        LastTimeLineFound(lines, n - 1);
        if r != "" {
          var k :| 0 <= k < n - 1 && r == lines[k] && IsTimeLine(lines[k])
                   && forall j :: k < j < n - 1 ==> !IsTimeLine(lines[j]);
          forall j | k < j < n ensures !IsTimeLine(lines[j]) {
            if j < n - 1 {
            }
          }
        }
      }
    }
  }

  /** Text without a line break is at most one card line: itself, trimmed. */
  lemma SingleLineCard(cardText: string)
    requires '\n' !in cardText
    ensures CardLines(cardText) == if Trim(cardText) == [] then [] else [Trim(cardText)]
  {
    assert Split(cardText, '\n') == [cardText];
    assert Split(cardText, '\n')[1..] == [];
  }

  /**
   * The listing pass feeds `stripHtml` output to the parser. That output has no line break,
   * so the parser sees one line at most: the title is the whole text and the company is
   * always "".
   */
  lemma StrippedCardHasNoCompany(innerHtml: string)
    ensures var f := CardFieldsOf(StripHtml(innerHtml));
      f.company == "" && f.title == StripHtml(innerHtml)
  {
    var text := StripHtml(innerHtml);
    StripHtmlShape(innerHtml);
    SingleLineCard(text);
    assert Trim(text) == text;
  }

  /** A whole-word match starts with the word's first letter. */
  lemma WordAtFirstChar(l: string, i: nat, w: string)
    requires w != [] && i < |l|
    ensures WordAt(l, i, w) ==> LowerChar(l[i]) == w[0]
  {
    if WordAt(l, i, w) {
      assert Lower(l[i..i + |w|])[0] == LowerChar(l[i]);
    }
  }

  /**
   * The time pattern is whole-word, so a plural such as "days" is not a time word:
   * "3 days ago" is not recognised as a posted date.
   */
  lemma PluralNotRecognised()
    ensures !IsTimeLine("3 days ago")
    ensures LastTimeLine(["3 days ago"], 1) == ""
  {
    var l := "3 days ago";
    forall i, k | 0 <= i < |l| && 0 <= k < |TimeWords| ensures !WordAt(l, i, TimeWords[k]) {
      WordAtFirstChar(l, i, TimeWords[k]);
    }
  }
}
