/**
 * The normaliser: HTML entity decoding and tag stripping (server.js `decodeEntities`
 * and `stripHtml`, and their in-page copies `decodeEntitiesLocal` and `stripHtmlLocal`).
 */
module Entities {
  import opened Text

  /** Number of decimal digits `\d` at the front of `s`. */
  function LeadingDigits(s: string): (n: nat)
    ensures n <= |s|
    ensures forall i :: 0 <= i < n ==> IsDigit(s[i])
    ensures n < |s| ==> !IsDigit(s[n])
    decreases |s|
  {
    if s != [] && IsDigit(s[0]) then 1 + LeadingDigits(s[1..]) else 0
  }

  /** `parseInt(ds, 10)` of a string of decimal digits, as an exact integer. */
  function DecimalValue(ds: string): nat
    decreases |ds|
  {
    if ds == [] then 0
    else
      var d := ds[|ds| - 1];
      DecimalValue(ds[..|ds| - 1]) * 10 + (if IsDigit(d) then d as int - '0' as int else 0)
  }

  /**
   * `String.fromCharCode(n)`: the code unit `n` modulo 2^16. A lone surrogate code unit is
   * not a character here and becomes U+FFFD.
   */
  function FromCharCode(n: nat): (c: char)
    ensures (n % 0x1_0000 < 0xD800 || 0xE000 <= n % 0x1_0000) ==> c as int == n % 0x1_0000
  {
    var u := n % 0x1_0000;
    if 0xD800 <= u < 0xE000 then '\U{FFFD}' else u as char
  }

  /** `replace(/&#(\d+);/g, (_, n) => String.fromCharCode(parseInt(n, 10)))`. */
  function DecodeNumeric(s: string): string
    decreases |s|
  {
    if s == [] then []
    else if "&#" <= s then
      var n := LeadingDigits(s[2..]);
      if 0 < n && 2 + n < |s| && s[2 + n] == ';' then
        [FromCharCode(DecimalValue(s[2..2 + n]))] + DecodeNumeric(s[3 + n..])
      else [s[0]] + DecodeNumeric(s[1..])
    else [s[0]] + DecodeNumeric(s[1..])
  }

  /** `decodeEntities`: the fixed chain of replacements, applied one after the other. */
  function DecodeEntities(text: string): string {
    if text == [] then []
    else
      var t1 := ReplaceAll(text, "&nbsp;", " ");
      var t2 := ReplaceAll(t1, "&amp;", "&");
      var t3 := ReplaceAll(t2, "&lt;", "<");
      var t4 := ReplaceAll(t3, "&gt;", ">");
      var t5 := ReplaceAll(t4, "&quot;", "\"");
      var t6 := ReplaceAll(t5, "&#039;", "'");
      var t7 := ReplaceAll(t6, "&#x27;", "'");
      DecodeNumeric(t7)
  }

  /**
   * `replace(/<[^>]*>/g, ' ')`: a `<` that has a `>` somewhere after it starts a tag that runs
   * to the first such `>`; the tag becomes one space. A `<` with no later `>` is kept.
   */
  function StripTags(s: string): string
    decreases |s|
  {
    if s == [] then []
    else if s[0] == '<' && '>' in s[1..] then
      [' '] + StripTags(s[IndexOf(s[1..], '>') + 2..])
    else [s[0]] + StripTags(s[1..])
  }

  /** `stripHtml`: tags out, entities decoded, whitespace runs collapsed, ends trimmed. */
  function StripHtml(html: string): string {
    Trim(Collapse(DecodeEntities(StripTags(html))))
  }

  /** The in-page fallback `stripHtmlLocal` (server.js:239-241), which decodes no entities. */
  function StripTagsOnly(html: string): string {
    Trim(Collapse(StripTags(html)))
  }

  lemma {:induction false} DecodeNumericNoAmpersand(s: string)
    requires '&' !in s
    ensures DecodeNumeric(s) == s
    decreases |s|
  {
    if s != [] {
      assert !("&#" <= s) by { assert s[0] != '&'; }
      DecodeNumericNoAmpersand(s[1..]);
      assert [s[0]] + s[1..] == s;
    }
  }

  /** Decoding is the identity on text that contains no `&`, and maps "" to "". */
  lemma DecodeEntitiesNoAmpersand(text: string)
    requires '&' !in text
    ensures DecodeEntities(text) == text
  {
    if text != [] {
      ReplaceAllAbsent(text, "&nbsp;", " ");
      ReplaceAllAbsent(text, "&amp;", "&");
      ReplaceAllAbsent(text, "&lt;", "<");
      ReplaceAllAbsent(text, "&gt;", ">");
      ReplaceAllAbsent(text, "&quot;", "\"");
      ReplaceAllAbsent(text, "&#039;", "'");
      ReplaceAllAbsent(text, "&#x27;", "'");
      DecodeNumericNoAmpersand(text);
    }
  }

  /**
   * What `stripHtml` promises its callers: no whitespace at either end, no two whitespace
   * characters in a row, every whitespace a plain space, and so no line break at all.
   */
  lemma StripHtmlShape(html: string)
    ensures var r := StripHtml(html);
      Trimmed(r) && SingleSpaced(r) && '\n' !in r
  {
    var c := Collapse(DecodeEntities(StripTags(html)));
    CollapseIsSingleSpaced(DecodeEntities(StripTags(html)));
    TrimSingleSpaced(c);
    SingleSpacedHasNoNewline(StripHtml(html));
  }

  /** The same holds for the fallback pass's tag stripper. */
  lemma StripTagsOnlyShape(html: string)
    ensures var r := StripTagsOnly(html);
      Trimmed(r) && SingleSpaced(r) && '\n' !in r
  {
    CollapseIsSingleSpaced(StripTags(html));
    TrimSingleSpaced(Collapse(StripTags(html)));
    SingleSpacedHasNoNewline(StripTagsOnly(html));
  }

  lemma {:induction false} StripTagsNoTag(s: string)
    requires '<' !in s
    ensures StripTags(s) == s
    decreases |s|
  {
    if s != [] {
      StripTagsNoTag(s[1..]);
      assert [s[0]] + s[1..] == s;
    }
  }

  lemma CascadeNbsp()
    ensures ReplaceAll("&amp;lt;", "&nbsp;", " ") == "&amp;lt;"
  {
    var s := "&amp;lt;";
    assert s[1] != "&nbsp;"[1];
    ReplaceAllMissOnce(s, "&nbsp;", " ");
  }

  lemma CascadeAmp()
    ensures ReplaceAll("&amp;lt;", "&amp;", "&") == "&lt;"
  {
    assert "&amp;lt;" == "&amp;" + "lt;";
    ReplaceAllHit("&amp;", "lt;", "&");
    ReplaceAllAbsent("lt;", "&amp;", "&");
  }

  lemma CascadeLt()
    ensures ReplaceAll("&lt;", "&lt;", "<") == "<"
  {
    assert "&lt;" == "&lt;" + [];
    ReplaceAllHit("&lt;", [], "<");
  }

  /** The replacements run in sequence: "&amp;lt;" becomes "&lt;" and then "<". */
  lemma DecodeCascades()
    ensures DecodeEntities("&amp;lt;") == "<"
  {
    CascadeNbsp();
    CascadeAmp();
    CascadeLt();
    var u := "<";
    ReplaceAllAbsent(u, "&gt;", ">");
    ReplaceAllAbsent(u, "&quot;", "\"");
    ReplaceAllAbsent(u, "&#039;", "'");
    ReplaceAllAbsent(u, "&#x27;", "'");
    DecodeNumericNoAmpersand(u);
  }

  /** The `&nbsp;` step finds nothing in "A&amp;B". */
  lemma AmpersandNbsp()
    ensures ReplaceAll("A&amp;B", "&nbsp;", " ") == "A&amp;B"
  {
    var s := "A&amp;B";
    assert s == [s[0]] + s[1..];
    assert !("&nbsp;" <= s);
    ReplaceAllMissOnce(s[1..], "&nbsp;", " ") by { assert s[2] != 'n'; }
  }

  /** The `&amp;` step turns "A&amp;B" into "A&B". */
  lemma AmpersandAmp()
    ensures ReplaceAll("A&amp;B", "&amp;", "&") == "A&B"
  {
    var s := "A&amp;B";
    assert s == [s[0]] + s[1..];
    assert !("&amp;" <= s);
    assert s[1..] == "&amp;" + "B";
    ReplaceAllHit("&amp;", "B", "&");
    ReplaceAllAbsent("B", "&amp;", "&");
  }

  /** None of the later steps finds anything in "A&B". */
  lemma AmpersandLaterSteps()
    ensures ReplaceAll("A&B", "&lt;", "<") == "A&B"
    ensures ReplaceAll("A&B", "&gt;", ">") == "A&B"
    ensures ReplaceAll("A&B", "&quot;", "\"") == "A&B"
    ensures ReplaceAll("A&B", "&#039;", "'") == "A&B"
    ensures ReplaceAll("A&B", "&#x27;", "'") == "A&B"
    ensures DecodeNumeric("A&B") == "A&B"
  {
    var t := "A&B";
    assert t == [t[0]] + t[1..];
    assert !("&lt;" <= t) && !("&gt;" <= t) && !("&quot;" <= t) && !("&#039;" <= t) && !("&#x27;" <= t);
    ReplaceAllMissOnce(t[1..], "&lt;", "<");
    ReplaceAllMissOnce(t[1..], "&gt;", ">");
    ReplaceAllMissOnce(t[1..], "&quot;", "\"");
    ReplaceAllMissOnce(t[1..], "&#039;", "'");
    ReplaceAllMissOnce(t[1..], "&#x27;", "'");
    assert !("&#" <= t) && !("&#" <= t[1..]);
    assert t[1..][1..] == "B";
    DecodeNumericNoAmpersand("B");
  }

  /** Example: "A&amp;B" decodes to "A&B". */
  lemma DecodeAmpersand()
    ensures DecodeEntities("A&amp;B") == "A&B"
  {
    AmpersandNbsp();
    AmpersandAmp();
    AmpersandLaterSteps();
  }

  /** No named entity without a `#` occurs in "&#65;". */
  lemma NumericNamedSteps()
    ensures ReplaceAll("&#65;", "&nbsp;", " ") == "&#65;"
    ensures ReplaceAll("&#65;", "&amp;", "&") == "&#65;"
    ensures ReplaceAll("&#65;", "&lt;", "<") == "&#65;"
    ensures ReplaceAll("&#65;", "&gt;", ">") == "&#65;"
    ensures ReplaceAll("&#65;", "&quot;", "\"") == "&#65;"
  {
    var s := "&#65;";
    ReplaceAllMissOnce(s, "&nbsp;", " ");
    ReplaceAllMissOnce(s, "&amp;", "&");
    ReplaceAllMissOnce(s, "&lt;", "<");
    ReplaceAllMissOnce(s, "&gt;", ">");
    ReplaceAllMissOnce(s, "&quot;", "\"");
  }

  /** Neither apostrophe entity occurs in "&#65;": they differ from it at the third character. */
  lemma NumericApostropheSteps()
    ensures ReplaceAll("&#65;", "&#039;", "'") == "&#65;"
    ensures ReplaceAll("&#65;", "&#x27;", "'") == "&#65;"
  {
    var s := "&#65;";
    ReplaceAllMissOnce(s, "&#039;", "'") by { assert s[2] != "&#039;"[2]; }
    ReplaceAllMissOnce(s, "&#x27;", "'") by { assert s[2] != "&#x27;"[2]; }
  }

  /** The numeric rule turns "&#65;" into code unit 65, "A". */
  lemma NumericRuleSixtyFive()
    ensures DecodeNumeric("&#65;") == "A"
  {
    var s := "&#65;";
    assert "&#" <= s;
    assert s[2..] == "65;";
    assert LeadingDigits("65;") == 2 by {
      assert "65;"[1..] == "5;";
      assert "5;"[1..] == ";";
    }
    assert s[2..4] == "65";
    assert DecimalValue("65") == 65 by {
      assert "65"[..1] == "6";
      assert "6"[..0] == [];
    }
    assert FromCharCode(65) == 'A';
    assert s[5..] == [];
  }

  /** Example: "&#65;" decodes to "A" through the numeric rule. */
  lemma DecodeNumericExample()
    ensures DecodeEntities("&#65;") == "A"
  {
    NumericNamedSteps();
    NumericApostropheSteps();
    NumericRuleSixtyFive();
  }

  /**
   * `stripHtml` is idempotent on its own output whenever that output has no `<` and no `&`
   * left for a second pass to act on.
   */
  lemma StripHtmlIdempotent(html: string)
    ensures var r := StripHtml(html);
      ('<' !in r && '&' !in r) ==> StripHtml(r) == r
  {
    var r := StripHtml(html);
    if '<' !in r && '&' !in r {
      StripTagsNoTag(r);
      DecodeEntitiesNoAmpersand(r);
      StripHtmlShape(html);
      CollapseSingleSpaced(r);
    }
  }
}
