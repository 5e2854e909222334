/**
 * The record read from a job's detail page (server.js:440-596): synonym lookup over the
 * dt/dd map and the scanned pairs, the company filter, the description pick and the
 * sanitiser applied to the key facts.
 */
module Details {
  import opened Wrappers
  import opened Text
  import opened Records
  import opened KeyFacts
  import opened Descriptions

  // ---------------------------------------------------------------- synonym lookup

  /** `k === can || k.includes(can)`. */
  predicate Hits(k: string, can: string) {
    k == can || Contains(k, can)
  }

  /** The lower-cased key `k` hits one of the canonical keys, tried in order. */
  predicate MatchesAny(k: string, cans: seq<string>)
    decreases |cans|
  {
    cans != [] && (Hits(k, cans[0]) || MatchesAny(k, cans[1..]))
  }

  lemma {:induction false} MatchesAnyIff(k: string, cans: seq<string>)
    ensures MatchesAny(k, cans) <==> exists j :: 0 <= j < |cans| && Hits(k, cans[j])
    decreases |cans|
  {
    if cans != [] {
      MatchesAnyIff(k, cans[1..]);
      if exists j :: 0 <= j < |cans| && Hits(k, cans[j]) {
        var j :| 0 <= j < |cans| && Hits(k, cans[j]);
        if j > 0 { assert cans[1..][j - 1] == cans[j]; }
      }
      if exists j :: 0 <= j < |cans[1..]| && Hits(k, cans[1..][j]) {
        var j :| 0 <= j < |cans[1..]| && Hits(k, cans[1..][j]);
        assert cans[j + 1] == cans[1..][j];
      }
    }
  }

  predicate KeyMatches(e: Entry, cans: seq<string>) {
    MatchesAny(Lower(e.key), cans)
  }

  /** The value of the first entry, in map order, whose lower-cased key hits a canonical key. */
  function FirstMatch(m: seq<Entry>, cans: seq<string>): Option<string>
    decreases |m|
  {
    if m == [] then None
    else if KeyMatches(m[0], cans) then Some(m[0].value)
    else FirstMatch(m[1..], cans)
  }

  /** The first matching entry is the one whose value comes back. */
  lemma {:induction false} FirstMatchAt(m: seq<Entry>, cans: seq<string>, i: nat)
    requires i < |m| && KeyMatches(m[i], cans)
    requires forall j :: 0 <= j < i ==> !KeyMatches(m[j], cans)
    ensures FirstMatch(m, cans) == Some(m[i].value)
    decreases i
  {
    if i > 0 {
      assert !KeyMatches(m[0], cans);
      forall j | 0 <= j < i - 1 ensures !KeyMatches(m[1..][j], cans) {
        assert m[1..][j] == m[j + 1];
      }
      FirstMatchAt(m[1..], cans, i - 1);
    }
  }

  /** Nothing comes back exactly when no entry matches. */
  lemma {:induction false} FirstMatchNone(m: seq<Entry>, cans: seq<string>)
    ensures FirstMatch(m, cans).None? <==> forall i :: 0 <= i < |m| ==> !KeyMatches(m[i], cans)
    decreases |m|
  {
    if m != [] {
      FirstMatchNone(m[1..], cans);
      if forall i :: 0 <= i < |m| ==> !KeyMatches(m[i], cans) {
        forall i | 0 <= i < |m[1..]| ensures !KeyMatches(m[1..][i], cans) {
          assert m[1..][i] == m[i + 1];
        }
      }
      if !KeyMatches(m[0], cans) && forall i :: 0 <= i < |m[1..]| ==> !KeyMatches(m[1..][i], cans) {
        forall i | 0 <= i < |m| ensures !KeyMatches(m[i], cans) {
          if i > 0 { assert m[i] == m[1..][i - 1]; }
        }
      }
    }
  }

  /** Whatever comes back is the value of an entry whose key matches. */
  lemma {:induction false} FirstMatchFrom(m: seq<Entry>, cans: seq<string>)
    ensures FirstMatch(m, cans).Some? ==>
      exists i :: 0 <= i < |m| && KeyMatches(m[i], cans) && m[i].value == FirstMatch(m, cans).value
    decreases |m|
  {
    if m != [] && !KeyMatches(m[0], cans) {
      FirstMatchFrom(m[1..], cans);
      if FirstMatch(m, cans).Some? {
        var i :| 0 <= i < |m[1..]| && KeyMatches(m[1..][i], cans) && m[1..][i].value == FirstMatch(m, cans).value;
        assert m[i + 1] == m[1..][i];
      }
    }
  }

  /** `v` is the value of an entry of `m` whose key matches one of the synonyms `syns`. */
  ghost predicate SynonymValue(m: seq<Entry>, syns: seq<string>, v: string) {
    exists i :: 0 <= i < |m| && KeyMatches(m[i], Canonicals(syns)) && m[i].value == v
  }

  /**
   * `getBySynonyms`: every dt/dd key is tried before any scanned-pair key; the first key that
   * equals or contains the canonical key of a synonym gives its value, and "" if none does.
   */
  function BySynonyms(dl: seq<Entry>, pairs: seq<Entry>, syns: seq<string>): string {
    var cans := Canonicals(syns);
    match FirstMatch(dl, cans)
    case Some(v) => v
    case None =>
      match FirstMatch(pairs, cans)
      case Some(v) => v
      case None => ""
  }

  /** A matching dt/dd key decides the lookup: the scanned pairs are never consulted. */
  lemma BySynonymsPrefersDl(dl: seq<Entry>, pairs: seq<Entry>, syns: seq<string>, i: nat)
    requires i < |dl| && KeyMatches(dl[i], Canonicals(syns))
    requires forall j :: 0 <= j < i ==> !KeyMatches(dl[j], Canonicals(syns))
    ensures BySynonyms(dl, pairs, syns) == dl[i].value
  {
    FirstMatchAt(dl, Canonicals(syns), i);
  }

  /** Without a matching dt/dd key, the first matching scanned pair decides. */
  lemma BySynonymsFallsBack(dl: seq<Entry>, pairs: seq<Entry>, syns: seq<string>, i: nat)
    requires forall j :: 0 <= j < |dl| ==> !KeyMatches(dl[j], Canonicals(syns))
    requires i < |pairs| && KeyMatches(pairs[i], Canonicals(syns))
    requires forall j :: 0 <= j < i ==> !KeyMatches(pairs[j], Canonicals(syns))
    ensures BySynonyms(dl, pairs, syns) == pairs[i].value
  {
    FirstMatchNone(dl, Canonicals(syns));
    FirstMatchAt(pairs, Canonicals(syns), i);
  }

  /** The lookup gives "" exactly when no key of either map matches. */
  lemma BySynonymsEmpty(dl: seq<Entry>, pairs: seq<Entry>, syns: seq<string>)
    requires WellFormed(dl) && WellFormed(pairs)
    ensures BySynonyms(dl, pairs, syns) == "" <==>
      && (forall j :: 0 <= j < |dl| ==> !KeyMatches(dl[j], Canonicals(syns)))
      && (forall j :: 0 <= j < |pairs| ==> !KeyMatches(pairs[j], Canonicals(syns)))
    ensures BySynonyms(dl, pairs, syns) == "" || GoodValue(BySynonyms(dl, pairs, syns))
  {
    var cans := Canonicals(syns);
    FirstMatchNone(dl, cans);
    FirstMatchNone(pairs, cans);
    FirstMatchFrom(dl, cans);
    FirstMatchFrom(pairs, cans);
    if FirstMatch(dl, cans).Some? {
      var i :| 0 <= i < |dl| && KeyMatches(dl[i], cans) && dl[i].value == FirstMatch(dl, cans).value;
      assert dl[i] in dl;
    } else if FirstMatch(pairs, cans).Some? {
      var i :| 0 <= i < |pairs| && KeyMatches(pairs[i], cans) && pairs[i].value == FirstMatch(pairs, cans).value;
      assert pairs[i] in pairs;
    }
  }

  /** A non-empty result is the value of a matching key, from the dt/dd map or the scanned pairs. */
  lemma BySynonymsFrom(dl: seq<Entry>, pairs: seq<Entry>, syns: seq<string>)
    ensures var v := BySynonyms(dl, pairs, syns);
      v == "" || SynonymValue(dl, syns, v) || SynonymValue(pairs, syns, v)
  {
    FirstMatchFrom(dl, Canonicals(syns));
    FirstMatchFrom(pairs, Canonicals(syns));
  }

  /** The inner loop of `getBySynonyms`: the synonyms in order, stopping at the first hit. */
  method HitsAny(k: string, syns: seq<string>) returns (hit: bool)
    ensures hit == MatchesAny(k, Canonicals(syns))
  {
    ghost var cans := Canonicals(syns);
    var j := 0;
    while j < |syns|
      invariant j <= |syns|
      invariant MatchesAny(k, cans) == MatchesAny(k, cans[j..])
    {
      var can := CanonicalKey(syns[j]);
      CanonicalsAt(syns, j);
      assert cans[j..][1..] == cans[j + 1..];
      if k == can || Contains(k, can) {
        return true;
      }
      j := j + 1;
    }
    return false;
  }

  /** The outer loop of `getBySynonyms` over one map: keys in order, returning the first hit. */
  method FindByKeys(m: seq<Entry>, syns: seq<string>) returns (r: Option<string>)
    ensures r == FirstMatch(m, Canonicals(syns))
  {
    var i := 0;
    while i < |m|
      invariant i <= |m|
      invariant FirstMatch(m, Canonicals(syns)) == FirstMatch(m[i..], Canonicals(syns))
    {
      assert m[i..][1..] == m[i + 1..];
      var hit := HitsAny(Lower(m[i].key), syns);
      if hit {
        return Some(m[i].value);
      }
      i := i + 1;
    }
    return None;
  }

  method GetBySynonyms(dl: seq<Entry>, pairs: seq<Entry>, syns: seq<string>) returns (v: string)
    ensures v == BySynonyms(dl, pairs, syns)
  {
    var r := FindByKeys(dl, syns);
    if r.Some? {
      return r.value;
    }
    r := FindByKeys(pairs, syns);
    if r.Some? {
      return r.value;
    }
    return "";
  }

  // ---------------------------------------------------------------- the synonym table

  const PublicationDateLabels: seq<string> := ["Publication date", "Published"]
  const WorkloadLabels: seq<string> := ["Workload"]
  const ContractTypeLabels: seq<string> := ["Contract type", "Employment type", "Contract"]
  const LanguageLabels: seq<string> := ["Language", "Languages"]
  const PlaceOfWorkLabels: seq<string> := ["Place of work", "Location", "Place"]
  const CompanyLabels: seq<string> := ["Company", "Employer"]

  /** The labels the block scan looks for: every group's synonyms, group after group. */
  const ScanLabels: seq<string> :=
    PublicationDateLabels + WorkloadLabels + ContractTypeLabels + LanguageLabels
    + PlaceOfWorkLabels + CompanyLabels

  lemma {:induction false} ContainsInfix(pre: string, c: string, post: string)
    ensures Contains(pre + c + post, c)
    decreases |pre|
  {
    if pre == [] {
      assert pre + c + post == c + post;
    } else {
      assert (pre + c + post)[1..] == pre[1..] + c + post;
      ContainsInfix(pre[1..], c, post);
    }
  }

  /**
   * Matching is by substring: a key whose lower-cased form has a synonym's canonical key
   * anywhere inside it answers that group's lookup ("Company size" answers the company one).
   */
  lemma KeyAroundSynonymMatches(syns: seq<string>, j: nat, e: Entry, pre: string, post: string)
    requires j < |syns| && Lower(e.key) == pre + CanonicalKey(syns[j]) + post
    ensures KeyMatches(e, Canonicals(syns))
  {
    var cans := Canonicals(syns);
    CanonicalsAt(syns, j);
    ContainsInfix(pre, cans[j], post);
    assert Hits(Lower(e.key), cans[j]);
    MatchesAnyIff(Lower(e.key), cans);
  }

  // ---------------------------------------------------------------- company

  /** The navigation labels the company filter rejects, each matched whole and case-insensitively. */
  const Boilerplate: seq<string> := ["explore companies", "find a job", "salary estimator", "recruiter area", "login"]

  /** The filter on a selector's text: non-blank, at most 160 characters, not navigation. */
  predicate IsCompanyText(t: string) {
    t != [] && |t| <= 160 && Lower(t) !in Boilerplate
  }

  /**
   * The selectors in order: the trimmed text of the first element that exists and passes the
   * filter. `None` in `texts` is a selector that found no element.
   */
  function FirstCompany(texts: seq<Option<string>>): Option<string>
    decreases |texts|
  {
    if texts == [] then None
    else if texts[0].Some? && IsCompanyText(Trim(texts[0].value)) then Some(Trim(texts[0].value))
    else FirstCompany(texts[1..])
  }

  predicate CompanyAt(texts: seq<Option<string>>, i: nat)
    requires i < |texts|
  {
    texts[i].Some? && IsCompanyText(Trim(texts[i].value))
  }

  /** The company is the trimmed text of the first selector that passes, and passes itself. */
  lemma {:induction false} FirstCompanyAt(texts: seq<Option<string>>, i: nat)
    requires i < |texts| && CompanyAt(texts, i)
    requires forall j :: 0 <= j < i ==> !CompanyAt(texts, j)
    ensures FirstCompany(texts) == Some(Trim(texts[i].value))
    ensures IsCompanyText(FirstCompany(texts).value)
    decreases i
  {
    if i > 0 {
      assert !CompanyAt(texts, 0);
      forall j | 0 <= j < i - 1 ensures !CompanyAt(texts[1..], j) {
        assert texts[1..][j] == texts[j + 1];
        assert !CompanyAt(texts, j + 1);
      }
      assert texts[1..][i - 1] == texts[i];
      FirstCompanyAt(texts[1..], i - 1);
    }
  }

  /** No company comes from the selectors exactly when none of them passes. */
  lemma {:induction false} FirstCompanyNone(texts: seq<Option<string>>)
    ensures FirstCompany(texts).None? <==> forall i :: 0 <= i < |texts| ==> !CompanyAt(texts, i)
    decreases |texts|
  {
    if texts != [] {
      var tail := texts[1..];
      FirstCompanyNone(tail);
      if forall i :: 0 <= i < |texts| ==> !CompanyAt(texts, i) {
        forall i | 0 <= i < |tail| ensures !CompanyAt(tail, i) {
          assert tail[i] == texts[i + 1];
          assert !CompanyAt(texts, i + 1);
        }
      }
      if !CompanyAt(texts, 0) && forall i :: 0 <= i < |tail| ==> !CompanyAt(tail, i) {
        forall i | 0 <= i < |texts| ensures !CompanyAt(texts, i) {
          if i > 0 {
            assert texts[i] == tail[i - 1];
            assert !CompanyAt(tail, i - 1);
          }
        }
      }
    }
  }

  /** The selector loop, leaving it with `break` at the first text that passes. */
  method PickCompany(texts: seq<Option<string>>) returns (company: string)
    ensures company == if FirstCompany(texts).Some? then FirstCompany(texts).value else ""
  {
    company := "";
    var i := 0;
    while i < |texts|
      invariant i <= |texts|
      invariant FirstCompany(texts) == FirstCompany(texts[i..])
    {
      assert texts[i..][1..] == texts[i + 1..];
      if texts[i].Some? {
        var t := Trim(texts[i].value);
        if IsCompanyText(t) {
          company := t;
          break;
        }
      }
      i := i + 1;
    }
  }

  // ---------------------------------------------------------------- sanitiser

  /** `clean`: no-break spaces to spaces, whitespace runs collapsed, ends trimmed. */
  function Clean(s: string): (r: string)
    ensures Trimmed(r)
  {
    Trim(Collapse(ReplaceAll(s, "\U{00A0}", " ")))
  }

  /**
   * Only whitespace changes: the characters other than whitespace (the no-break space
   * counts as whitespace) are kept, in order.
   */
  lemma CleanKeeps(s: string)
    ensures NonSpace(Clean(s)) == NonSpace(s)
  {
    var n := ReplaceAll(s, "\U{00A0}", " ");
    NonSpaceReplaceSpace(s, '\U{00A0}');
    NonSpaceTrim(Collapse(n));
  }

  lemma CleanShape(s: string)
    ensures SingleSpaced(Clean(s))
  {
    var c := Collapse(ReplaceAll(s, "\U{00A0}", " "));
    CollapseIsSingleSpaced(ReplaceAll(s, "\U{00A0}", " "));
    TrimSingleSpaced(c);
  }

  /** Text that is already clean comes back unchanged; in particular `clean` is idempotent. */
  lemma CleanFixed(s: string)
    requires Trimmed(s) && SingleSpaced(s)
    ensures Clean(s) == s
  {
    NoNbspInSingleSpaced(s);
    ReplaceAllAbsent(s, "\U{00A0}", " ");
    CollapseSingleSpaced(s);
  }

  /** Single-spaced text has no no-break space: its only whitespace is the plain space. */
  lemma NoNbspInSingleSpaced(s: string)
    requires SingleSpaced(s)
    ensures '\U{00A0}' !in s
  {
    forall i | 0 <= i < |s| ensures s[i] != '\U{00A0}' {
      if IsSpace(s[i]) { assert s[i] == ' '; }
    }
  }

  /**
   * Between two clean texts, any run of whitespace, no-break spaces included, cleans to
   * exactly one space: `clean` neither joins the two words nor keeps the run.
   */
  lemma CleanRun(a: string, w: string, b: string)
    requires a != [] && Trimmed(a) && SingleSpaced(a)
    requires b != [] && Trimmed(b) && SingleSpaced(b)
    requires w != [] && AllSpace(w)
    ensures Clean(a + w + b) == Clean(a) + " " + Clean(b) == a + " " + b
  {
    var u := ReplaceAll(w, "\U{00A0}", " ");
    ReplaceCharConcat(a + w, b, '\U{00A0}', " ");
    ReplaceCharConcat(a, w, '\U{00A0}', " ");
    NoNbspInSingleSpaced(a);
    NoNbspInSingleSpaced(b);
    ReplaceAllAbsent(a, "\U{00A0}", " ");
    ReplaceAllAbsent(b, "\U{00A0}", " ");
    ReplaceSpaceRun(w, '\U{00A0}');
    assert ReplaceAll(a + w + b, "\U{00A0}", " ") == a + u + b;
    CollapseRun(a, u, b);
    CollapseSingleSpaced(a);
    CollapseSingleSpaced(b);
    var s := a + " " + b;
    assert s[0] == a[0] && s[|s| - 1] == b[|b| - 1];
    assert Clean(a + w + b) == Trim(s);
    CleanFixed(a);
    CleanFixed(b);
  }

  lemma CleanIdempotent(s: string)
    ensures Clean(Clean(s)) == Clean(s)
  {
    CleanShape(s);
    CleanFixed(Clean(s));
  }

  /** `stripPrefix`: the value cleaned, then without its label. */
  function StripPrefix(v: string, name: string): (r: string)
    ensures Trimmed(r)
    ensures !StartsWithIgnoreCase(Clean(v), name) ==> r == Clean(v)
    ensures StartsWithIgnoreCase(Clean(v), name) ==>
      |r| <= |Clean(v)| - |name| && r == Clean(v)[|Clean(v)| - |r|..]
  {
    var c := Clean(v);
    if StartsWithIgnoreCase(c, name) then
      StripLabelSuffix(c, name);
      StripLabel(c, name)
    else
      assert Trim(c) == c;
      StripLabel(c, name)
  }

  /**
   * The replace and trim of `stripPrefix` on cleaned text `c`: a leading `name`, matched
   * case-insensitively, goes with the whitespace, one optional colon and whitespace after it.
   */
  function StripLabel(c: string, name: string): (r: string)
    ensures Trimmed(r)
    ensures !StartsWithIgnoreCase(c, name) ==> r == Trim(c)
  {
    if StartsWithIgnoreCase(c, name) then Trim(LabelTail(c[|name|..])) else Trim(c)
  }

  /** With the label present, what is left of trimmed text is a suffix of it, after the label. */
  lemma StripLabelSuffix(c: string, name: string)
    requires Trimmed(c) && StartsWithIgnoreCase(c, name)
    ensures |StripLabel(c, name)| <= |c| - |name| && StripLabel(c, name) == c[|c| - |StripLabel(c, name)|..]
  {
    var t := LabelTail(c[|name|..]);
    LabelTailOfTrimmed(c, name);
    assert StripLabel(c, name) == t;
  }

  /** After the label, `\s*:?\s*` goes: the whitespace, one optional colon, and the whitespace after it. */
  function LabelTail(t0: string): (r: string)
    ensures |r| <= |t0| && r == t0[|t0| - |r|..]
    ensures r == [] || !IsSpace(r[0])
  {
    var i := LeadingSpace(t0);
    var j := if i < |t0| && t0[i] == ':' then i + 1 else i;
    var k := j + LeadingSpace(t0[j..]);
    assert k < |t0| ==> t0[k] == t0[j..][k - j];
    t0[k..]
  }

  /** What `\s*:?\s*` can match: whitespace with at most one colon among it. */
  predicate Separator(x: string) {
    && (forall k :: 0 <= k < |x| ==> IsSpace(x[k]) || x[k] == ':')
    && (forall k, m :: 0 <= k < m < |x| && x[k] == ':' ==> x[m] != ':')
  }

  /**
   * `r` is what is left of `t0` once the greedy `\s*:?\s*` has matched at its front: `t0` is
   * a separator followed by `r`, `r` does not start with whitespace, and `r` starts with a
   * colon only when the separator already holds one.
   */
  predicate AfterSeparator(t0: string, r: string) {
    && |r| <= |t0| && r == t0[|t0| - |r|..]
    && Separator(t0[..|t0| - |r|])
    && (r == [] || !IsSpace(r[0]))
    && (r != [] && r[0] == ':' ==> ':' in t0[..|t0| - |r|])
  }

  /** `LabelTail` leaves exactly what the greedy separator leaves. */
  lemma LabelTailSplit(t0: string)
    ensures AfterSeparator(t0, LabelTail(t0))
  {
    var r := LabelTail(t0);
    var p := t0[..|t0| - |r|];
    LabelTailRemoved(t0);
    LabelTailColon(t0);
    assert forall m :: 0 <= m < |p| ==> p[m] == t0[m];
  }

  /** Before the tail there is only whitespace, except a colon right after the leading run. */
  lemma LabelTailRemoved(t0: string)
    ensures forall m :: 0 <= m < |t0| - |LabelTail(t0)| ==>
      IsSpace(t0[m]) || (m == LeadingSpace(t0) && t0[m] == ':')
  {
    var i := LeadingSpace(t0);
    var j := if i < |t0| && t0[i] == ':' then i + 1 else i;
    var u := t0[j..];
    var k := j + LeadingSpace(u);
    assert |t0| - |LabelTail(t0)| == k;
    LeadingSpaceFrom(t0, j);
    forall m | 0 <= m < k
      ensures IsSpace(t0[m]) || (m == i && t0[m] == ':')
    {
      if m < i {
      } else if m < j {
        assert m == i;
      }
    }
  }

  /** The tail starts with a colon only when a colon was taken before it. */
  lemma LabelTailColon(t0: string)
    ensures var r := LabelTail(t0);
      r != [] && r[0] == ':' ==> ':' in t0[..|t0| - |r|]
  {
    var i := LeadingSpace(t0);
    var j := if i < |t0| && t0[i] == ':' then i + 1 else i;
    var u := t0[j..];
    var k := j + LeadingSpace(u);
    var r := LabelTail(t0);
    assert |t0| - |r| == k;
    if j == i {
      assert u == [] || !IsSpace(u[0]);
      assert k == i;
    }
    if r != [] && r[0] == ':' {
      assert r[0] == t0[k];
      assert t0[..k][i] == ':';
    }
  }

  /** The greedy separator leaves one remainder only. */
  lemma AfterSeparatorUnique(t0: string, r: string, r2: string)
    requires AfterSeparator(t0, r) && AfterSeparator(t0, r2)
    ensures r == r2
  {
    SeparatorNotShorter(t0, r, r2);
    SeparatorNotShorter(t0, r2, r);
  }

  /**
   * No separator is shorter than another's: the first character after the shorter one would
   * lie inside the longer one, so it would be a colon, and the longer one would hold two.
   */
  lemma SeparatorNotShorter(t0: string, r: string, r2: string)
    requires AfterSeparator(t0, r) && AfterSeparator(t0, r2)
    ensures |r| <= |r2|
  {
    var x, x2 := t0[..|t0| - |r|], t0[..|t0| - |r2|];
    assert forall q :: 0 <= q < |x| ==> x[q] == t0[q];
    assert forall q :: 0 <= q < |x2| ==> x2[q] == t0[q];
    assert r != [] ==> r[0] == t0[|x|];
    if |r| > |r2| {
      assert false;
    }
  }

  /** The tail after a label in trimmed text is a suffix of it that trimming leaves alone. */
  lemma LabelTailOfTrimmed(c: string, name: string)
    requires Trimmed(c) && |name| <= |c|
    ensures |LabelTail(c[|name|..])| <= |c| - |name|
    ensures LabelTail(c[|name|..]) == c[|c| - |LabelTail(c[|name|..])|..]
    ensures Trim(LabelTail(c[|name|..])) == LabelTail(c[|name|..])
  {
    LabelTailSuffix(c, name);
    TailOfTrimmed(c, LabelTail(c[|name|..]));
  }

  lemma LabelTailSuffix(c: string, name: string)
    requires |name| <= |c|
    ensures |LabelTail(c[|name|..])| <= |c| - |name|
    ensures LabelTail(c[|name|..]) == c[|c| - |LabelTail(c[|name|..])|..]
  {
    SuffixAfter(c, |name|, LabelTail(c[|name|..]));
  }

  /**
   * With the label present, the result is what is left of the cleaned value after the label
   * and the greedy `\s*:?\s*`, and nothing else fits that description.
   */
  lemma StripPrefixSpec(v: string, name: string)
    requires StartsWithIgnoreCase(Clean(v), name)
    ensures AfterSeparator(Clean(v)[|name|..], StripPrefix(v, name))
  {
    StripPrefixIsStripLabel(v, name);
    StripLabelRemoves(Clean(v), name, StripPrefix(v, name));
  }

  /** Any text left after the label and a greedy separator is the result of `stripPrefix`. */
  lemma StripPrefixUnique(v: string, name: string, r: string)
    requires StartsWithIgnoreCase(Clean(v), name) && AfterSeparator(Clean(v)[|name|..], r)
    ensures r == StripPrefix(v, name)
  {
    StripPrefixSpec(v, name);
    AfterSeparatorUnique(Clean(v)[|name|..], r, StripPrefix(v, name));
  }

  /** A space before the colon goes too: "Workload : 80%" gives "80%". */
  lemma StripPrefixSpacedColon()
    ensures StripPrefix("Workload : 80%", "Workload") == "80%"
  {
    var v := "Workload : 80%";
    SpacedColonClean();
    SpacedColonLabel();
    assert v[8..] == " : 80%";
    SpacedColonSeparator();
    StripPrefixUnique(v, "Workload", "80%");
  }

  lemma SpacedColonClean()
    ensures Clean("Workload : 80%") == "Workload : 80%"
  {
    var v := "Workload : 80%";
    assert forall i :: 0 <= i < |v| && IsSpace(v[i]) ==> i == 8 || i == 10;
    CleanFixed(v);
  }

  lemma SpacedColonLabel()
    ensures StartsWithIgnoreCase("Workload : 80%", "Workload")
  {
    assert "Workload : 80%"[..8] == "Workload";
  }

  lemma SpacedColonSeparator()
    ensures AfterSeparator(" : 80%", "80%")
  {
    var t0 := " : 80%";
    assert t0[3..] == "80%";
    assert t0[..3] == " : ";
    var x := " : ";
    assert x[0] == ' ' && x[1] == ':' && x[2] == ' ';
  }

  lemma StripPrefixIsStripLabel(v: string, name: string)
    ensures StripPrefix(v, name) == StripLabel(Clean(v), name)
  {
  }

  /** `r`, the label stripped from trimmed `c`, is `c` after the label and a greedy separator. */
  lemma StripLabelRemoves(c: string, name: string, r: string)
    requires Trimmed(c) && StartsWithIgnoreCase(c, name) && r == StripLabel(c, name)
    ensures AfterSeparator(c[|name|..], r)
  {
    var t0 := c[|name|..];
    LabelTailOfTrimmed(c, name);
    assert r == LabelTail(t0);
    LabelTailSplit(t0);
  }

  /** A value without the label is only cleaned. */
  lemma StripPrefixNoLabel(v: string, name: string)
    requires !StartsWithIgnoreCase(Clean(v), name)
    ensures StripPrefix(v, name) == Clean(v)
  {
  }

  /** A labelled value that is already clean stays as it is. */
  lemma CleanLabelled(name: string, v: string)
    requires name != [] && Trimmed(name) && SingleSpaced(name)
    requires v != [] && Trimmed(v) && SingleSpaced(v)
    ensures Clean(name + ": " + v) == name + ": " + v
  {
    assert SingleSpaced(": ");
    SingleSpacedConcat(name, ": ");
    SingleSpacedConcat(name + ": ", v);
    var s := name + ": " + v;
    assert s[0] == name[0] && s[|s| - 1] == v[|v| - 1];
    CleanFixed(s);
  }

  /** After the label: the colon and the space after it go, the value stays. */
  lemma AfterColon(v: string)
    requires v != [] && Trimmed(v) && v[0] != ':'
    ensures LabelTail(": " + v) == v
  {
    var x := ": " + v;
    assert x[0] == ':' && !IsSpace(x[0]);
    assert x[1..] == " " + v;
    assert LeadingSpace(x[1..]) == 1;
    assert x[2..] == v;
  }

  /** "Label: value" loses its label, whatever the label's case in the text. */
  lemma StripPrefixRoundTrip(name: string, v: string)
    requires name != [] && Trimmed(name) && SingleSpaced(name)
    requires v != [] && Trimmed(v) && SingleSpaced(v) && v[0] != ':'
    ensures StripPrefix(name + ": " + v, name) == v
  {
    CleanLabelled(name, v);
    StripLabelRoundTrip(name, v);
  }

  lemma StripLabelRoundTrip(name: string, v: string)
    requires v != [] && Trimmed(v) && v[0] != ':'
    ensures StripLabel(name + ": " + v, name) == v
  {
    var s := name + ": " + v;
    assert s[..|name|] == name;
    assert s[|name|..] == ": " + v;
    AfterColon(v);
  }

  /** Only a non-empty fact is sanitised; "" stays "". */
  function SanitizeField(v: string, name: string): (r: string)
    ensures v == [] ==> r == []
    ensures v != [] ==> Trimmed(r) && r == StripPrefix(v, name)
  {
    if v == [] then v else StripPrefix(v, name)
  }

  /** The five key facts, each with its own group's first label stripped. */
  function Sanitize(k: KeyInfo): KeyInfo {
    KeyInfo(
      SanitizeField(k.publicationDate, "Publication date"),
      SanitizeField(k.workload, "Workload"),
      SanitizeField(k.contractType, "Contract type"),
      SanitizeField(k.language, "Language"),
      SanitizeField(k.placeOfWork, "Place of work"))
  }

  // ---------------------------------------------------------------- the page

  /**
   * What the page shows, as the texts the browser would read: the `h1` text if there is one,
   * the text behind each company selector, the `dt` elements with their `dd` sibling's text,
   * the texts of the blocks scanned for "Label: value", the `h2` and `h3` headings of the main
   * area with what follows each, and the paragraph and list-item texts.
   */
  datatype DetailPage = DetailPage(
    heading: Option<string>,
    companyTexts: seq<Option<string>>,
    dts: seq<DtDd>,
    blocks: seq<string>,
    headings: seq<SectionHeading>,
    paragraphs: seq<string>)

  datatype Detail = Detail(title: string, company: string, description: string, keyInfo: KeyInfo)

  /** The five key facts before sanitising, each group looked up on both maps. */
  function RawKeyInfo(dl: seq<Entry>, pairs: seq<Entry>): KeyInfo {
    KeyInfo(
      BySynonyms(dl, pairs, PublicationDateLabels),
      BySynonyms(dl, pairs, WorkloadLabels),
      BySynonyms(dl, pairs, ContractTypeLabels),
      BySynonyms(dl, pairs, LanguageLabels),
      BySynonyms(dl, pairs, PlaceOfWorkLabels))
  }

  /** The company: the first selector text that passes the filter, else the company group's lookup. */
  function CompanyOf(texts: seq<Option<string>>, dl: seq<Entry>, pairs: seq<Entry>): string {
    match FirstCompany(texts)
    case Some(c) => c
    case None => BySynonyms(dl, pairs, CompanyLabels)
  }

  /** The record the page evaluation returns. */
  function DetailOf(p: DetailPage): Detail {
    var dl := DlMap(p.dts);
    var pairs := Pairs(p.blocks, ScanLabels);
    Detail(
      if p.heading.Some? then Trim(p.heading.value) else "",
      CompanyOf(p.companyTexts, dl, pairs),
      Description(p.headings, p.paragraphs),
      Sanitize(RawKeyInfo(dl, pairs)))
  }

  method ExtractDetail(p: DetailPage) returns (d: Detail)
    ensures d == DetailOf(p)
  {
    var dl := BuildDlMap(p.dts);
    var pairs := ScanPairs(p.blocks, ScanLabels);
    var title := if p.heading.Some? then Trim(p.heading.value) else "";
    var company := PickCompanyOrLookUp(p.companyTexts, dl, pairs);
    var description := ExtractDescription(p.headings, p.paragraphs);
    var keyInfo := LookUpKeyInfo(dl, pairs);
    d := Detail(title, company, description, Sanitize(keyInfo));
  }

  method LookUpKeyInfo(dl: seq<Entry>, pairs: seq<Entry>) returns (k: KeyInfo)
    ensures k == RawKeyInfo(dl, pairs)
  {
    var publicationDate := GetBySynonyms(dl, pairs, PublicationDateLabels);
    var workload := GetBySynonyms(dl, pairs, WorkloadLabels);
    var contractType := GetBySynonyms(dl, pairs, ContractTypeLabels);
    var language := GetBySynonyms(dl, pairs, LanguageLabels);
    var placeOfWork := GetBySynonyms(dl, pairs, PlaceOfWorkLabels);
    k := KeyInfo(publicationDate, workload, contractType, language, placeOfWork);
  }

  /** The selectors first; `if (!company)`, the company group's lookup. */
  method PickCompanyOrLookUp(texts: seq<Option<string>>, dl: seq<Entry>, pairs: seq<Entry>) returns (company: string)
    ensures company == CompanyOf(texts, dl, pairs)
  {
    company := PickCompany(texts);
    if company == "" {
      FirstCompanyNonEmpty(texts);
      company := GetBySynonyms(dl, pairs, CompanyLabels);
    }
  }

  /** A company taken from a selector is never "", so `if (!company)` means no selector passed. */
  lemma FirstCompanyNonEmpty(texts: seq<Option<string>>)
    ensures FirstCompany(texts).Some? ==> FirstCompany(texts).value != ""
    decreases |texts|
  {
    if texts != [] && !(texts[0].Some? && IsCompanyText(Trim(texts[0].value))) {
      FirstCompanyNonEmpty(texts[1..]);
    }
  }

  /**
   * The company passes the filter, or is "", or is the value of a dt/dd or scanned-pair key
   * that matches a company synonym (and then a good value).
   */
  lemma CompanyShape(texts: seq<Option<string>>, dl: seq<Entry>, pairs: seq<Entry>)
    requires WellFormed(dl) && WellFormed(pairs)
    ensures var c := CompanyOf(texts, dl, pairs);
      || IsCompanyText(c) || c == ""
      || ((SynonymValue(dl, CompanyLabels, c) || SynonymValue(pairs, CompanyLabels, c)) && GoodValue(c))
  {
    FirstCompanyIsCompany(texts);
    BySynonymsEmpty(dl, pairs, CompanyLabels);
    BySynonymsFrom(dl, pairs, CompanyLabels);
  }

  /**
   * The shape of the record: a trimmed title; a company that passes the filter, or is "", or
   * is the value of a key matching a company synonym; every key fact "" or trimmed.
   */
  lemma DetailShape(p: DetailPage)
    ensures var d := DetailOf(p);
      && Trimmed(d.title)
      && (|| IsCompanyText(d.company) || d.company == ""
          || ((SynonymValue(DlMap(p.dts), CompanyLabels, d.company)
               || SynonymValue(Pairs(p.blocks, ScanLabels), CompanyLabels, d.company))
              && GoodValue(d.company)))
      && Trimmed(d.keyInfo.publicationDate) && Trimmed(d.keyInfo.workload)
      && Trimmed(d.keyInfo.contractType) && Trimmed(d.keyInfo.language)
      && Trimmed(d.keyInfo.placeOfWork)
  {
    var dl := DlMap(p.dts);
    var pairs := Pairs(p.blocks, ScanLabels);
    assert WellFormed(dl) by { DlMapSpec(p.dts, ""); }
    assert WellFormed(pairs) by { PairsSpec(p.blocks, ScanLabels, ""); }
    CompanyShape(p.companyTexts, dl, pairs);
  }

  lemma {:induction false} FirstCompanyIsCompany(texts: seq<Option<string>>)
    ensures FirstCompany(texts).Some? ==> IsCompanyText(FirstCompany(texts).value)
    decreases |texts|
  {
    if texts != [] && !(texts[0].Some? && IsCompanyText(Trim(texts[0].value))) {
      FirstCompanyIsCompany(texts[1..]);
    }
  }
}
