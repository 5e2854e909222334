/**
 * Key-facts resolution on a job's detail page (server.js:392-596): label normalisation, the
 * dt/dd map, the "Label: value" block scan, synonym lookup, the company filter and the
 * sanitiser. The page itself is abstract: the texts the browser would read are inputs.
 */
module KeyFacts {
  import opened Wrappers
  import opened Text
  import opened Records

  // ---------------------------------------------------------------- labels

  /**
   * `replace(/\s*:\s*$/, '')` on collapsed text: a colon that only whitespace follows is
   * removed together with the whitespace around it. What stays before it may still end in a
   * space; the `trim` that comes next removes that.
   */
  function DropTrailingColon(c: string): string {
    var e := TrimEnd(c);
    if e != [] && e[|e| - 1] == ':' then e[..|e| - 1] else c
  }

  lemma DropTrailingColonSingleSpaced(c: string)
    ensures SingleSpaced(c) ==> SingleSpaced(DropTrailingColon(c))
  {
    var e := TrimEnd(c);
    TrimEndSingleSpaced(c);
    if e != [] && e[|e| - 1] == ':' {
      SliceSingleSpaced(e, 0, |e| - 1);
      assert e[0..|e| - 1] == e[..|e| - 1];
    }
  }

  /** `normLabel`: whitespace runs collapsed, a trailing colon dropped, trimmed, lower-cased. */
  function NormLabel(l: string): string {
    Lower(Trim(DropTrailingColon(Collapse(l))))
  }

  /**
   * A normalised label has no whitespace at either end, no run of whitespace, no line break
   * and no upper-case letter.
   */
  lemma NormLabelShape(l: string)
    ensures var r := NormLabel(l);
      && Trimmed(r) && SingleSpaced(r) && '\n' !in r
      && forall i :: 0 <= i < |r| ==> !('A' <= r[i] <= 'Z')
  {
    var c := Collapse(l);
    CollapseIsSingleSpaced(l);
    DropTrailingColonSingleSpaced(c);
    TrimSingleSpaced(DropTrailingColon(c));
    var t := Trim(DropTrailingColon(c));
    LowerKeepsShape(t);
    SingleSpacedHasNoNewline(Lower(t));
    forall i | 0 <= i < |t| ensures !('A' <= Lower(t)[i] <= 'Z') {
      LowerCharNotUpper(t[i]);
    }
  }

  lemma LowerCharNotUpper(c: char)
    ensures !('A' <= LowerChar(c) <= 'Z')
  {
  }

  /**
   * `canonicalKey`: the normalised label with everything but `a`-`z` removed. Normalising
   * changes only whitespace, a colon and letter case, so this is the label's ASCII letters,
   * lower-cased (`CanonicalKeyIsNormalisedLetters` proves the two forms equal).
   */
  function CanonicalKey(l: string): (r: string)
    ensures forall i :: 0 <= i < |r| ==> 'a' <= r[i] <= 'z'
  {
    Letters(l)
  }

  lemma LettersDropTrailingColon(c: string)
    ensures Letters(DropTrailingColon(c)) == Letters(c)
  {
    var e := TrimEnd(c);
    LettersTrimEnd(c);
    if e != [] && e[|e| - 1] == ':' {
      var n := |e| - 1;
      assert e[..n] + [e[n]] == e;
      LettersConcat(e[..n], [e[n]]);
      LettersOne(e[n]);
    }
  }

  /** The key is what the source computes: the normalised label with its non-letters removed. */
  lemma CanonicalKeyIsNormalisedLetters(l: string)
    ensures CanonicalKey(l) == OnlyLowerLetters(NormLabel(l))
  {
    var c := Collapse(l);
    var d := DropTrailingColon(c);
    OnlyLowerLettersOfLower(Trim(d));
    LettersTrim(d);
    LettersDropTrailingColon(c);
    LettersCollapse(l);
  }

  /** Text made of lower-case letters only is its own normalised label. */
  lemma LettersAreNormal(s: string)
    requires forall i :: 0 <= i < |s| ==> 'a' <= s[i] <= 'z'
    ensures NormLabel(s) == s
  {
    assert SingleSpaced(s);
    CollapseSingleSpaced(s);
    assert TrimEnd(s) == s;
    assert DropTrailingColon(s) == s;
    assert Trimmed(s);
    assert Lower(s) == s;
  }

  /** A canonical key is its own canonical key and its own normalised label. */
  lemma CanonicalKeyIdempotent(l: string)
    ensures CanonicalKey(CanonicalKey(l)) == CanonicalKey(l)
    ensures NormLabel(CanonicalKey(l)) == CanonicalKey(l)
  {
    var k := CanonicalKey(l);
    LettersAreNormal(k);
    LettersFixed(k);
  }

  /**
   * A label that is already normal (trimmed, single-spaced, lower-case, not ending in a colon)
   * is its own normal form, and so is the same label followed by a colon: "workload:" and
   * "workload" name the same fact.
   */
  lemma NormLabelColon(x: string)
    requires x != [] && Trimmed(x) && SingleSpaced(x) && Lower(x) == x && x[|x| - 1] != ':'
    ensures NormLabel(x) == x
    ensures NormLabel(x + ":") == x
  {
    CollapseSingleSpaced(x);
    assert TrimEnd(x) == x;
    assert DropTrailingColon(x) == x;
    var y := x + ":";
    assert SingleSpaced(":");
    SingleSpacedConcat(x, ":");
    CollapseSingleSpaced(y);
    assert TrimEnd(y) == y;
    assert y[..|y| - 1] == x;
    assert DropTrailingColon(y) == x;
  }

  // ---------------------------------------------------------------- ordered maps

  /**
   * A JavaScript object used as a string-keyed map, as the list of its properties in
   * `Object.keys` order: a new key goes at the end, an assignment to an existing key keeps
   * its place.
   */
  datatype Entry = Entry(key: string, value: string)

  function Keys(m: seq<Entry>): (ks: seq<string>)
    ensures |ks| == |m|
    ensures forall i :: 0 <= i < |m| ==> ks[i] == m[i].key
  {
    seq(|m|, i requires 0 <= i < |m| => m[i].key)
  }

  predicate Distinct(ks: seq<string>) {
    forall i, j :: 0 <= i < j < |ks| ==> ks[i] != ks[j]
  }

  predicate KeysDistinct(m: seq<Entry>) {
    Distinct(Keys(m))
  }

  /** `m[k]`: the value of the entry with key `k`, if there is one. */
  function Lookup(m: seq<Entry>, k: string): (r: Option<string>)
    ensures r.Some? <==> k in Keys(m)
    ensures r.Some? ==> Entry(k, r.value) in m
    decreases |m|
  {
    if m == [] then None
    else if m[0].key == k then Some(m[0].value)
    else
      assert Keys(m) == [m[0].key] + Keys(m[1..]);
      Lookup(m[1..], k)
  }

  /** `m[k] = v`. */
  function Put(m: seq<Entry>, k: string, v: string): seq<Entry>
    decreases |m|
  {
    if m == [] then [Entry(k, v)]
    else if m[0].key == k then [Entry(k, v)] + m[1..]
    else [m[0]] + Put(m[1..], k, v)
  }

  lemma KeysCons(e: Entry, m: seq<Entry>)
    ensures Keys([e] + m) == [e.key] + Keys(m)
  {
  }

  /** After `m[k] = v`, `m[k]` is `v` and every other key reads as before. */
  lemma {:induction false} PutLookup(m: seq<Entry>, k: string, v: string, k': string)
    ensures Lookup(Put(m, k, v), k') == if k' == k then Some(v) else Lookup(m, k')
    decreases |m|
  {
    if m != [] && m[0].key != k {
      PutLookup(m[1..], k, v, k');
      assert ([m[0]] + Put(m[1..], k, v))[1..] == Put(m[1..], k, v);
    }
  }

  /** An existing key keeps its place; a new key goes last. */
  lemma {:induction false} PutKeys(m: seq<Entry>, k: string, v: string)
    ensures Keys(Put(m, k, v)) == if k in Keys(m) then Keys(m) else Keys(m) + [k]
    decreases |m|
  {
    if m == [] {
    } else if m[0].key == k {
      KeysCons(Entry(k, v), m[1..]);
      KeysCons(m[0], m[1..]);
      assert m == [m[0]] + m[1..];
    } else {
      PutKeys(m[1..], k, v);
      KeysCons(m[0], Put(m[1..], k, v));
      KeysCons(m[0], m[1..]);
      assert m == [m[0]] + m[1..];
    }
  }

  /** Every entry after `m[k] = v` is an old entry or the new one. */
  lemma {:induction false} PutEntries(m: seq<Entry>, k: string, v: string)
    ensures forall e :: e in Put(m, k, v) ==> e in m || e == Entry(k, v)
    decreases |m|
  {
    if m != [] && m[0].key != k {
      PutEntries(m[1..], k, v);
    }
  }

  /** Assignment never makes two properties share a key. */
  lemma PutDistinct(m: seq<Entry>, k: string, v: string)
    requires KeysDistinct(m)
    ensures KeysDistinct(Put(m, k, v))
  {
    PutKeys(m, k, v);
    var ks := Keys(m);
    if k !in ks {
      var ks' := ks + [k];
      forall i, j | 0 <= i < j < |ks'| ensures ks'[i] != ks'[j] {
        if j == |ks| { assert ks'[i] == ks[i]; }
      }
    }
  }

  /** `m[k] = v` for every entry of `ws`, first to last. */
  function Apply(m: seq<Entry>, ws: seq<Entry>): seq<Entry>
    decreases |ws|
  {
    if ws == [] then m else Apply(Put(m, ws[0].key, ws[0].value), ws[1..])
  }

  /** The value the last assignment in `ws` gives key `k`, if any assigns it. */
  function LastWrite(ws: seq<Entry>, k: string): (r: Option<string>)
    ensures r.Some? ==> Entry(k, r.value) in ws
    ensures r.None? ==> forall i :: 0 <= i < |ws| ==> ws[i].key != k
    decreases |ws|
  {
    if ws == [] then None
    else
      var later := LastWrite(ws[1..], k);
      if later.Some? then later
      else if ws[0].key == k then Some(ws[0].value)
      else None
  }

  lemma {:induction false} ApplyAppend(m: seq<Entry>, a: seq<Entry>, b: seq<Entry>)
    ensures Apply(m, a + b) == Apply(Apply(m, a), b)
    decreases |a|
  {
    if a != [] {
      ApplyAppend(Put(m, a[0].key, a[0].value), a[1..], b);
      assert (a + b)[0] == a[0] && (a + b)[1..] == a[1..] + b;
    } else {
      assert a + b == b;
    }
  }

  /** After a run of assignments a key reads as its last assignment, or as before if none. */
  lemma {:induction false} ApplyLookup(m: seq<Entry>, ws: seq<Entry>, k: string)
    ensures Lookup(Apply(m, ws), k) == if LastWrite(ws, k).Some? then LastWrite(ws, k) else Lookup(m, k)
    decreases |ws|
  {
    if ws != [] {
      ApplyLookup(Put(m, ws[0].key, ws[0].value), ws[1..], k);
      PutLookup(m, ws[0].key, ws[0].value, k);
    }
  }

  /** Keys already present keep their places; new keys only ever go after them. */
  lemma {:induction false} ApplyKeepsOrder(m: seq<Entry>, ws: seq<Entry>)
    ensures Keys(m) <= Keys(Apply(m, ws))
    decreases |ws|
  {
    if ws != [] {
      PutKeys(m, ws[0].key, ws[0].value);
      ApplyKeepsOrder(Put(m, ws[0].key, ws[0].value), ws[1..]);
    }
  }

  /** A non-blank value without surrounding whitespace. */
  predicate GoodValue(v: string) {
    v != [] && Trimmed(v)
  }

  /** No key twice and only good values: what every map built here satisfies. */
  predicate WellFormed(m: seq<Entry>) {
    KeysDistinct(m) && forall e :: e in m ==> GoodValue(e.value)
  }

  lemma {:induction false} ApplyWellFormed(m: seq<Entry>, ws: seq<Entry>)
    requires WellFormed(m)
    requires forall w :: w in ws ==> GoodValue(w.value)
    ensures WellFormed(Apply(m, ws))
    decreases |ws|
  {
    if ws != [] {
      PutDistinct(m, ws[0].key, ws[0].value);
      PutEntries(m, ws[0].key, ws[0].value);
      assert ws[0] in ws;
      assert forall w :: w in ws[1..] ==> w in ws;
      ApplyWellFormed(Put(m, ws[0].key, ws[0].value), ws[1..]);
    }
  }

  /**
   * A map built from nothing by a run of assignments: each key present is one some assignment
   * wrote, with the value of its last assignment; no key occurs twice; good values give a
   * well-formed map.
   */
  lemma BuiltMap(ws: seq<Entry>, k: string)
    ensures Lookup(Apply([], ws), k) == LastWrite(ws, k)
    ensures k in Keys(Apply([], ws)) <==> exists i :: 0 <= i < |ws| && ws[i].key == k
    ensures (forall w :: w in ws ==> GoodValue(w.value)) ==> WellFormed(Apply([], ws))
  {
    ApplyLookup([], ws, k);
    var r := LastWrite(ws, k);
    if r.Some? {
      var i :| 0 <= i < |ws| && ws[i] == Entry(k, r.value);
    }
    if forall w :: w in ws ==> GoodValue(w.value) {
      ApplyWellFormed([], ws);
    }
  }

  // ---------------------------------------------------------------- dt/dd map

  /** A `dt` element's text and the text of the element right after it when that is a `dd`. */
  datatype DtDd = DtDd(dt: string, dd: Option<string>)

  /**
   * The assignments the dt/dd loop's callback makes for one `dt`: none when the label is
   * blank, there is no `dd` or its text is blank; otherwise the value under the label's
   * canonical key, then under the label itself.
   */
  function DtWrites(e: DtDd): seq<Entry> {
    LabelWrites(NormLabel(e.dt), if e.dd.Some? then Some(Trim(e.dd.value)) else None)
  }

  /** The writes for a normalised label and the trimmed `dd` text, if there is a `dd`. */
  function LabelWrites(name: string, val: Option<string>): seq<Entry> {
    if name == [] || val.None? || val.value == [] then []
    else [Entry(CanonicalKey(name), val.value), Entry(name, val.value)]
  }

  /** All the assignments of the dt/dd loop, in document order. */
  function DlWrites(dts: seq<DtDd>): seq<Entry>
    decreases |dts|
  {
    if dts == [] then [] else DlWrites(dts[..|dts| - 1]) + DtWrites(dts[|dts| - 1])
  }

  /** `dlValues`. */
  function DlMap(dts: seq<DtDd>): seq<Entry> {
    Apply([], DlWrites(dts))
  }

  /** The dt/dd loop (server.js:405-417). */
  method BuildDlMap(dts: seq<DtDd>) returns (m: seq<Entry>)
    ensures m == DlMap(dts)
  {
    m := [];
    var i := 0;
    while i < |dts|
      invariant 0 <= i <= |dts|
      invariant m == Apply([], DlWrites(dts[..i]))
    {
      DlMapStep(dts, i);
      m := AddDt(m, dts[i]);
      i := i + 1;
    }
    assert dts[..|dts|] == dts;
  }

  lemma DlMapStep(dts: seq<DtDd>, i: nat)
    requires i < |dts|
    ensures Apply(Apply([], DlWrites(dts[..i])), DtWrites(dts[i])) == Apply([], DlWrites(dts[..i + 1]))
  {
    assert dts[..i + 1] == dts[..i] + [dts[i]];
    DlWritesSnoc(dts[..i], dts[i]);
    ApplyAppend([], DlWrites(dts[..i]), DtWrites(dts[i]));
  }

  /** The loop's callback for one `dt`; a blank label, a missing `dd` or a blank value returns early. */
  method AddDt(m0: seq<Entry>, e: DtDd) returns (m: seq<Entry>)
    ensures m == Apply(m0, DtWrites(e))
  {
    var name := NormLabel(e.dt);
    var val := if e.dd.Some? then Some(Trim(e.dd.value)) else None;
    m := AddLabel(m0, name, val);
  }

  /** Skips a blank label or a missing or blank value; otherwise stores the canonical key, then the label. */
  method AddLabel(m0: seq<Entry>, name: string, val: Option<string>) returns (m: seq<Entry>)
    ensures m == Apply(m0, LabelWrites(name, val))
  {
    m := m0;
    if name == [] || val.None? || val.value == [] { return; }
    var canon := CanonicalKey(name);
    m := Put(m, canon, val.value);
    m := Put(m, name, val.value);
    ApplyPair(m0, Entry(canon, val.value), Entry(name, val.value));
  }

  lemma ApplyPair(m: seq<Entry>, a: Entry, b: Entry)
    ensures Apply(m, [a, b]) == Put(Put(m, a.key, a.value), b.key, b.value)
  {
    var m1 := Put(m, a.key, a.value);
    assert [b][1..] == [];
    assert Apply(m1, [b]) == Apply(Put(m1, b.key, b.value), []);
    assert [a, b][1..] == [b];
    assert Apply(m, [a, b]) == Apply(m1, [b]);
  }

  lemma DtWritesGood(e: DtDd)
    ensures forall w :: w in DtWrites(e) ==> GoodValue(w.value)
  {
    var val := if e.dd.Some? then Some(Trim(e.dd.value)) else None;
    LabelWritesGood(NormLabel(e.dt), val);
  }

  lemma LabelWritesGood(name: string, val: Option<string>)
    requires val.Some? ==> Trimmed(val.value)
    ensures forall w :: w in LabelWrites(name, val) ==> GoodValue(w.value)
  {
  }

  lemma DlWritesSnoc(dts: seq<DtDd>, e: DtDd)
    ensures DlWrites(dts + [e]) == DlWrites(dts) + DtWrites(e)
  {
    assert (dts + [e])[..|dts|] == dts;
  }

  lemma {:induction false} DlWritesGood(dts: seq<DtDd>)
    ensures forall w :: w in DlWrites(dts) ==> GoodValue(w.value)
    decreases |dts|
  {
    if dts != [] {
      DlWritesGood(dts[..|dts| - 1]);
      DtWritesGood(dts[|dts| - 1]);
    }
  }

  /**
   * The dt/dd map holds no key twice and no blank value, and each key reads as the last `dt`
   * that wrote it.
   */
  lemma DlMapSpec(dts: seq<DtDd>, k: string)
    ensures WellFormed(DlMap(dts))
    ensures Lookup(DlMap(dts), k) == LastWrite(DlWrites(dts), k)
  {
    DlWritesGood(dts);
    BuiltMap(DlWrites(dts), k);
  }

  /**
   * A later `dt` with the same label wins: after it, the label reads as its `dd` text, and so
   * does the label's canonical key.
   */
  lemma DlMapLastWins(dts: seq<DtDd>, e: DtDd)
    requires NormLabel(e.dt) != [] && e.dd.Some? && Trim(e.dd.value) != []
    ensures Lookup(DlMap(dts + [e]), NormLabel(e.dt)) == Some(Trim(e.dd.value))
    ensures Lookup(DlMap(dts + [e]), CanonicalKey(NormLabel(e.dt))) == Some(Trim(e.dd.value))
  {
    var name := NormLabel(e.dt);
    var val := Trim(e.dd.value);
    DlWritesSnoc(dts, e);
    assert DtWrites(e) == LabelWrites(name, Some(val)) == [Entry(CanonicalKey(name), val), Entry(name, val)];
    EndsWithPair(DlWrites(dts), Entry(CanonicalKey(name), val), Entry(name, val));
  }

  /** After a run that ends with two writes of one value, both written keys read as that value. */
  lemma EndsWithPair(ws: seq<Entry>, a: Entry, b: Entry)
    requires a.value == b.value
    ensures Lookup(Apply([], ws + [a, b]), a.key) == Some(a.value)
    ensures Lookup(Apply([], ws + [a, b]), b.key) == Some(b.value)
  {
    BuiltMap(ws + [a, b], a.key);
    BuiltMap(ws + [a, b], b.key);
    LastWriteSuffix(ws, [a, b], a.key);
    LastWriteSuffix(ws, [a, b], b.key);
    assert [a, b][1..] == [b];
    assert [b][1..] == [];
  }

  /** A write in the later part of a run hides every earlier write to the same key. */
  lemma {:induction false} LastWriteSuffix(a: seq<Entry>, b: seq<Entry>, k: string)
    ensures LastWrite(a + b, k) == if LastWrite(b, k).Some? then LastWrite(b, k) else LastWrite(a, k)
    decreases |a|
  {
    if a != [] {
      LastWriteSuffix(a[1..], b, k);
      assert (a + b)[1..] == a[1..] + b;
    } else {
      assert a + b == b;
    }
  }

  // ---------------------------------------------------------------- "Label: value" blocks

  predicate NoLineBreak(s: string) {
    forall i :: 0 <= i < |s| ==> !IsLineTerminator(s[i])
  }

  /**
   * `t.match(/^\s*LABEL\s*:?\s*(.+)$/i)` with the capture trimmed, on the trimmed text of a
   * block (the only text the scan gives it). After the label come whitespace, at most one
   * colon and whitespace, and the capture is the rest, which `.` must reach to the end
   * without a line break. When nothing follows the colon, backtracking gives the capture
   * ":" itself.
   */
  function PairValue(t: string, name: string): Option<string> {
    if !StartsWithIgnoreCase(t, name) then None else AfterLabel(t[|name|..])
  }

  /** What the pattern captures from the text that follows the label. */
  function AfterLabel(x: string): Option<string> {
    var r1 := TrimStart(x);
    var r3 := TrimStart(SkipColon(r1));
    if r3 != [] then (if NoLineBreak(r3) then Some(r3) else None)
    else if r1 == ":" then Some(":")
    else None
  }

  /** The optional colon after the label. */
  function SkipColon(r: string): string {
    if r != [] && r[0] == ':' then r[1..] else r
  }

  /** A block gets scanned: it is not blank, has at most 600 characters and has a colon. */
  predicate Scannable(t: string) {
    t != [] && |t| <= 600 && ':' in t
  }

  /** The assignments `out[canonicalKey(label)] = m[1].trim()` for one block, label by label. */
  function LabelHits(t: string, names: seq<string>): seq<Entry>
    decreases |names|
  {
    if names == [] then []
    else
      var last := names[|names| - 1];
      var v := PairValue(t, last);
      LabelHits(t, names[..|names| - 1]) + (if v.Some? then [Entry(CanonicalKey(last), v.value)] else [])
  }

  function BlockWrites(b: string, names: seq<string>): seq<Entry> {
    var t := Trim(b);
    if Scannable(t) then LabelHits(t, names) else []
  }

  /** All the assignments of `scanPairs`, block by block in document order. */
  function PairWrites(blocks: seq<string>, names: seq<string>): seq<Entry>
    decreases |blocks|
  {
    if blocks == [] then []
    else PairWrites(blocks[..|blocks| - 1], names) + BlockWrites(blocks[|blocks| - 1], names)
  }

  /** What `scanPairs(labels)` returns for the texts of the scanned elements. */
  function Pairs(blocks: seq<string>, names: seq<string>): seq<Entry> {
    Apply([], PairWrites(blocks, names))
  }

  /** `scanPairs` (server.js:420-438), over the trimmed texts of the `p`, `li` and `div` elements. */
  method ScanPairs(blocks: seq<string>, names: seq<string>) returns (out: seq<Entry>)
    ensures out == Pairs(blocks, names)
  {
    out := [];
    var i := 0;
    while i < |blocks|
      invariant 0 <= i <= |blocks|
      invariant out == Apply([], PairWrites(blocks[..i], names))
    {
      PairsStep(blocks, names, i);
      out := ScanBlock(out, blocks[i], names);
      i := i + 1;
    }
    assert blocks[..|blocks|] == blocks;
  }

  lemma PairsStep(blocks: seq<string>, names: seq<string>, i: nat)
    requires i < |blocks|
    ensures Apply(Apply([], PairWrites(blocks[..i], names)), BlockWrites(blocks[i], names))
         == Apply([], PairWrites(blocks[..i + 1], names))
  {
    assert blocks[..i + 1][..i] == blocks[..i];
    ApplyAppend([], PairWrites(blocks[..i], names), BlockWrites(blocks[i], names));
  }

  /** One element of the scan: skipped unless scannable, else every label tried in turn. */
  method ScanBlock(out0: seq<Entry>, b: string, names: seq<string>) returns (out: seq<Entry>)
    ensures out == Apply(out0, BlockWrites(b, names))
  {
    out := out0;
    var t := Trim(b);
    if t == [] || |t| > 600 || ':' !in t {
      return;
    }
    var j := 0;
    while j < |names|
      invariant 0 <= j <= |names|
      invariant out == Apply(out0, LabelHits(t, names[..j]))
    {
      var v := PairValue(t, names[j]);
      LabelHitsStep(out0, t, names, j);
      if v.Some? {
        out := Put(out, CanonicalKey(names[j]), v.value);
      }
      j := j + 1;
    }
    assert names[..|names|] == names;
  }

  lemma LabelHitsStep(out0: seq<Entry>, t: string, names: seq<string>, j: nat)
    requires j < |names|
    ensures var before := Apply(out0, LabelHits(t, names[..j]));
      var v := PairValue(t, names[j]);
      Apply(out0, LabelHits(t, names[..j + 1]))
        == if v.Some? then Put(before, CanonicalKey(names[j]), v.value) else before
  {
    assert names[..j + 1][..j] == names[..j];
    var v := PairValue(t, names[j]);
    var hit := if v.Some? then [Entry(CanonicalKey(names[j]), v.value)] else [];
    ApplyAppend(out0, LabelHits(t, names[..j]), hit);
    if v.Some? {
      assert hit[1..] == [];
    }
  }

  /** Text that does not end in whitespace keeps a good value after the colon and blanks. */
  lemma SkipColonTail(r1: string)
    requires r1 == [] || !IsSpace(r1[|r1| - 1])
    ensures TrimStart(SkipColon(r1)) != [] ==> GoodValue(TrimStart(SkipColon(r1)))
  {
    var r2 := SkipColon(r1);
    if TrimStart(r2) != [] {
      TrimStartLast(r2);
    }
  }

  /** Skipping the whitespace and the colon after the label keeps the end of the text. */
  lemma AfterLabelTail(x: string)
    requires x == [] || !IsSpace(x[|x| - 1])
    ensures var r := TrimStart(SkipColon(TrimStart(x)));
      r != [] ==> GoodValue(r)
  {
    if TrimStart(x) != [] {
      TrimStartLast(x);
    }
    SkipColonTail(TrimStart(x));
  }

  lemma AfterLabelGood(x: string)
    requires x == [] || !IsSpace(x[|x| - 1])
    ensures AfterLabel(x).Some? ==> GoodValue(AfterLabel(x).value) && NoLineBreak(AfterLabel(x).value)
  {
    AfterLabelValueGood(x);
    AfterLabelNoLineBreak(x);
  }

  lemma AfterLabelValueGood(x: string)
    requires x == [] || !IsSpace(x[|x| - 1])
    ensures AfterLabel(x).Some? ==> GoodValue(AfterLabel(x).value)
  {
    var r3 := TrimStart(SkipColon(TrimStart(x)));
    if r3 != [] {
      AfterLabelTail(x);
      assert AfterLabel(x).Some? ==> AfterLabel(x).value == r3;
    } else if TrimStart(x) == ":" {
      assert AfterLabel(x) == Some(":");
      assert !IsSpace(':');
    }
  }

  lemma AfterLabelNoLineBreak(x: string)
    ensures AfterLabel(x).Some? ==> NoLineBreak(AfterLabel(x).value)
  {
    if TrimStart(SkipColon(TrimStart(x))) == [] && TrimStart(x) == ":" {
      assert AfterLabel(x) == Some(":");
      assert NoLineBreak(":") by {
        forall i | 0 <= i < |":"| ensures !IsLineTerminator(":"[i]) {
          assert ":"[i] == ':';
        }
      }
    }
  }

  /**
   * On trimmed text a captured value is non-blank, has no whitespace at either end and no
   * line break.
   */
  lemma PairValueGood(t: string, name: string)
    requires Trimmed(t)
    ensures var v := PairValue(t, name);
      v.Some? ==> GoodValue(v.value) && NoLineBreak(v.value)
  {
    if StartsWithIgnoreCase(t, name) {
      var x := t[|name|..];
      assert x == [] || x[|x| - 1] == t[|t| - 1];
      AfterLabelGood(x);
    }
  }

  /** "Label: value" gives back the value, whatever the case of the label in the text. */
  lemma PairValueRoundTrip(name: string, v: string)
    requires v != [] && Trimmed(v) && NoLineBreak(v)
    ensures PairValue(name + ": " + v, name) == Some(v)
  {
    var t := name + ": " + v;
    assert t[..|name|] == name;
    assert t[|name|..] == ": " + v;
    var r1 := TrimStart(": " + v);
    assert r1 == ": " + v;
    assert r1[1..] == " " + v;
    assert (" " + v)[1..] == v;
    assert TrimStart(" " + v) == TrimStart(v) == v;
  }

  /** The canonical keys of a list of labels, in order. */
  function Canonicals(names: seq<string>): (cans: seq<string>)
    ensures |cans| == |names|
    decreases |names|
  {
    if names == [] then [] else Canonicals(names[..|names| - 1]) + [CanonicalKey(names[|names| - 1])]
  }

  lemma {:induction false} CanonicalsAt(names: seq<string>, j: nat)
    requires j < |names|
    ensures Canonicals(names)[j] == CanonicalKey(names[j])
    decreases |names|
  {
    var n := |names| - 1;
    if j < n {
      CanonicalsAt(names[..n], j);
      assert names[..n][j] == names[j];
    }
  }

  /** The labels' canonical keys are the only keys the scan writes, and it writes good values. */
  lemma {:induction false} LabelHitsShape(t: string, names: seq<string>)
    requires Trimmed(t)
    ensures forall w :: w in LabelHits(t, names) ==>
      w.key in Canonicals(names) && GoodValue(w.value) && NoLineBreak(w.value)
    decreases |names|
  {
    if names != [] {
      var n := |names| - 1;
      LabelHitsShape(t, names[..n]);
      PairValueGood(t, names[n]);
    }
  }

  lemma {:induction false} PairWritesShape(blocks: seq<string>, names: seq<string>)
    ensures forall w :: w in PairWrites(blocks, names) ==>
      w.key in Canonicals(names) && GoodValue(w.value) && NoLineBreak(w.value)
    decreases |blocks|
  {
    if blocks != [] {
      var b := blocks[|blocks| - 1];
      PairWritesShape(blocks[..|blocks| - 1], names);
      if Scannable(Trim(b)) {
        LabelHitsShape(Trim(b), names);
      }
    }
  }

  /**
   * The scanned pairs hold no key twice and no blank value; every key is the canonical key of
   * one of the labels; every value is free of line breaks; and each key reads as its last
   * match in document order.
   */
  lemma PairsSpec(blocks: seq<string>, names: seq<string>, k: string)
    ensures WellFormed(Pairs(blocks, names))
    ensures forall e :: e in Pairs(blocks, names) ==> e.key in Canonicals(names) && NoLineBreak(e.value)
    ensures Lookup(Pairs(blocks, names), k) == LastWrite(PairWrites(blocks, names), k)
  {
    var ws := PairWrites(blocks, names);
    PairWritesShape(blocks, names);
    BuiltMap(ws, k);
    forall e | e in Pairs(blocks, names)
      ensures e.key in Canonicals(names) && NoLineBreak(e.value)
    {
      var i :| 0 <= i < |Pairs(blocks, names)| && Pairs(blocks, names)[i] == e;
      assert e.key in Keys(Pairs(blocks, names));
      BuiltMap(ws, e.key);
      var j :| 0 <= j < |ws| && ws[j].key == e.key;
      assert ws[j] in ws;
      var v := LastWrite(ws, e.key);
      assert Entry(e.key, v.value) in ws;
      assert v == Some(e.value) by {
        assert Lookup(Pairs(blocks, names), e.key) == Some(e.value) by {
          assert WellFormed(Pairs(blocks, names));
          LookupDistinct(Pairs(blocks, names), i);
        }
      }
    }
  }

  /** In a map without repeated keys, each entry is what its key reads as. */
  lemma {:induction false} LookupDistinct(m: seq<Entry>, i: nat)
    requires KeysDistinct(m) && i < |m|
    ensures Lookup(m, m[i].key) == Some(m[i].value)
    decreases |m|
  {
    if i > 0 {
      assert Keys(m)[0] != Keys(m)[i];
      assert KeysDistinct(m[1..]) by {
        forall a, b | 0 <= a < b < |m[1..]| ensures Keys(m[1..])[a] != Keys(m[1..])[b] {
          assert Keys(m)[a + 1] != Keys(m)[b + 1];
        }
      }
      LookupDistinct(m[1..], i - 1);
    }
  }
}
