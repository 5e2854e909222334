/**
 * `extractDescription` (server.js:480-527): the text under recognised headings of the main
 * area, or else its longest wordy paragraph.
 */
module Descriptions {
  import opened Wrappers
  import opened Text

  // ---------------------------------------------------------------- the longest paragraph

  /** The number of whitespace runs in `s`. */
  function Runs(s: string): nat
    decreases |s|
  {
    if s == [] then 0
    else if IsSpace(s[0]) then
      assert TrimStart(s) == TrimStart(s[1..]);
      1 + Runs(TrimStart(s))
    else Runs(s[1..])
  }

  /** `t.split(/\s+/).length`: one piece more than there are whitespace runs. */
  function Pieces(t: string): nat {
    Runs(t) + 1
  }

  /** A block qualifies as the description when it has more than 20 pieces. */
  predicate Wordy(t: string) {
    Pieces(t) > 20
  }

  /** `text(el)` of each element: its text with the ends trimmed. */
  function Trims(texts: seq<string>): (ts: seq<string>)
    ensures |ts| == |texts|
    ensures forall k :: 0 <= k < |texts| ==> ts[k] == Trim(texts[k])
    decreases |texts|
  {
    if texts == [] then []
    else
      var n := |texts| - 1;
      assert forall k :: 0 <= k < n ==> texts[..n][k] == texts[k];
      Trims(texts[..n]) + [Trim(texts[n])]
  }

  /**
   * The fallback: over the texts of the paragraphs and list items in document order, the
   * longest wordy one; a later text of the same length does not replace it.
   */
  function Longest(ts: seq<string>): string
    decreases |ts|
  {
    if ts == [] then ""
    else
      var best := Longest(ts[..|ts| - 1]);
      var t := ts[|ts| - 1];
      if Wordy(t) && |t| > |best| then t else best
  }

  /** The loop over the elements, reading each one's text once. */
  method PickLongest(texts: seq<string>) returns (best: string)
    ensures best == Longest(Trims(texts))
  {
    best := "";
    var i := 0;
    while i < |texts|
      invariant i <= |texts|
      invariant best == Longest(Trims(texts[..i]))
    {
      TrimsSnoc(texts, i);
      var t := Trim(texts[i]);
      LongestSnoc(Trims(texts[..i]), t);
      if Wordy(t) && |t| > |best| {
        best := t;
      }
      i := i + 1;
    }
    assert texts[..|texts|] == texts;
  }

  lemma LongestSnoc(ts: seq<string>, t: string)
    ensures Longest(ts + [t]) == if Wordy(t) && |t| > |Longest(ts)| then t else Longest(ts)
  {
    assert (ts + [t])[..|ts|] == ts;
  }

  lemma TrimsSnoc(texts: seq<string>, i: nat)
    requires i < |texts|
    ensures Trims(texts[..i + 1]) == Trims(texts[..i]) + [Trim(texts[i])]
  {
    assert texts[..i + 1][..i] == texts[..i];
  }

  /** The description is "" or one of the texts, and a wordy one. */
  lemma {:induction false} LongestFrom(ts: seq<string>)
    ensures var best := Longest(ts);
      best == "" || exists k :: 0 <= k < |ts| && best == ts[k] && Wordy(best)
    decreases |ts|
  {
    if ts != [] {
      var n := |ts| - 1;
      var prev := ts[..n];
      LongestFrom(prev);
      var best := Longest(prev);
      if best != "" && Longest(ts) == best {
        var k :| 0 <= k < n && best == prev[k] && Wordy(best);
        assert prev[k] == ts[k];
      }
    }
  }

  /** No wordy text is longer than the description. */
  lemma {:induction false} LongestMax(ts: seq<string>, k: nat)
    requires k < |ts| && Wordy(ts[k])
    ensures |ts[k]| <= |Longest(ts)|
    decreases |ts|
  {
    var n := |ts| - 1;
    if k < n {
      assert ts[..n][k] == ts[k];
      LongestMax(ts[..n], k);
    }
  }

  /** Of the longest wordy texts, the first one is taken. */
  lemma {:induction false} LongestFirst(ts: seq<string>, k: nat)
    requires k < |ts| && Wordy(ts[k]) && |ts[k]| == |Longest(ts)|
    requires forall j :: 0 <= j < k ==> !(Wordy(ts[j]) && |ts[j]| == |ts[k]|)
    ensures Longest(ts) == ts[k]
    decreases |ts|
  {
    var n := |ts| - 1;
    var prev := ts[..n];
    if k < n {
      assert prev[k] == ts[k];
      LongestMax(prev, k);
      forall j | 0 <= j < k ensures !(Wordy(prev[j]) && |prev[j]| == |prev[k]|) {
        assert prev[j] == ts[j];
      }
      LongestFirst(prev, k);
    } else {
      LongestFrom(prev);
      if Longest(prev) != "" {
        var j :| 0 <= j < n && Longest(prev) == prev[j] && Wordy(Longest(prev));
        assert prev[j] == ts[j];
        LongestMax(prev, j);
      }
    }
  }

  // ---------------------------------------------------------------- sections

  /**
   * An element after a heading, as the walk sees it: its tag name, the texts of the `p` and
   * `li` elements inside it, and its own text.
   */
  datatype Sibling = Sibling(tagName: string, items: seq<string>, text: string)

  /** An `h2` or `h3` of the main area: its text and the element siblings that follow it. */
  datatype SectionHeading = SectionHeading(text: string, following: seq<Sibling>)

  /** `/^H2|H3$/.test(tagName)`: the tag name starts with "H2" or ends with "H3". */
  predicate StopsWalk(tagName: string) {
    || (|tagName| >= 2 && tagName[..2] == "H2")
    || (|tagName| >= 2 && tagName[|tagName| - 2..] == "H3")
  }

  /**
   * What one sibling adds: the non-empty texts of the paragraphs and list items inside it,
   * or, when it holds none, its own text if that has more than five pieces.
   */
  function SiblingChunks(n: Sibling): seq<string> {
    if n.items != [] then NonBlank(n.items)
    else
      var t := Trim(n.text);
      if t != "" && Pieces(t) > 5 then [t] else []
  }

  /** The chunks of the siblings up to the next heading. */
  function Chunks(sibs: seq<Sibling>): seq<string>
    decreases |sibs|
  {
    if sibs == [] || StopsWalk(sibs[0].tagName) then []
    else SiblingChunks(sibs[0]) + Chunks(sibs[1..])
  }

  /** The heading words looked for, lower case; the test ignores ASCII case. */
  const WantedWords: seq<string> := [
    "introduction", "about the job", "ihre aufgaben", "aufgaben", "ihr profil", "profil",
    "unser angebot", "angebot", "responsibilities", "your tasks", "requirements", "what we offer"]

  /** The text contains one of the words, ASCII case ignored. */
  predicate ContainsAny(t: string, words: seq<string>)
    decreases |words|
  {
    words != [] && (ContainsIgnoreCase(t, words[0]) || ContainsAny(t, words[1..]))
  }

  lemma {:induction false} ContainsAnyIff(t: string, words: seq<string>)
    ensures ContainsAny(t, words) <==> exists i :: 0 <= i < |words| && ContainsIgnoreCase(t, words[i])
    decreases |words|
  {
    if words != [] {
      ContainsAnyIff(t, words[1..]);
      if ContainsAny(t, words[1..]) {
        var i :| 0 <= i < |words[1..]| && ContainsIgnoreCase(t, words[1..][i]);
        assert words[i + 1] == words[1..][i];
      }
      if exists i :: 0 <= i < |words| && ContainsIgnoreCase(t, words[i]) {
        var i :| 0 <= i < |words| && ContainsIgnoreCase(t, words[i]);
        if i > 0 {
          assert words[1..][i - 1] == words[i];
        }
      }
    }
  }

  /** `wanted.test(ht)`: the heading text contains one of the words. */
  predicate Wanted(ht: string) {
    ContainsAny(ht, WantedWords)
  }

  /** `collectUntilNextHeading`: the chunks after a heading, one per line. */
  function Body(h: SectionHeading): string {
    Join(Chunks(h.following), "\n")
  }

  /** A heading yields a section when it is wanted and its body is longer than 60 characters. */
  predicate Yields(h: SectionHeading) {
    Wanted(Trim(h.text)) && |Body(h)| > 60
  }

  /** What a heading contributes: its trimmed text and its body, when it yields a section. */
  function SectionOf(h: SectionHeading): Option<(string, string)> {
    if Yields(h) then Some((Trim(h.text), Body(h))) else None
  }

  /** The values `f` gives for the elements of `xs`, in order, skipping the `None`s. */
  function Found<X, Y>(xs: seq<X>, f: X -> Option<Y>): seq<Y>
    decreases |xs|
  {
    if xs == [] then []
    else
      var y := f(xs[|xs| - 1]);
      Found(xs[..|xs| - 1], f) + (if y.Some? then [y.value] else [])
  }

  /** The text and the body of every heading that yields a section, in order. */
  function SectionPairs(hs: seq<SectionHeading>): seq<(string, string)> {
    Found(hs, SectionOf)
  }

  /** `sections`: each pair's text, then its body. */
  function Flatten(ps: seq<(string, string)>): (s: seq<string>)
    ensures |s| == 2 * |ps|
    ensures forall k :: 0 <= k < |ps| ==> s[2 * k] == ps[k].0 && s[2 * k + 1] == ps[k].1
    decreases |ps|
  {
    if ps == [] then []
    else
      var n := |ps| - 1;
      assert forall k :: 0 <= k < n ==> ps[..n][k] == ps[k];
      Flatten(ps[..n]) + [ps[n].0, ps[n].1]
  }

  /** The description: the sections separated by blank lines, or else the longest paragraph. */
  function Description(hs: seq<SectionHeading>, paragraphs: seq<string>): string {
    var ps := SectionPairs(hs);
    if ps != [] then Join(Flatten(ps), "\n\n") else Longest(Trims(paragraphs))
  }

  /** The walk over the siblings, stopping at the next heading. */
  method CollectUntilNextHeading(sibs: seq<Sibling>) returns (body: string)
    ensures body == Join(Chunks(sibs), "\n")
  {
    var chunks: seq<string> := [];
    var i := 0;
    while i < |sibs|
      invariant i <= |sibs|
      invariant chunks + Chunks(sibs[i..]) == Chunks(sibs)
    {
      var node := sibs[i];
      if StopsWalk(node.tagName) {
        ChunksAtHeading(sibs, i, chunks);
        break;
      }
      chunks := ChunkTurn(sibs, i, chunks);
      i := i + 1;
    }
    ChunksAtHeading(sibs, i, chunks);
    body := Join(chunks, "\n");
  }

  /** One sibling of the walk that is not a heading adds its chunks. */
  method ChunkTurn(sibs: seq<Sibling>, i: nat, chunks: seq<string>) returns (next: seq<string>)
    requires i < |sibs| && !StopsWalk(sibs[i].tagName)
    requires chunks + Chunks(sibs[i..]) == Chunks(sibs)
    ensures next + Chunks(sibs[i + 1..]) == Chunks(sibs)
  {
    ChunksStep(sibs, i, chunks);
    next := AddChunks(chunks, sibs[i]);
  }

  /** At a heading, or at the end, the walk has nothing left to collect. */
  lemma ChunksAtHeading(sibs: seq<Sibling>, i: nat, chunks: seq<string>)
    requires i <= |sibs| && (i < |sibs| ==> StopsWalk(sibs[i].tagName))
    ensures chunks + Chunks(sibs[i..]) == chunks
  {
    assert Chunks(sibs[i..]) == [];
  }

  /** One sibling's chunks move from what is left to what is collected. */
  lemma ChunksStep(sibs: seq<Sibling>, i: nat, chunks: seq<string>)
    requires i < |sibs| && !StopsWalk(sibs[i].tagName)
    ensures chunks + Chunks(sibs[i..]) == (chunks + SiblingChunks(sibs[i])) + Chunks(sibs[i + 1..])
  {
    assert sibs[i..][1..] == sibs[i + 1..];
    assert Chunks(sibs[i..]) == SiblingChunks(sibs[i]) + Chunks(sibs[i + 1..]);
  }

  /** One sibling's turn in the walk. */
  method AddChunks(chunks0: seq<string>, node: Sibling) returns (chunks: seq<string>)
    ensures chunks == chunks0 + SiblingChunks(node)
  {
    if node.items != [] {
      chunks := AddItems(chunks0, node.items);
    } else {
      chunks := chunks0;
      var t := Trim(node.text);
      if t != "" && Pieces(t) > 5 {
        chunks := chunks + [t];
      }
    }
  }

  /** `ps.forEach`: every paragraph or list item inside, trimmed, unless empty. */
  method AddItems(chunks0: seq<string>, items: seq<string>) returns (chunks: seq<string>)
    ensures chunks == chunks0 + NonBlank(items)
  {
    chunks := chunks0;
    var j := 0;
    while j < |items|
      invariant j <= |items|
      invariant chunks + NonBlank(items[j..]) == chunks0 + NonBlank(items)
    {
      NonBlankStep(items, j);
      var t := Trim(items[j]);
      var rest := NonBlank(items[j + 1..]);
      if t != "" {
        assert chunks + [t] + rest == chunks + ([t] + rest);
        chunks := chunks + [t];
      } else {
        assert [] + rest == rest;
      }
      j := j + 1;
    }
    assert chunks + NonBlank(items[j..]) == chunks + [];
  }

  lemma NonBlankStep(items: seq<string>, j: nat)
    requires j < |items|
    ensures NonBlank(items[j..]) == (if Trim(items[j]) == [] then [] else [Trim(items[j])]) + NonBlank(items[j + 1..])
  {
    assert items[j..][1..] == items[j + 1..];
  }

  /** `extractDescription`: the loop over the headings, then the join or the fallback. */
  method ExtractDescription(hs: seq<SectionHeading>, paragraphs: seq<string>) returns (d: string)
    ensures d == Description(hs, paragraphs)
  {
    var sections: seq<string> := [];
    ghost var ps: seq<(string, string)> := [];
    for k := 0 to |hs|
      invariant ps == SectionPairs(hs[..k]) && sections == Flatten(ps)
    {
      assert hs[..k + 1][..k] == hs[..k];
      ps, sections := HeadingTurn(hs[k], ps, sections);
    }
    assert hs[..|hs|] == hs;
    if |sections| > 0 {
      d := Join(sections, "\n\n");
    } else {
      d := PickLongest(paragraphs);
    }
  }

  /** One turn of the heading loop: a heading that yields a section adds its text and its body. */
  method HeadingTurn(h: SectionHeading, ghost ps0: seq<(string, string)>, sections0: seq<string>)
    returns (ghost ps: seq<(string, string)>, sections: seq<string>)
    requires sections0 == Flatten(ps0)
    ensures ps == ps0 + (if SectionOf(h).Some? then [SectionOf(h).value] else [])
    ensures sections == Flatten(ps)
  {
    ps, sections := ps0, sections0;
    var ht := Trim(h.text);
    if Wanted(ht) {
      var body := CollectUntilNextHeading(h.following);
      assert body == Body(h);
      if body != "" && |body| > 60 {
        assert SectionOf(h) == Some((ht, body));
        sections := sections + [ht, body];
        ps := ps + [(ht, body)];
        assert ps[..|ps| - 1] == ps0;
      } else {
        assert SectionOf(h) == None;
      }
    } else {
      assert SectionOf(h) == None;
    }
  }

  /** The walk never looks past the next heading: what follows it does not matter. */
  lemma {:induction false} ChunksStopAtHeading(pre: seq<Sibling>, h: Sibling, post: seq<Sibling>)
    requires StopsWalk(h.tagName)
    ensures Chunks(pre + [h] + post) == Chunks(pre)
    decreases |pre|
  {
    if pre == [] {
      assert pre + [h] + post == [h] + post;
    } else {
      assert (pre + [h] + post)[1..] == pre[1..] + [h] + post;
      ChunksStopAtHeading(pre[1..], h, post);
    }
  }

  /** Every chunk is a non-empty trimmed text. */
  lemma {:induction false} ChunksShape(sibs: seq<Sibling>)
    ensures forall k :: 0 <= k < |Chunks(sibs)| ==> Chunks(sibs)[k] != "" && Trimmed(Chunks(sibs)[k])
    decreases |sibs|
  {
    if sibs != [] && !StopsWalk(sibs[0].tagName) {
      ChunksShape(sibs[1..]);
    }
  }

  /** A join starts with the first part and is at least as long as every part. */
  lemma {:induction false} JoinParts(parts: seq<string>, sep: string)
    ensures parts != [] ==> parts[0] <= Join(parts, sep)
    ensures forall k :: 0 <= k < |parts| ==> |parts[k]| <= |Join(parts, sep)|
    decreases |parts|
  {
    if |parts| > 1 {
      JoinParts(parts[1..], sep);
      var j := Join(parts, sep);
      assert j == parts[0] + (sep + Join(parts[1..], sep));
      forall k | 1 <= k < |parts| ensures |parts[k]| <= |j| {
        assert parts[k] == parts[1..][k - 1];
      }
    }
  }

  /** Flattening works pair by pair. */
  lemma {:induction false} FlattenConcat(a: seq<(string, string)>, b: seq<(string, string)>)
    ensures Flatten(a + b) == Flatten(a) + Flatten(b)
    decreases |b|
  {
    if b == [] {
      assert a + b == a;
    } else {
      var n := |b| - 1;
      assert (a + b)[..|a + b| - 1] == a + b[..n];
      FlattenConcat(a, b[..n]);
    }
  }

  /** Joining a text and a body in front of further parts. */
  lemma JoinPair(x: string, y: string, rest: seq<string>, sep: string)
    ensures Join([x, y] + rest, sep) == x + sep + y + (if rest == [] then "" else sep + Join(rest, sep))
  {
    assert ([x, y] + rest)[1..] == [y] + rest;
    assert ([y] + rest)[1..] == rest;
  }

  /** Finding works element by element, in order. */
  lemma {:induction false} FoundConcat<X, Y>(a: seq<X>, b: seq<X>, f: X -> Option<Y>)
    ensures Found(a + b, f) == Found(a, f) + Found(b, f)
    decreases |b|
  {
    if b == [] {
      assert a + b == a;
    } else {
      var n := |b| - 1;
      assert (a + b)[..|a + b| - 1] == a + b[..n];
      assert (a + b)[|a + b| - 1] == b[n];
      FoundConcat(a, b[..n], f);
    }
  }

  /** Everything found is the value for one of the elements. */
  lemma {:induction false} FoundFrom<X, Y>(xs: seq<X>, f: X -> Option<Y>)
    ensures forall k :: 0 <= k < |Found(xs, f)| ==> exists j :: 0 <= j < |xs| && f(xs[j]) == Some(Found(xs, f)[k])
    decreases |xs|
  {
    if xs != [] {
      var n := |xs| - 1;
      var prev := Found(xs[..n], f);
      FoundFrom(xs[..n], f);
      var ys := Found(xs, f);
      forall k | 0 <= k < |ys| ensures exists j :: 0 <= j < |xs| && f(xs[j]) == Some(ys[k]) {
        if k < |prev| {
          assert ys[k] == prev[k];
          var j :| 0 <= j < |xs[..n]| && f(xs[..n][j]) == Some(prev[k]);
          assert xs[..n][j] == xs[j];
        } else {
          assert f(xs[n]) == Some(ys[k]);
        }
      }
    } else {
      assert Found(xs, f) == [];
    }
  }

  /** Nothing is found exactly when every element gives `None`. */
  lemma {:induction false} FoundNone<X, Y>(xs: seq<X>, f: X -> Option<Y>)
    ensures Found(xs, f) == [] <==> forall j :: 0 <= j < |xs| ==> f(xs[j]).None?
    decreases |xs|
  {
    if xs != [] {
      var n := |xs| - 1;
      FoundNone(xs[..n], f);
      if Found(xs, f) == [] {
        forall j | 0 <= j < |xs| ensures f(xs[j]).None? {
          if j < n {
            assert xs[..n][j] == xs[j];
          }
        }
      } else if forall j :: 0 <= j < |xs| ==> f(xs[j]).None? {
        forall j | 0 <= j < n ensures f(xs[..n][j]).None? {
          assert xs[..n][j] == xs[j];
        }
      }
    }
  }

  /**
   * Without a heading that yields a section, the description is the longest wordy paragraph.
   * Otherwise it is the first yielding heading's text and body, then (after a blank line) the
   * sections of the headings after it, in document order; it is longer than 60 characters.
   */
  lemma DescriptionSpec(hs: seq<SectionHeading>, paragraphs: seq<string>)
    ensures (forall j :: 0 <= j < |hs| ==> !Yields(hs[j])) ==> Description(hs, paragraphs) == Longest(Trims(paragraphs))
    ensures forall j0 :: 0 <= j0 < |hs| && Yields(hs[j0]) && (forall j :: 0 <= j < j0 ==> !Yields(hs[j])) ==>
      && Description(hs, paragraphs) == Trim(hs[j0].text) + "\n\n" + Body(hs[j0]) + SectionsAfter(hs[j0 + 1..])
      && |Description(hs, paragraphs)| > 60
  {
    FoundNone(hs, SectionOf);
    if forall j :: 0 <= j < |hs| ==> !Yields(hs[j]) {
      forall j | 0 <= j < |hs| ensures SectionOf(hs[j]).None? { }
    }
    forall j0 | 0 <= j0 < |hs| && Yields(hs[j0]) && (forall j :: 0 <= j < j0 ==> !Yields(hs[j]))
      ensures Description(hs, paragraphs) == Trim(hs[j0].text) + "\n\n" + Body(hs[j0]) + SectionsAfter(hs[j0 + 1..])
    {
      DescriptionFirst(hs, paragraphs, j0);
    }
  }

  /** The sections of `hs`, each after a blank line: "" when none yields. */
  function SectionsAfter(hs: seq<SectionHeading>): string {
    var ps := SectionPairs(hs);
    if ps == [] then "" else "\n\n" + Join(Flatten(ps), "\n\n")
  }

  lemma DescriptionFirst(hs: seq<SectionHeading>, paragraphs: seq<string>, j0: nat)
    requires j0 < |hs| && Yields(hs[j0]) && forall j :: 0 <= j < j0 ==> !Yields(hs[j])
    ensures Description(hs, paragraphs) == Trim(hs[j0].text) + "\n\n" + Body(hs[j0]) + SectionsAfter(hs[j0 + 1..])
  {
    var p := (Trim(hs[j0].text), Body(hs[j0]));
    var rest := SectionPairs(hs[j0 + 1..]);
    SectionPairsAt(hs, j0);
    FlattenCons(p, rest);
    JoinPair(p.0, p.1, Flatten(rest), "\n\n");
  }

  /** The first yielding heading gives the first section; the headings after it give the rest. */
  lemma SectionPairsAt(hs: seq<SectionHeading>, j0: nat)
    requires j0 < |hs| && Yields(hs[j0]) && forall j :: 0 <= j < j0 ==> !Yields(hs[j])
    ensures SectionPairs(hs) == [(Trim(hs[j0].text), Body(hs[j0]))] + SectionPairs(hs[j0 + 1..])
  {
    forall j | 0 <= j < j0 ensures SectionOf(hs[j]).None? { }
    FoundAt(hs, j0, SectionOf);
  }

  /** The first element with a value gives the first thing found; the elements after it give the rest. */
  lemma FoundAt<X, Y>(xs: seq<X>, j0: nat, f: X -> Option<Y>)
    requires j0 < |xs| && f(xs[j0]).Some? && forall j :: 0 <= j < j0 ==> f(xs[j]).None?
    ensures Found(xs, f) == [f(xs[j0]).value] + Found(xs[j0 + 1..], f)
  {
    var x, pre, post := xs[j0], xs[..j0], xs[j0 + 1..];
    forall j | 0 <= j < |pre| ensures f(pre[j]).None? {
      assert pre[j] == xs[j];
    }
    FoundNothing(pre, f);
    FoundOne(x, f);
    FoundConcat([x], post, f);
    FoundConcat(pre, [x] + post, f);
    SplitAround(xs, j0);
  }

  lemma FoundNothing<X, Y>(xs: seq<X>, f: X -> Option<Y>)
    requires forall j :: 0 <= j < |xs| ==> f(xs[j]).None?
    ensures Found(xs, f) == []
  {
    FoundNone(xs, f);
  }

  lemma FoundOne<X, Y>(x: X, f: X -> Option<Y>)
    ensures Found([x], f) == if f(x).Some? then [f(x).value] else []
  {
    assert [x][..0] == [];
  }

  lemma FlattenCons(p: (string, string), rest: seq<(string, string)>)
    ensures Flatten([p] + rest) == [p.0, p.1] + Flatten(rest)
  {
    FlattenConcat([p], rest);
    assert [p][..0] == [];
  }
}
