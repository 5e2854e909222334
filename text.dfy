/** Option wrapper used for absent values (no heading, failed URL resolution, no match). */
module Wrappers {
  datatype Option<+T> = None | Some(value: T)
}

/**
 * String primitives with JavaScript's meanings: the `\s` class (which is also the set
 * `String.prototype.trim` removes), `\b` word characters, ASCII case folding, literal
 * global replacement, `includes`, `startsWith` and `split`.
 */
module Text {

  /** JavaScript's `\s`: WhiteSpace and LineTerminator code points. */
  predicate IsSpace(c: char) {
    || c == ' ' || c == '\t' || c == '\n' || c == '\U{000B}' || c == '\U{000C}' || c == '\r'
    || c == '\U{00A0}' || c == '\U{1680}' || ('\U{2000}' <= c <= '\U{200A}')
    || c == '\U{2028}' || c == '\U{2029}' || c == '\U{202F}' || c == '\U{205F}'
    || c == '\U{3000}' || c == '\U{FEFF}'
  }

  /** The characters a regular-expression `.` does not match. */
  predicate IsLineTerminator(c: char) {
    c == '\n' || c == '\r' || c == '\U{2028}' || c == '\U{2029}'
  }

  /** Word characters for `\b` in a non-Unicode regular expression. */
  predicate IsWordChar(c: char) {
    ('a' <= c <= 'z') || ('A' <= c <= 'Z') || ('0' <= c <= '9') || c == '_'
  }

  predicate IsDigit(c: char) { '0' <= c <= '9' }

  function LowerChar(c: char): char {
    if 'A' <= c <= 'Z' then (c as int + 32) as char else c
  }

  /** `toLowerCase`, restricted to ASCII letters. */
  function Lower(s: string): (r: string)
    ensures |r| == |s|
    ensures forall i :: 0 <= i < |s| ==> r[i] == LowerChar(s[i])
    decreases |s|
  {
    if s == [] then [] else [LowerChar(s[0])] + Lower(s[1..])
  }

  /** `s.includes(pat)`. */
  predicate Contains(s: string, pat: string)
    decreases |s|
  {
    pat <= s || (s != [] && Contains(s[1..], pat))
  }

  /** Case-insensitive `includes` against a lower-case pattern (a regex test with the `i` flag). */
  predicate ContainsIgnoreCase(s: string, lowerPat: string) {
    Contains(Lower(s), lowerPat)
  }

  /** The subject starts with `prefix`, ASCII case ignored (`^prefix` with the `i` flag). */
  predicate StartsWithIgnoreCase(s: string, prefix: string) {
    |prefix| <= |s| && Lower(s[..|prefix|]) == Lower(prefix)
  }

  /** The length of the leading run of whitespace. */
  function LeadingSpace(s: string): (n: nat)
    ensures n <= |s|
    ensures forall k :: 0 <= k < n ==> IsSpace(s[k])
    ensures n < |s| ==> !IsSpace(s[n])
    decreases |s|
  {
    if s != [] && IsSpace(s[0]) then 1 + LeadingSpace(s[1..]) else 0
  }

  /** Removes the leading whitespace. */
  function TrimStart(s: string): (r: string)
    ensures |r| <= |s| && r == s[|s| - |r|..]
    ensures r == [] || !IsSpace(r[0])
    ensures forall k :: 0 <= k < |s| - |r| ==> IsSpace(s[k])
    decreases |s|
  {
    if s != [] && IsSpace(s[0]) then TrimStart(s[1..]) else s
  }

  /** The whitespace run that starts at position `j`, read in place. */
  lemma LeadingSpaceFrom(s: string, j: nat)
    requires j <= |s|
    ensures j + LeadingSpace(s[j..]) <= |s|
    ensures forall m :: j <= m < j + LeadingSpace(s[j..]) ==> IsSpace(s[m])
  {
    var u := s[j..];
    forall m | j <= m < j + LeadingSpace(u) ensures IsSpace(s[m]) {
      assert s[m] == u[m - j];
    }
  }

  /** Removing leading whitespace keeps the last character when something remains. */
  lemma {:induction false} TrimStartLast(s: string)
    requires TrimStart(s) != []
    ensures TrimStart(s)[|TrimStart(s)| - 1] == s[|s| - 1]
    decreases |s|
  {
    if s != [] && IsSpace(s[0]) {
      TrimStartLast(s[1..]);
    }
  }

  /** Removes the trailing whitespace. */
  function TrimEnd(s: string): (r: string)
    ensures |r| <= |s| && r == s[..|r|]
    ensures r == [] || !IsSpace(r[|r| - 1])
    ensures forall k :: |r| <= k < |s| ==> IsSpace(s[k])
    decreases |s|
  {
    if s != [] && IsSpace(s[|s| - 1]) then TrimEnd(s[..|s| - 1]) else s
  }

  /** No whitespace at either end. */
  predicate Trimmed(s: string) {
    s == [] || (!IsSpace(s[0]) && !IsSpace(s[|s| - 1]))
  }

  /** Every whitespace character is a plain space and no two whitespace characters touch. */
  ghost predicate SingleSpaced(s: string) {
    && (forall i :: 0 <= i < |s| && IsSpace(s[i]) ==> s[i] == ' ')
    && (forall i, j :: 0 <= i < j < |s| && j == i + 1 && IsSpace(s[i]) ==> !IsSpace(s[j]))
  }

  lemma SliceSingleSpaced(s: string, a: nat, b: nat)
    requires a <= b <= |s|
    ensures SingleSpaced(s) ==> SingleSpaced(s[a..b])
  {
    if SingleSpaced(s) {
      var t := s[a..b];
      forall i, j | 0 <= i < j < |t| && j == i + 1 && IsSpace(t[i]) ensures !IsSpace(t[j]) {
        assert t[i] == s[a + i] && t[j] == s[a + j];
      }
    }
  }

  /** `String.prototype.trim`: the text between the leading and the trailing whitespace. */
  function Trim(s: string): (r: string)
    ensures Trimmed(r) && |r| <= |s|
    ensures Trimmed(s) ==> r == s
  {
    TrimTrimmed(s);
    TrimEnd(TrimStart(s))
  }

  /**
   * `Trim(s)` is `TrimStart(s)` (which is `s` after its leading whitespace) without a trailing
   * run of whitespace.
   */
  lemma TrimSpec(s: string)
    ensures |Trim(s)| <= |TrimStart(s)| && Trim(s) == TrimStart(s)[..|Trim(s)|]
    ensures forall k :: |Trim(s)| <= k < |TrimStart(s)| ==> IsSpace(TrimStart(s)[k])
  {
    assert Trim(s) == TrimEnd(TrimStart(s));
  }

  /** The leading run is exactly what `TrimStart` removes. */
  lemma {:induction false} LeadingSpaceTrimStart(s: string)
    ensures LeadingSpace(s) == |s| - |TrimStart(s)|
    decreases |s|
  {
    if s != [] && IsSpace(s[0]) {
      LeadingSpaceTrimStart(s[1..]);
    }
  }

  /** Trimming single-spaced text leaves it single-spaced. */
  lemma TrimSingleSpaced(s: string)
    ensures SingleSpaced(s) ==> SingleSpaced(Trim(s))
  {
    TrimStartSingleSpaced(s);
    TrimEndSingleSpaced(TrimStart(s));
  }

  lemma TrimStartSingleSpaced(s: string)
    ensures SingleSpaced(s) ==> SingleSpaced(TrimStart(s))
  {
    var t := TrimStart(s);
    SliceSingleSpaced(s, |s| - |t|, |s|);
    assert s[|s| - |t|..|s|] == t;
  }

  lemma TrimEndSingleSpaced(t: string)
    ensures SingleSpaced(t) ==> SingleSpaced(TrimEnd(t))
  {
    var r := TrimEnd(t);
    SliceSingleSpaced(t, 0, |r|);
    assert t[0..|r|] == r;
  }

  lemma TrimTrimmed(s: string)
    ensures Trimmed(s) ==> TrimEnd(TrimStart(s)) == s
  {
    if Trimmed(s) && s != [] {
      var t := TrimStart(s);
      assert !IsSpace(s[0]);
      assert t == s;
      var r := TrimEnd(t);
      assert !IsSpace(s[|s| - 1]);
      assert |r| == |s|;
    }
  }

  /** A suffix of `c[a..]` is a suffix of `c`. */
  lemma SuffixAfter(c: string, a: nat, t: string)
    requires a <= |c| && |t| <= |c[a..]| && t == c[a..][|c[a..]| - |t|..]
    ensures t == c[|c| - |t|..]
  {
    assert c[a..][|c[a..]| - |t|..] == c[|c| - |t|..];
  }

  /** A suffix of trimmed text that starts with no whitespace is trimmed already. */
  lemma TailOfTrimmed(c: string, t: string)
    requires Trimmed(c) && |t| <= |c| && t == c[|c| - |t|..] && (t == [] || !IsSpace(t[0]))
    ensures Trim(t) == t
  {
    if t != [] {
      assert t[|t| - 1] == c[|c| - |t| + (|t| - 1)];
    }
  }

  /** The characters of `s` that are not whitespace, in order. */
  function NonSpace(s: string): string
    decreases |s|
  {
    if s == [] then [] else (if IsSpace(s[0]) then [] else [s[0]]) + NonSpace(s[1..])
  }

  /** Removing leading whitespace keeps every other character. */
  lemma {:induction false} NonSpaceTrimStart(s: string)
    ensures NonSpace(TrimStart(s)) == NonSpace(s)
    decreases |s|
  {
    if s != [] && IsSpace(s[0]) {
      NonSpaceTrimStart(s[1..]);
    }
  }

  lemma {:induction false} NonSpaceConcat(a: string, b: string)
    ensures NonSpace(a + b) == NonSpace(a) + NonSpace(b)
    decreases |a|
  {
    if a == [] {
      assert a + b == b;
    } else {
      assert (a + b)[1..] == a[1..] + b;
      NonSpaceConcat(a[1..], b);
    }
  }

  /** Removing trailing whitespace keeps every other character. */
  lemma {:induction false} NonSpaceTrimEnd(s: string)
    ensures NonSpace(TrimEnd(s)) == NonSpace(s)
    decreases |s|
  {
    if s != [] && IsSpace(s[|s| - 1]) {
      var n := |s| - 1;
      NonSpaceTrimEnd(s[..n]);
      assert s[..n] + [s[n]] == s;
      NonSpaceConcat(s[..n], [s[n]]);
      assert [s[n]][1..] == [];
    }
  }

  /** Trimming removes only whitespace. */
  lemma NonSpaceTrim(s: string)
    ensures NonSpace(Trim(s)) == NonSpace(s)
  {
    NonSpaceTrimStart(s);
    NonSpaceTrimEnd(TrimStart(s));
  }

  /** `s.replace(/\s+/g, ' ')`: every maximal run of whitespace becomes one space. */
  function Collapse(s: string): (r: string)
    ensures |r| <= |s|
    ensures s == [] <==> r == []
    ensures s != [] ==> r[0] == (if IsSpace(s[0]) then ' ' else s[0])
    ensures NonSpace(r) == NonSpace(s)
    decreases |s|
  {
    if s == [] then []
    else if IsSpace(s[0]) then
      NonSpaceTrimStart(s);
      var c := Collapse(TrimStart(s));
      assert ([' '] + c)[1..] == c;
      [' '] + c
    else
      var c := Collapse(s[1..]);
      assert ([s[0]] + c)[1..] == c;
      [s[0]] + c
  }

  /** After collapsing, every whitespace character is a lone space. */
  lemma {:induction false} CollapseIsSingleSpaced(s: string)
    ensures SingleSpaced(Collapse(s))
    decreases |s|
  {
    if s != [] {
      if IsSpace(s[0]) {
        var t := TrimStart(s);
        assert t == TrimStart(s[1..]);
        CollapseIsSingleSpaced(t);
        CollapseSpaceStep(s);
      } else {
        CollapseIsSingleSpaced(s[1..]);
        CollapseWordStep(s);
      }
    }
  }

  lemma CollapseSpaceStep(s: string)
    requires s != [] && IsSpace(s[0]) && SingleSpaced(Collapse(TrimStart(s)))
    ensures SingleSpaced(Collapse(s))
  {
    var t := TrimStart(s);
    var c := Collapse(t);
    assert Collapse(s) == [' '] + c;
    assert c == [] || c[0] == t[0];
    SingleSpacedCons(' ', c);
  }

  lemma CollapseWordStep(s: string)
    requires s != [] && !IsSpace(s[0]) && SingleSpaced(Collapse(s[1..]))
    ensures SingleSpaced(Collapse(s))
  {
    var c := Collapse(s[1..]);
    assert Collapse(s) == [s[0]] + c;
    SingleSpacedCons(s[0], c);
  }

  /** A lone space or a non-whitespace character before single-spaced text that starts with a word. */
  lemma SingleSpacedCons(x: char, c: string)
    requires SingleSpaced(c) && (IsSpace(x) ==> x == ' ' && (c == [] || !IsSpace(c[0])))
    ensures SingleSpaced([x] + c)
  {
    var s := [x] + c;
    forall i | 0 <= i < |s| && IsSpace(s[i]) ensures s[i] == ' ' {
      if i > 0 { assert s[i] == c[i - 1]; }
    }
    forall i, j | 0 <= i < j < |s| && j == i + 1 && IsSpace(s[i]) ensures !IsSpace(s[j]) {
      if i > 0 { assert s[i] == c[i - 1] && s[j] == c[j - 1]; }
    }
  }

  /** Text that is already single-spaced is a fixed point of `Collapse`. */
  lemma {:induction false} CollapseSingleSpaced(s: string)
    requires SingleSpaced(s)
    ensures Collapse(s) == s
    decreases |s|
  {
    if s != [] {
      SliceSingleSpaced(s, 1, |s|);
      CollapseSingleSpaced(s[1..]);
      if IsSpace(s[0]) {
        SpaceBeforeWord(s);
      }
      assert [s[0]] + s[1..] == s;
    }
  }

  /** Every character is whitespace. */
  predicate AllSpace(w: string) {
    forall k :: 0 <= k < |w| ==> IsSpace(w[k])
  }

  /** Before text that starts with a word, `TrimStart` removes exactly the whitespace in front. */
  lemma {:induction false} TrimStartSpaces(w: string, b: string)
    requires AllSpace(w) && (b == [] || !IsSpace(b[0]))
    ensures TrimStart(w + b) == b
    decreases |w|
  {
    if w == [] {
      assert w + b == b;
    } else {
      assert (w + b)[1..] == w[1..] + b;
      assert forall k :: 0 <= k < |w| - 1 ==> w[1..][k] == w[k + 1];
      TrimStartSpaces(w[1..], b);
    }
  }

  /** Text that ends in a word shields whatever follows it from `TrimStart`. */
  lemma {:induction false} TrimStartConcat(a: string, rest: string)
    requires a != [] && !IsSpace(a[|a| - 1])
    ensures TrimStart(a + rest) == TrimStart(a) + rest
    decreases |a|
  {
    if IsSpace(a[0]) {
      assert (a + rest)[1..] == a[1..] + rest;
      TrimStartConcat(a[1..], rest);
    }
  }

  /**
   * A whitespace run between two words becomes exactly one space: `a + w + b` collapses to
   * `a` collapsed, one space, and `b` collapsed.
   */
  lemma {:induction false} CollapseRun(a: string, w: string, b: string)
    requires w != [] && AllSpace(w)
    requires a == [] || !IsSpace(a[|a| - 1])
    requires b == [] || !IsSpace(b[0])
    ensures Collapse(a + w + b) == Collapse(a) + " " + Collapse(b)
    decreases |a|
  {
    if a == [] {
      CollapseRunFirst(w, b);
      EmptyFront(a, w, b);
      EmptyFront(Collapse(a), " ", Collapse(b));
    } else if IsSpace(a[0]) {
      var t := TrimStart(a);
      assert t == TrimStart(a[1..]);
      TrimStartLast(a);
      CollapseRun(t, w, b);
      CollapseRunSpace(a, w, b);
    } else {
      CollapseRun(a[1..], w, b);
      CollapseRunWord(a, w, b);
    }
  }

  lemma CollapseRunFirst(w: string, b: string)
    requires w != [] && AllSpace(w) && (b == [] || !IsSpace(b[0]))
    ensures Collapse(w + b) == " " + Collapse(b)
  {
    TrimStartSpaces(w, b);
    assert (w + b)[0] == w[0];
  }

  lemma CollapseRunSpace(a: string, w: string, b: string)
    requires a != [] && IsSpace(a[0]) && !IsSpace(a[|a| - 1])
    requires Collapse(TrimStart(a) + w + b) == Collapse(TrimStart(a)) + " " + Collapse(b)
    ensures Collapse(a + w + b) == Collapse(a) + " " + Collapse(b)
  {
    var t := TrimStart(a);
    AppendAssoc(a, w, b);
    TrimStartConcat(a, w + b);
    AppendAssoc(t, w, b);
    assert (a + w + b)[0] == a[0];
    assert Collapse(a + w + b) == [' '] + Collapse(TrimStart(a + w + b));
    assert Collapse(a) == [' '] + Collapse(t);
    ConsAssoc(' ', Collapse(t), " ", Collapse(b));
  }

  lemma CollapseRunWord(a: string, w: string, b: string)
    requires a != [] && !IsSpace(a[0])
    requires Collapse(a[1..] + w + b) == Collapse(a[1..]) + " " + Collapse(b)
    ensures Collapse(a + w + b) == Collapse(a) + " " + Collapse(b)
  {
    var rest := a[1..] + w + b;
    ConsSplit(a, w, b);
    assert Collapse([a[0]] + rest) == [a[0]] + Collapse(rest);
    assert Collapse(a) == [a[0]] + Collapse(a[1..]);
    ConsAssoc(a[0], Collapse(a[1..]), " ", Collapse(b));
  }

  lemma AppendAssoc<T>(x: seq<T>, y: seq<T>, z: seq<T>)
    ensures x + y + z == x + (y + z)
  {
  }

  lemma EmptyFront<T>(a: seq<T>, x: seq<T>, y: seq<T>)
    requires a == []
    ensures a + x + y == x + y
  {
  }

  lemma ConsSplit<T>(a: seq<T>, w: seq<T>, b: seq<T>)
    requires a != []
    ensures a + w + b == [a[0]] + (a[1..] + w + b)
  {
    assert a == [a[0]] + a[1..];
  }

  lemma SplitAround<T>(xs: seq<T>, j: nat)
    requires j < |xs|
    ensures xs == xs[..j] + ([xs[j]] + xs[j + 1..])
  {
    assert xs[j..] == [xs[j]] + xs[j + 1..];
    assert xs == xs[..j] + xs[j..];
  }

  lemma ConsAssoc<T>(x: T, l: seq<T>, m: seq<T>, r: seq<T>)
    ensures [x] + (l + m + r) == ([x] + l) + m + r
  {
  }

  /** In single-spaced text a leading space is the only whitespace before the next word. */
  lemma SpaceBeforeWord(s: string)
    requires SingleSpaced(s) && s != [] && IsSpace(s[0])
    ensures s[0] == ' ' && TrimStart(s) == s[1..]
  {
    if |s| > 1 {
      assert !IsSpace(s[1]);
    }
    assert TrimStart(s) == TrimStart(s[1..]);
  }


  /** Joining single-spaced texts keeps them single-spaced unless two spaces meet at the seam. */
  lemma SingleSpacedConcat(a: string, b: string)
    requires SingleSpaced(a) && SingleSpaced(b)
    requires a == [] || b == [] || !IsSpace(a[|a| - 1]) || !IsSpace(b[0])
    ensures SingleSpaced(a + b)
  {
    var s := a + b;
    forall i | 0 <= i < |s| && IsSpace(s[i]) ensures s[i] == ' ' {
      if i >= |a| { assert s[i] == b[i - |a|]; }
    }
    forall i, j | 0 <= i < j < |s| && j == i + 1 && IsSpace(s[i]) ensures !IsSpace(s[j]) {
      if j < |a| {
        assert s[i] == a[i] && s[j] == a[j];
      } else if i >= |a| {
        assert s[i] == b[i - |a|] && s[j] == b[j - |a|];
      }
    }
  }

  /** Lower-casing changes no whitespace, so it keeps the shape `Trim` and `Collapse` give. */
  lemma LowerKeepsShape(s: string)
    ensures Trimmed(s) ==> Trimmed(Lower(s))
    ensures SingleSpaced(s) ==> SingleSpaced(Lower(s))
  {
    var r := Lower(s);
    assert forall i :: 0 <= i < |s| ==> (IsSpace(r[i]) <==> IsSpace(s[i])) && (IsSpace(s[i]) ==> r[i] == s[i]);
  }

  lemma SingleSpacedHasNoNewline(s: string)
    requires SingleSpaced(s)
    ensures '\n' !in s
  {
    if '\n' in s {
      var i :| 0 <= i < |s| && s[i] == '\n';
      assert IsSpace(s[i]);
    }
  }

  /** `s.replace(/pat/g, rep)` for a literal pattern: leftmost, non-overlapping, left to right. */
  function ReplaceAll(s: string, pat: string, rep: string): string
    requires pat != []
    decreases |s|
  {
    if s == [] then []
    else if pat <= s then rep + ReplaceAll(s[|pat|..], pat, rep)
    else [s[0]] + ReplaceAll(s[1..], pat, rep)
  }

  /** Replacing a whitespace character by a space keeps every other character. */
  lemma {:induction false} NonSpaceReplaceSpace(s: string, c: char)
    requires IsSpace(c)
    ensures NonSpace(ReplaceAll(s, [c], " ")) == NonSpace(s)
    decreases |s|
  {
    if s != [] {
      NonSpaceReplaceSpace(s[1..], c);
      if [c] <= s {
        assert s[1..] == s[|[c]|..];
        NonSpaceConcat(" ", ReplaceAll(s[1..], [c], " "));
      } else {
        NonSpaceConcat([s[0]], ReplaceAll(s[1..], [c], " "));
      }
    }
  }

  /** A one-character pattern is replaced piece by piece: no match spans a seam. */
  lemma {:induction false} ReplaceCharConcat(x: string, y: string, c: char, rep: string)
    ensures ReplaceAll(x + y, [c], rep) == ReplaceAll(x, [c], rep) + ReplaceAll(y, [c], rep)
    decreases |x|
  {
    if x == [] {
      assert x + y == y;
    } else {
      assert (x + y)[1..] == x[1..] + y;
      assert ([c] <= x + y) == ([c] <= x);
      ReplaceCharConcat(x[1..], y, c, rep);
    }
  }

  /** Replacing a whitespace character by a space leaves whitespace as whitespace. */
  lemma {:induction false} ReplaceSpaceRun(w: string, c: char)
    requires AllSpace(w)
    ensures |ReplaceAll(w, [c], " ")| == |w| && AllSpace(ReplaceAll(w, [c], " "))
    decreases |w|
  {
    if w != [] {
      assert forall k :: 0 <= k < |w| - 1 ==> w[1..][k] == w[k + 1];
      ReplaceSpaceRun(w[1..], c);
      var rest := ReplaceAll(w[1..], [c], " ");
      if [c] <= w {
        assert w[|[c]|..] == w[1..];
        assert ReplaceAll(w, [c], " ") == " " + rest;
      } else {
        assert ReplaceAll(w, [c], " ") == [w[0]] + rest;
      }
    }
  }

  /** A pattern whose first character does not occur is never replaced. */
  lemma {:induction false} ReplaceAllAbsent(s: string, pat: string, rep: string)
    requires pat != [] && pat[0] !in s
    ensures ReplaceAll(s, pat, rep) == s
    decreases |s|
  {
    if s != [] {
      assert !(pat <= s) by { assert s[0] != pat[0]; }
      ReplaceAllAbsent(s[1..], pat, rep);
      assert [s[0]] + s[1..] == s;
    }
  }

  /** A subject whose only possible match position misses is left as it is. */
  lemma ReplaceAllMissOnce(s: string, pat: string, rep: string)
    requires pat != [] && s != [] && !(pat <= s) && pat[0] !in s[1..]
    ensures ReplaceAll(s, pat, rep) == s
  {
    ReplaceAllAbsent(s[1..], pat, rep);
    assert [s[0]] + s[1..] == s;
  }

  /** A match at the front is replaced and the scan resumes after it. */
  lemma ReplaceAllHit(pat: string, rest: string, rep: string)
    requires pat != []
    ensures ReplaceAll(pat + rest, pat, rep) == rep + ReplaceAll(rest, pat, rep)
  {
    assert pat <= pat + rest;
    assert (pat + rest)[|pat|..] == rest;
  }

  /** Index of the first occurrence of `c`. */
  function IndexOf(s: string, c: char): (i: nat)
    requires c in s
    ensures i < |s| && s[i] == c && c !in s[..i]
    decreases |s|
  {
    if s[0] == c then 0 else 1 + IndexOf(s[1..], c)
  }

  /** `parts.join(sep)`. */
  function Join(parts: seq<string>, sep: string): string
    decreases |parts|
  {
    if parts == [] then ""
    else if |parts| == 1 then parts[0]
    else parts[0] + sep + Join(parts[1..], sep)
  }

  /** `s.split(sep)` for a one-character separator: the pieces between the separators. */
  function Split(s: string, sep: char): (parts: seq<string>)
    ensures |parts| >= 1
    ensures forall k :: 0 <= k < |parts| ==> sep !in parts[k]
    ensures Join(parts, [sep]) == s
    decreases |s|
  {
    if sep in s then
      var i := IndexOf(s, sep);
      var rest := Split(s[i + 1..], sep);
      assert ([s[..i]] + rest)[1..] == rest;
      assert s == s[..i] + [sep] + s[i + 1..];
      [s[..i]] + rest
    else [s]
  }

  /** Splitting a join of separator-free pieces gives the pieces back. */
  lemma {:induction false} SplitJoin(parts: seq<string>, sep: char)
    requires parts != [] && forall k :: 0 <= k < |parts| ==> sep !in parts[k]
    ensures Split(Join(parts, [sep]), sep) == parts
    decreases |parts|
  {
    if |parts| > 1 {
      var p := parts[0];
      var tail := Join(parts[1..], [sep]);
      var s := Join(parts, [sep]);
      assert s == p + [sep] + tail;
      assert s[|p|] == sep;
      var i := IndexOf(s, sep);
      assert s[..i] == p;
      assert s[i + 1..] == tail;
      SplitJoin(parts[1..], sep);
    } else {
      assert sep !in parts[0];
    }
  }

  /** `.map((s) => s.trim()).filter(Boolean)`: trims every piece and drops the empty ones. */
  function NonBlank(parts: seq<string>): (lines: seq<string>)
    ensures |lines| <= |parts|
    ensures forall k :: 0 <= k < |lines| ==> lines[k] != [] && Trimmed(lines[k])
    decreases |parts|
  {
    if parts == [] then []
    else
      var t := Trim(parts[0]);
      (if t == [] then [] else [t]) + NonBlank(parts[1..])
  }

  /** The lines are the non-empty trimmed pieces: each such piece is kept, and nothing else. */
  lemma NonBlankMembers(parts: seq<string>)
    ensures forall k :: 0 <= k < |parts| && Trim(parts[k]) != [] ==> Trim(parts[k]) in NonBlank(parts)
    ensures forall x :: x in NonBlank(parts) ==> exists k :: 0 <= k < |parts| && x == Trim(parts[k])
  {
    NonBlankKeeps(parts);
    NonBlankFrom(parts);
  }

  lemma {:induction false} NonBlankKeeps(parts: seq<string>)
    ensures forall k :: 0 <= k < |parts| && Trim(parts[k]) != [] ==> Trim(parts[k]) in NonBlank(parts)
    decreases |parts|
  {
    if parts != [] {
      NonBlankKeeps(parts[1..]);
      assert NonBlank(parts) == (if Trim(parts[0]) == [] then [] else [Trim(parts[0])]) + NonBlank(parts[1..]);
      forall k | 0 <= k < |parts| && Trim(parts[k]) != [] ensures Trim(parts[k]) in NonBlank(parts) {
        if k > 0 {
          assert parts[k] == parts[1..][k - 1];
        }
      }
    }
  }

  lemma {:induction false} NonBlankFrom(parts: seq<string>)
    ensures forall x :: x in NonBlank(parts) ==> exists k :: 0 <= k < |parts| && x == Trim(parts[k])
    decreases |parts|
  {
    if parts != [] {
      NonBlankFrom(parts[1..]);
      var rest := NonBlank(parts[1..]);
      assert NonBlank(parts) == (if Trim(parts[0]) == [] then [] else [Trim(parts[0])]) + rest;
      forall x | x in NonBlank(parts) ensures exists k :: 0 <= k < |parts| && x == Trim(parts[k]) {
        if x in rest {
          var k :| 0 <= k < |parts[1..]| && x == Trim(parts[1..][k]);
          assert parts[1..][k] == parts[k + 1];
        } else {
          assert x == Trim(parts[0]);
        }
      }
    }
  }

  /** Pieces are kept or dropped one by one, in order. */
  lemma {:induction false} NonBlankConcat(a: seq<string>, b: seq<string>)
    ensures NonBlank(a + b) == NonBlank(a) + NonBlank(b)
    decreases |a|
  {
    if a == [] {
      assert a + b == b;
    } else {
      assert (a + b)[0] == a[0];
      assert (a + b)[1..] == a[1..] + b;
      NonBlankConcat(a[1..], b);
    }
  }

  /** One piece gives its trimmed text, unless that is empty. */
  lemma NonBlankOne(p: string)
    ensures NonBlank([p]) == if Trim(p) == [] then [] else [Trim(p)]
  {
    assert [p][1..] == [];
  }

  /** Keeps only the lower-case ASCII letters (`replace(/[^a-z]/g, '')`). */
  function OnlyLowerLetters(s: string): (r: string)
    ensures |r| <= |s|
    ensures forall i :: 0 <= i < |r| ==> 'a' <= r[i] <= 'z'
    decreases |s|
  {
    if s == [] then []
    else (if 'a' <= s[0] <= 'z' then [s[0]] else []) + OnlyLowerLetters(s[1..])
  }

  predicate IsLetter(c: char) {
    ('a' <= c <= 'z') || ('A' <= c <= 'Z')
  }

  /** The ASCII letters of `s`, lower-cased, in order. */
  function Letters(s: string): (r: string)
    ensures |r| <= |s|
    ensures forall i :: 0 <= i < |r| ==> 'a' <= r[i] <= 'z'
    decreases |s|
  {
    if s == [] then []
    else (if IsLetter(s[0]) then [LowerChar(s[0])] else []) + Letters(s[1..])
  }

  lemma {:induction false} LettersConcat(a: string, b: string)
    ensures Letters(a + b) == Letters(a) + Letters(b)
    decreases |a|
  {
    if a == [] {
      assert a + b == b;
    } else {
      assert (a + b)[0] == a[0];
      assert (a + b)[1..] == a[1..] + b;
      LettersConcat(a[1..], b);
    }
  }

  lemma LettersOne(c: char)
    ensures Letters([c]) == if IsLetter(c) then [LowerChar(c)] else []
  {
    assert [c][1..] == [];
  }

  lemma {:induction false} LettersTrimStart(s: string)
    ensures Letters(TrimStart(s)) == Letters(s)
    decreases |s|
  {
    if s != [] && IsSpace(s[0]) {
      LettersTrimStart(s[1..]);
    }
  }

  lemma {:induction false} LettersTrimEnd(s: string)
    ensures Letters(TrimEnd(s)) == Letters(s)
    decreases |s|
  {
    if s != [] && IsSpace(s[|s| - 1]) {
      var n := |s| - 1;
      LettersTrimEnd(s[..n]);
      assert s[..n] + [s[n]] == s;
      LettersConcat(s[..n], [s[n]]);
      LettersOne(s[n]);
    }
  }

  /** Trimming removes no letter. */
  lemma LettersTrim(s: string)
    ensures Letters(Trim(s)) == Letters(s)
  {
    LettersTrimStart(s);
    LettersTrimEnd(TrimStart(s));
  }

  /** Collapsing whitespace removes no letter. */
  lemma {:induction false} LettersCollapse(s: string)
    ensures Letters(Collapse(s)) == Letters(s)
    decreases |s|
  {
    if s != [] {
      if IsSpace(s[0]) {
        var t := TrimStart(s);
        assert t == TrimStart(s[1..]);
        LettersCollapse(t);
        LettersConcat([' '], Collapse(t));
        LettersOne(' ');
        LettersTrimStart(s);
      } else {
        LettersCollapse(s[1..]);
        LettersConcat([s[0]], Collapse(s[1..]));
        LettersOne(s[0]);
      }
    }
  }

  /** Keeping `a`-`z` after lower-casing keeps exactly the letters. */
  lemma {:induction false} OnlyLowerLettersOfLower(s: string)
    ensures OnlyLowerLetters(Lower(s)) == Letters(s)
    decreases |s|
  {
    if s != [] {
      var l := Lower(s);
      assert l[0] == LowerChar(s[0]);
      assert l[1..] == Lower(s[1..]);
      OnlyLowerLettersOfLower(s[1..]);
    }
  }

  /** Text of lower-case letters only is its own letters. */
  lemma {:induction false} LettersFixed(s: string)
    requires forall i :: 0 <= i < |s| ==> 'a' <= s[i] <= 'z'
    ensures Letters(s) == s
    decreases |s|
  {
    if s != [] {
      LettersFixed(s[1..]);
      assert [s[0]] + s[1..] == s;
    }
  }
}
