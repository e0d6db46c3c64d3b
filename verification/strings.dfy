/**
  The JavaScript string operations the extension relies on, restated over
  `seq<char>`: `trim`, `split` on one character, `join`, `indexOf`/`includes`,
  the first-occurrence `replace` with a string pattern, and ASCII `toLowerCase`.
  Whitespace is the ASCII part of what `trim` and the regular expression `\s`
  treat as white space.
 */
module Strings {
  import opened Options

  /** Space, tab, line feed, vertical tab, form feed and carriage return. */
  predicate IsSpace(c: char) {
    c == ' ' || (9 <= c as int <= 13)
  }

  predicate AllSpace(s: string) {
    forall i | 0 <= i < |s| :: IsSpace(s[i])
  }

  predicate NoSpace(s: string) {
    forall i | 0 <= i < |s| :: !IsSpace(s[i])
  }

  /** Neither starts nor ends with white space (the empty string qualifies). */
  predicate IsTrimmed(s: string) {
    |s| == 0 || (!IsSpace(s[0]) && !IsSpace(s[|s| - 1]))
  }

  /** The suffix of `s` left once its leading white space is removed. */
  function TrimStart(s: string): (r: string)
    ensures |r| <= |s| && r == s[|s| - |r|..]
    ensures AllSpace(s[..|s| - |r|])
    ensures |r| == 0 || !IsSpace(r[0])
  {
    if |s| > 0 && IsSpace(s[0]) then TrimStart(s[1..]) else s
  }

  /** The prefix of `s` left once its trailing white space is removed. */
  function TrimEnd(s: string): (r: string)
    ensures |r| <= |s| && r == s[..|r|]
    ensures AllSpace(s[|r|..])
    ensures |r| == 0 || !IsSpace(r[|r| - 1])
  {
    if |s| > 0 && IsSpace(s[|s| - 1]) then TrimEnd(s[..|s| - 1]) else s
  }

  /** JavaScript's `String.prototype.trim`: `s` with white space cut from both
      ends (`TrimParts` shows what was cut). */
  function Trim(s: string): (r: string)
    ensures IsTrimmed(r)
    ensures |r| <= |s|
  {
    TrimEnd(TrimStart(s))
  }

  lemma {:induction false} TrimStartAllSpace(p: string, s: string)
    requires AllSpace(p)
    ensures TrimStart(p + s) == TrimStart(s)
    decreases |p|
  {
    if |p| > 0 {
      assert (p + s)[1..] == p[1..] + s;
      TrimStartAllSpace(p[1..], s);
    } else {
      assert p + s == s;
    }
  }

  lemma {:induction false} TrimEndAllSpace(s: string, q: string)
    requires AllSpace(q)
    ensures TrimEnd(s + q) == TrimEnd(s)
    decreases |q|
  {
    if |q| > 0 {
      assert (s + q)[..|s + q| - 1] == s + q[..|q| - 1];
      TrimEndAllSpace(s, q[..|q| - 1]);
    } else {
      assert s + q == s;
    }
  }

  lemma {:induction false} TrimStartOfAllSpace(s: string)
    requires AllSpace(s)
    ensures TrimStart(s) == ""
  {
    TrimStartAllSpace(s, "");
    assert s + "" == s;
  }

  lemma {:induction false} TrimStartAppend(s: string, q: string)
    requires !AllSpace(s)
    ensures TrimStart(s + q) == TrimStart(s) + q
    decreases |s|
  {
    assert |s| > 0;
    if IsSpace(s[0]) {
      assert (s + q)[1..] == s[1..] + q;
      TrimStartAppend(s[1..], q);
    }
  }

  /** Leading white space does not change the trimmed result. */
  lemma TrimPrefixSpace(p: string, s: string)
    requires AllSpace(p)
    ensures Trim(p + s) == Trim(s)
  {
    TrimStartAllSpace(p, s);
  }

  /** Trailing white space does not change the trimmed result. */
  lemma TrimSuffixSpace(s: string, q: string)
    requires AllSpace(q)
    ensures Trim(s + q) == Trim(s)
  {
    if AllSpace(s) {
      assert AllSpace(s + q);
      TrimStartOfAllSpace(s + q);
      TrimStartOfAllSpace(s);
    } else {
      TrimStartAppend(s, q);
      TrimEndAllSpace(TrimStart(s), q);
    }
  }

  /** A trimmed string is its own trim. */
  lemma TrimTrimmed(s: string)
    requires IsTrimmed(s)
    ensures Trim(s) == s
  {
  }

  /** Trimming only removes characters: one absent from `s` is absent from the result. */
  lemma TrimKeepsOut(s: string, c: char)
    requires c !in s
    ensures c !in Trim(s)
  {
    var a := TrimStart(s);
    assert a == s[|s| - |a|..];
    assert TrimEnd(a) == a[..|TrimEnd(a)|];
  }

  /** Trimming undoes padding with white space on either side. */
  lemma TrimPadded(p: string, s: string, q: string)
    requires AllSpace(p) && AllSpace(q) && IsTrimmed(s)
    ensures Trim(p + s + q) == s
  {
    assert p + s + q == p + (s + q);
    TrimPrefixSpace(p, s + q);
    TrimSuffixSpace(s, q);
    TrimTrimmed(s);
  }

  // ---------------------------------------------------------------------
  // split / join

  /** The position of the first `c` in `s`, or `|s|` when there is none. */
  function FirstOf(s: string, c: char): (i: nat)
    ensures i <= |s| && c !in s[..i]
    ensures i < |s| ==> s[i] == c
  {
    if |s| == 0 then 0
    else if s[0] == c then 0
    else
      var k := FirstOf(s[1..], c);
      assert s[..k + 1] == [s[0]] + s[1..][..k];
      k + 1
  }

  lemma FirstOfUnique(s: string, c: char, k: nat)
    requires k <= |s| && c !in s[..k] && (k < |s| ==> s[k] == c)
    ensures FirstOf(s, c) == k
  {
  }

  /** JavaScript's `s.split(c)` for a one-character separator: the pieces
      between consecutive occurrences of `c`, always at least one. */
  function Split(s: string, c: char): (r: seq<string>)
    ensures |r| >= 1
    ensures forall i | 0 <= i < |r| :: c !in r[i]
    decreases |s|
  {
    var i := FirstOf(s, c);
    if i == |s| then
      assert s[..i] == s;
      [s]
    else [s[..i]] + Split(s[i + 1..], c)
  }

  /** JavaScript's `xs.join(sep)`; the empty list joins to the empty string. */
  function Join(xs: seq<string>, sep: string): string {
    if |xs| == 0 then ""
    else if |xs| == 1 then xs[0]
    else xs[0] + sep + Join(xs[1..], sep)
  }

  /** Joining the pieces with the separator gives back the string. */
  lemma {:induction false} JoinSplit(s: string, c: char)
    ensures Join(Split(s, c), [c]) == s
    decreases |s|
  {
    var i := FirstOf(s, c);
    if i < |s| {
      var rest := Split(s[i + 1..], c);
      JoinSplit(s[i + 1..], c);
      var r := [s[..i]] + rest;
      assert r[1..] == rest;
      assert s == s[..i] + [c] + s[i + 1..];
    } else {
      assert s[..i] == s;
    }
  }

  /** A separator-free string is a single piece. */
  lemma SplitNoSeparator(s: string, c: char)
    requires c !in s
    ensures Split(s, c) == [s]
  {
    assert s[..|s|] == s;
    FirstOfUnique(s, c, |s|);
  }

  /** The first piece ends at the first separator. */
  lemma SplitAtSeparator(a: string, c: char, b: string)
    requires c !in a
    ensures Split(a + [c] + b, c) == [a] + Split(b, c)
  {
    var s := a + [c] + b;
    assert s[..|a|] == a;
    FirstOfUnique(s, c, |a|);
    assert s[|a| + 1..] == b;
  }

  /** Splitting undoes joining when no piece holds the separator. */
  lemma {:induction false} SplitJoin(xs: seq<string>, c: char)
    requires |xs| >= 1
    requires forall i | 0 <= i < |xs| :: c !in xs[i]
    ensures Split(Join(xs, [c]), c) == xs
    decreases |xs|
  {
    if |xs| == 1 {
      SplitNoSeparator(xs[0], c);
    } else {
      SplitJoin(xs[1..], c);
      SplitAtSeparator(xs[0], c, Join(xs[1..], [c]));
      assert [xs[0]] + xs[1..] == xs;
    }
  }

  /** Text before the first separator joins the first piece. */
  lemma SplitPrefix(p: string, m: string, c: char)
    requires c !in p
    ensures Split(p + m, c) == [p + Split(m, c)[0]] + Split(m, c)[1..]
  {
    var i := FirstOf(m, c);
    if i < |m| {
      assert m == m[..i] + [c] + m[i + 1..];
      SplitPrefixAt(p, m[..i], m[i + 1..], c);
    } else {
      assert m[..i] == m;
      SplitNoSeparator(m, c);
      assert c !in p + m;
      SplitNoSeparator(p + m, c);
    }
  }

  lemma SplitPrefixAt(p: string, a: string, b: string, c: char)
    requires c !in p && c !in a
    ensures Split(p + (a + [c] + b), c) == [p + a] + Split(b, c)
    ensures Split(a + [c] + b, c) == [a] + Split(b, c)
  {
    assert p + (a + [c] + b) == (p + a) + [c] + b;
    assert c !in p + a;
    SplitAtSeparator(p + a, c, b);
    SplitAtSeparator(a, c, b);
  }

  /** Text after the last separator joins the last piece. */
  lemma {:induction false} SplitSuffix(m: string, q: string, c: char)
    requires c !in q
    ensures var sm := Split(m, c);
            Split(m + q, c) == sm[..|sm| - 1] + [sm[|sm| - 1] + q]
    decreases |m|
  {
    var i := FirstOf(m, c);
    var s := m + q;
    if i < |m| {
      assert s[..i] == m[..i];
      FirstOfUnique(s, c, i);
      assert s[i + 1..] == m[i + 1..] + q;
      SplitSuffix(m[i + 1..], q, c);
      var sm := Split(m, c);
      var rest := Split(m[i + 1..], c);
      assert sm == [m[..i]] + rest;
      assert sm[..|sm| - 1] == [m[..i]] + rest[..|rest| - 1];
    } else {
      assert m[..i] == m;
      assert c !in s;
      SplitNoSeparator(s, c);
    }
  }

  /** Trimming ignores white space added on either side. */
  lemma TrimIgnoresPadding(p: string, x: string, q: string)
    requires AllSpace(p) && AllSpace(q)
    ensures Trim(p + x + q) == Trim(x)
  {
    assert p + x + q == p + (x + q);
    TrimPrefixSpace(p, x + q);
    TrimSuffixSpace(x, q);
  }

  /** The list `xs` with `p` added in front of its first element and `q`
      behind its last. */
  function PadEnds(xs: seq<string>, p: string, q: string): (w: seq<string>)
    requires |xs| >= 1
    ensures |w| == |xs|
  {
    var u := [p + xs[0]] + xs[1..];
    u[..|u| - 1] + [u[|u| - 1] + q]
  }

  lemma PadEndsAt(xs: seq<string>, p: string, q: string, k: nat)
    requires |xs| >= 1 && AllSpace(p) && AllSpace(q) && k < |xs|
    ensures Trim(PadEnds(xs, p, q)[k]) == Trim(xs[k])
  {
    var n := |xs|;
    var w := PadEnds(xs, p, q);
    if n == 1 {
      assert w[k] == p + xs[0] + q;
      TrimIgnoresPadding(p, xs[0], q);
    } else if k == 0 {
      assert w[k] == p + xs[0] + "";
      TrimIgnoresPadding(p, xs[0], "");
    } else if k == n - 1 {
      assert w[k] == "" + xs[k] + q;
      TrimIgnoresPadding("", xs[k], q);
    } else {
      assert w[k] == xs[k];
    }
  }

  /** Lists that trim to the same pieces, piece by piece, trim to the same list. */
  lemma TrimAllPointwise(xs: seq<string>, ys: seq<string>)
    requires |xs| == |ys|
    requires forall k | 0 <= k < |xs| :: Trim(xs[k]) == Trim(ys[k])
    ensures TrimAll(xs) == TrimAll(ys)
  {
  }

  lemma TrimAllPadEnds(xs: seq<string>, p: string, q: string)
    requires |xs| >= 1 && AllSpace(p) && AllSpace(q)
    ensures TrimAll(PadEnds(xs, p, q)) == TrimAll(xs)
  {
    var w := PadEnds(xs, p, q);
    forall k | 0 <= k < |xs|
      ensures Trim(w[k]) == Trim(xs[k])
    {
      PadEndsAt(xs, p, q, k);
    }
    TrimAllPointwise(w, xs);
  }

  /** White space around a string changes no trimmed piece of it: only the
      first piece can gain leading and the last trailing white space. */
  lemma TrimAllSplitPadded(p: string, r: string, q: string, c: char)
    requires AllSpace(p) && AllSpace(q) && !IsSpace(c)
    ensures TrimAll(Split(p + r + q, c)) == TrimAll(Split(r, c))
  {
    assert c !in p && c !in q;
    SplitPrefix(p, r, c);
    SplitSuffix(p + r, q, c);
    assert Split(p + r + q, c) == PadEnds(Split(r, c), p, q);
    TrimAllPadEnds(Split(r, c), p, q);
  }

  lemma ConcatAssoc(s: string, p: string, a: string, r: string, q: string)
    requires s == p + a && a == r + q
    ensures s == p + r + q
  {
  }

  /** `s` is its trim with white space before and after. */
  lemma TrimParts(s: string) returns (p: string, r: string, q: string)
    ensures s == p + r + q && AllSpace(p) && AllSpace(q) && r == Trim(s)
  {
    var a := TrimStart(s);
    r := TrimEnd(a);
    p, q := s[..|s| - |a|], a[|r|..];
    SliceApart(s, |s| - |a|);
    SliceApart(a, |r|);
    ConcatAssoc(s, p, a, r, q);
  }

  lemma SliceApart(s: string, k: nat)
    requires k <= |s|
    ensures s == s[..k] + s[k..]
  {
  }

  /** Trimming the whole string before splitting changes no trimmed piece. */
  lemma TrimAllSplitTrim(s: string, c: char)
    requires !IsSpace(c)
    ensures TrimAll(Split(Trim(s), c)) == TrimAll(Split(s, c))
  {
    var p, r, q := TrimParts(s);
    TrimAllSplitPadded(p, r, q, c);
  }

  /** `Trim` applied to every element (JavaScript's `.map(s => s.trim())`). */
  function TrimAll(xs: seq<string>): (r: seq<string>)
    ensures |r| == |xs|
    ensures forall i | 0 <= i < |r| :: r[i] == Trim(xs[i])
  {
    if |xs| == 0 then [] else [Trim(xs[0])] + TrimAll(xs[1..])
  }

  /** Trimmed pieces of a list whose pieces avoid `c` are trimmed and avoid `c`. */
  lemma TrimAllKeepsOut(xs: seq<string>, c: char)
    requires forall i | 0 <= i < |xs| :: c !in xs[i]
    ensures forall i | 0 <= i < |xs| :: c !in TrimAll(xs)[i] && IsTrimmed(TrimAll(xs)[i])
  {
    forall i | 0 <= i < |xs|
      ensures c !in TrimAll(xs)[i]
    {
      TrimKeepsOut(xs[i], c);
    }
  }

  // ---------------------------------------------------------------------
  // searching

  /** `p` opens `s`. */
  predicate IsPrefix(p: string, s: string) {
    |p| <= |s| && s[..|p|] == p
  }

  /** `p` closes `s`. */
  predicate IsSuffix(p: string, s: string) {
    |p| <= |s| && s[|s| - |p|..] == p
  }

  predicate OccursAt(s: string, pat: string, i: nat) {
    i + |pat| <= |s| && s[i..i + |pat|] == pat
  }

  /** JavaScript's `s.includes(pat)`. */
  predicate Contains(s: string, pat: string) {
    exists i | 0 <= i <= |s| :: OccursAt(s, pat, i)
  }

  /** JavaScript's `s.indexOf(pat)`, with `None` for -1: the first position of `pat`. */
  function IndexOf(s: string, pat: string): (r: Option<nat>)
    ensures r.Some? ==> OccursAt(s, pat, r.value)
    ensures r.Some? ==> forall j | 0 <= j < r.value :: !OccursAt(s, pat, j)
    ensures r.None? <==> !Contains(s, pat)
    decreases |s|
  {
    if |pat| > |s| then None
    else if s[..|pat|] == pat then
      assert OccursAt(s, pat, 0);
      Some(0)
    else
      var rest := IndexOf(s[1..], pat);
      assert forall j | 1 <= j <= |s| :: OccursAt(s, pat, j) == OccursAt(s[1..], pat, j - 1);
      match rest
      case None => None
      case Some(k) => Some(k + 1)
  }

  /** A string lacking the first character of a non-empty pattern lacks the pattern. */
  lemma LacksFirstChar(s: string, pat: string)
    requires |pat| >= 1 && pat[0] !in s
    ensures !Contains(s, pat)
  {
    forall i | 0 <= i <= |s|
      ensures !OccursAt(s, pat, i)
    {
      if i + |pat| <= |s| {
        assert s[i..i + |pat|][0] == s[i];
      }
    }
  }

  /** JavaScript's `s.replace(pat, "")` with a string pattern: only the first
      occurrence is removed, and a string without `pat` is returned as it is. */
  function RemoveFirst(s: string, pat: string): (r: string)
    ensures !Contains(s, pat) ==> r == s
    ensures Contains(s, pat) ==>
              exists i | 0 <= i <= |s| - |pat| ::
                OccursAt(s, pat, i) && r == s[..i] + s[i + |pat|..] &&
                forall j | 0 <= j < i :: !OccursAt(s, pat, j)
  {
    match IndexOf(s, pat)
    case None => s
    case Some(i) => s[..i] + s[i + |pat|..]
  }

  /** A string without the pattern is left as it is. */
  lemma RemoveAbsent(s: string, pat: string)
    requires !Contains(s, pat)
    ensures RemoveFirst(s, pat) == s
  {
  }

  /** A pattern that opens the string is the occurrence `RemoveFirst` removes. */
  lemma RemoveLeading(pat: string, rest: string)
    ensures RemoveFirst(pat + rest, pat) == rest
  {
    assert OccursAt(pat + rest, pat, 0);
    assert IndexOf(pat + rest, pat) == Some(0);
  }

  // ---------------------------------------------------------------------
  // case

  predicate IsUpper(c: char) {
    'A' <= c <= 'Z'
  }

  function LowerChar(c: char): char {
    if IsUpper(c) then (c as int + 32) as char else c
  }

  /** ASCII `toLowerCase`: every upper-case letter replaced by its lower-case
      form, every other character kept, length unchanged. */
  function Lower(s: string): (r: string)
    ensures |r| == |s|
    ensures forall i | 0 <= i < |s| :: !IsUpper(r[i])
    ensures forall i | 0 <= i < |s| :: IsSpace(r[i]) <==> IsSpace(s[i])
    ensures forall i | 0 <= i < |s| :: !IsUpper(s[i]) ==> r[i] == s[i]
    ensures forall i | 0 <= i < |s| :: IsUpper(s[i]) ==> r[i] as int == s[i] as int + 32
  {
    seq(|s|, i requires 0 <= i < |s| => LowerChar(s[i]))
  }

  /** Lower-casing works character by character. */
  lemma LowerAppend(a: string, b: string)
    ensures Lower(a + b) == Lower(a) + Lower(b)
  {
  }

  /** Each string of a list lower-cased. */
  function LowerAll(xs: seq<string>): (r: seq<string>)
    ensures |r| == |xs|
    ensures forall i | 0 <= i < |xs| :: |r[i]| == |xs[i]| && (NoSpace(xs[i]) ==> NoSpace(r[i]))
  {
    seq(|xs|, i requires 0 <= i < |xs| => Lower(xs[i]))
  }

  /** Lower-casing a join lower-cases each piece and the separator. */
  lemma {:induction false} LowerJoin(xs: seq<string>, sep: string)
    ensures Lower(Join(xs, sep)) == Join(LowerAll(xs), Lower(sep))
    decreases |xs|
  {
    if |xs| >= 2 {
      LowerJoin(xs[1..], sep);
      LowerAppend(xs[0] + sep, Join(xs[1..], sep));
      LowerAppend(xs[0], sep);
      assert LowerAll(xs)[1..] == LowerAll(xs[1..]);
    }
  }

  /** Lower-casing a string that has no upper-case letter changes nothing. */
  lemma LowerNoUpper(s: string)
    requires forall i | 0 <= i < |s| :: !IsUpper(s[i])
    ensures Lower(s) == s
  {
  }
}
