/**
  The rule editor form: what its save button turns the three fields (title,
  content, comma-separated tags) into, and how an existing rule pre-fills
  them.
 */
module RuleEditor {
  import opened Options
  import opened Strings
  import opened Rules

  /** The author every rule saved from the form carries. */
  const CustomAuthor: Author := Author("Custom", "", "")
  const TagSeparator: string := ", "

  // ---------------------------------------------------------------------
  // tags

  /** `filter(Boolean)` on strings: the non-empty ones, in order. */
  function NonEmpty(xs: seq<string>): (r: seq<string>)
    ensures |r| <= |xs|
    ensures forall i | 0 <= i < |r| :: r[i] != ""
    ensures forall x :: x in r <==> x in xs && x != ""
    ensures (forall i | 0 <= i < |xs| :: xs[i] != "") ==> r == xs
  {
    if |xs| == 0 then []
    else (if xs[0] == "" then [] else [xs[0]]) + NonEmpty(xs[1..])
  }

  /** The tags field split on `,`, each piece trimmed, empty pieces dropped. */
  function ParseTags(field: string): (tags: seq<string>)
    ensures forall i | 0 <= i < |tags| :: tags[i] != "" && IsTrimmed(tags[i]) && ',' !in tags[i]
  {
    var pieces := Split(field, ',');
    TrimAllKeepsOut(pieces, ',');
    NonEmptyKeepsClean(TrimAll(pieces));
    NonEmpty(TrimAll(pieces))
  }

  /** Dropping the empty pieces of trimmed comma-free pieces leaves clean tags. */
  lemma {:induction false} NonEmptyKeepsClean(xs: seq<string>)
    requires forall i | 0 <= i < |xs| :: IsTrimmed(xs[i]) && ',' !in xs[i]
    ensures forall i | 0 <= i < |NonEmpty(xs)| :: CleanTag(NonEmpty(xs)[i])
  {
    if |xs| > 0 {
      NonEmptyKeepsClean(xs[1..]);
    }
  }

  /** A tag the form can carry unchanged. */
  predicate CleanTag(t: string) {
    t != "" && IsTrimmed(t) && ',' !in t
  }

  /** Filtering a concatenation filters each part, so the kept strings stay
      in their order and each keeps its multiplicity. */
  lemma {:induction false} NonEmptyAppend(a: seq<string>, b: seq<string>)
    ensures NonEmpty(a + b) == NonEmpty(a) + NonEmpty(b)
    decreases |a|
  {
    if |a| == 0 {
      assert a + b == b;
    } else {
      assert (a + b)[1..] == a[1..] + b;
      NonEmptyAppend(a[1..], b);
    }
  }

  lemma NonEmptyCons(a: string, ys: seq<string>)
    requires a != ""
    ensures NonEmpty([a] + ys) == [a] + NonEmpty(ys)
  {
    assert ([a] + ys)[1..] == ys;
  }

  lemma TrimAllCons(a: string, ys: seq<string>)
    ensures TrimAll([a] + ys) == [Trim(a)] + TrimAll(ys)
  {
    assert ([a] + ys)[1..] == ys;
  }

  /** Characters of white space are never commas. */
  lemma SpaceLacksComma(p: string)
    requires AllSpace(p)
    ensures ',' !in p
  {
    assert !IsSpace(',');
  }

  /** An all-space field holds no tag. */
  lemma ParseBlank(p: string, xs: seq<string>)
    requires AllSpace(p) && |xs| == 0
    ensures ParseTags(p + Join(xs, TagSeparator)) == xs
  {
    assert p + Join(xs, TagSeparator) == p;
    SpaceLacksComma(p);
    SplitNoSeparator(p, ',');
    TrimAllSpace(p);
  }

  lemma TrimAllSpace(p: string)
    requires AllSpace(p)
    ensures TrimAll([p]) == [""]
  {
    TrimPadded(p, "", "");
    assert p + "" + "" == p;
  }

  /** White space and one clean tag give that tag. */
  lemma ParseSingle(p: string, xs: seq<string>)
    requires AllSpace(p) && |xs| == 1 && CleanTag(xs[0])
    ensures ParseTags(p + Join(xs, TagSeparator)) == xs
  {
    assert xs == [xs[0]];
    ParseOne(p, xs[0]);
  }

  lemma ParseOne(p: string, x: string)
    requires AllSpace(p) && CleanTag(x)
    ensures ParseTags(p + Join([x], TagSeparator)) == [x]
  {
    assert Join([x], TagSeparator) == x;
    SpaceLacksComma(p);
    SingleTag(p, x);
  }

  lemma SingleTag(p: string, x: string)
    requires AllSpace(p) && CleanTag(x) && ',' !in p
    ensures ParseTags(p + x) == [x]
  {
    assert ',' !in p + x;
    SplitNoSeparator(p + x, ',');
    TrimPadded(p, x, "");
    assert p + x + "" == p + x;
    assert TrimAll([p + x]) == [x];
    NonEmptyCons(x, []);
    assert [x] + [] == [x];
  }

  /** A clean tag before the first comma is the first parsed tag. */
  lemma ParseFirst(p: string, x: string, rest: string)
    requires AllSpace(p) && CleanTag(x)
    ensures ParseTags(p + x + [','] + rest) == [x] + ParseTags(rest)
  {
    SpaceLacksComma(p);
    assert ',' !in p + x;
    SplitAtSeparator(p + x, ',', rest);
    TrimPadded(p, x, "");
    assert p + x + "" == p + x;
    TrimAllCons(p + x, Split(rest, ','));
    NonEmptyCons(x, TrimAll(Split(rest, ',')));
  }

  lemma JoinedTagsShape(p: string, xs: seq<string>)
    requires |xs| >= 2
    ensures p + Join(xs, TagSeparator) == p + xs[0] + [','] + (" " + Join(xs[1..], TagSeparator))
  {
    var j := Join(xs[1..], TagSeparator);
    assert Join(xs, TagSeparator) == xs[0] + TagSeparator + j;
    SeparatorParts();
    Regroup4(p, xs[0], [','], " ", j);
  }

  /** The tag separator is a comma, then a space. */
  lemma SeparatorParts()
    ensures TagSeparator == [','] + " "
  {
  }

  /** Regrouping a concatenation of five. */
  lemma Regroup4(p: string, x: string, c: string, t: string, j: string)
    ensures p + (x + (c + t) + j) == p + x + c + (t + j)
  {
  }

  /** The step of the round trip: the first tag, then the rest as parsed. */
  lemma ParseJoinedStep(p: string, xs: seq<string>)
    requires AllSpace(p) && |xs| >= 2 && CleanTag(xs[0])
    requires ParseTags(" " + Join(xs[1..], TagSeparator)) == xs[1..]
    ensures ParseTags(p + Join(xs, TagSeparator)) == xs
  {
    JoinedTagsShape(p, xs);
    ParseFirst(p, xs[0], " " + Join(xs[1..], TagSeparator));
    assert xs == [xs[0]] + xs[1..];
  }

  /** White space, then clean tags joined with `", "`, parse back to the tags. */
  lemma {:induction false} ParseJoinedTags(p: string, xs: seq<string>)
    requires AllSpace(p)
    requires forall i | 0 <= i < |xs| :: CleanTag(xs[i])
    ensures ParseTags(p + Join(xs, TagSeparator)) == xs
    decreases |xs|
  {
    if |xs| == 0 {
      ParseBlank(p, xs);
    } else if |xs| == 1 {
      ParseSingle(p, xs);
    } else {
      assert AllSpace(" ");
      assert forall i | 0 <= i < |xs[1..]| :: CleanTag(xs[1..][i]);
      ParseJoinedTags(" ", xs[1..]);
      ParseJoinedStep(p, xs);
    }
  }

  /** Tags pre-filled by joining with `", "` parse back to the same list. */
  lemma TagsRoundTrip(xs: seq<string>)
    requires forall i | 0 <= i < |xs| :: CleanTag(xs[i])
    ensures ParseTags(Join(xs, TagSeparator)) == xs
  {
    ParseJoinedTags("", xs);
    assert "" + Join(xs, TagSeparator) == Join(xs, TagSeparator);
  }

  // ---------------------------------------------------------------------
  // slug

  /** `replace(/\s+/g, '-')`: every maximal run of white space becomes one `-`. */
  function Collapse(s: string): (r: string)
    ensures NoSpace(r)
    ensures |r| <= |s|
    ensures (forall i | 0 <= i < |s| :: !IsUpper(s[i])) ==> (forall i | 0 <= i < |r| :: !IsUpper(r[i]))
    decreases |s|
  {
    if |s| == 0 then ""
    else if IsSpace(s[0]) then
      var t := TrimStart(s);
      assert |t| < |s|;
      assert forall i | 0 <= i < |t| :: t[i] == s[|s| - |t| + i];
      "-" + Collapse(t)
    else
      assert forall i | 0 <= i < |s| - 1 :: s[1..][i] == s[i + 1];
      [s[0]] + Collapse(s[1..])
  }

  /** Text without white space is left as it is. */
  lemma {:induction false} CollapseNoSpace(s: string)
    requires NoSpace(s)
    ensures Collapse(s) == s
    decreases |s|
  {
    if |s| > 0 {
      CollapseNoSpace(s[1..]);
      assert s == [s[0]] + s[1..];
    }
  }

  /** A whole run of white space between text without white space and text
      that does not start with white space turns into exactly one `-`. */
  lemma {:induction false} CollapseRun(a: string, w: string, b: string)
    requires NoSpace(a) && AllSpace(w) && |w| >= 1
    requires |b| == 0 || !IsSpace(b[0])
    ensures Collapse(a + w + b) == a + "-" + Collapse(b)
    decreases |a|
  {
    if |a| == 0 {
      assert a + w + b == w + b;
      TrimStartAllSpace(w, b);
      TrimStartKeepsNonSpace(b);
    } else {
      assert (a + w + b)[1..] == a[1..] + w + b;
      CollapseRun(a[1..], w, b);
    }
  }

  /** Text that starts with a non-space is untouched by `TrimStart`. */
  lemma TrimStartKeepsNonSpace(b: string)
    requires |b| == 0 || !IsSpace(b[0])
    ensures TrimStart(b) == b
  {
  }

  /** The first character of a join is that of its first piece. */
  lemma JoinStart(ws: seq<string>, sep: string)
    requires |ws| >= 1 && |ws[0]| >= 1
    ensures |Join(ws, sep)| >= 1 && Join(ws, sep)[0] == ws[0][0]
  {
  }

  /** Words without white space, separated by single spaces, collapse to the
      same words separated by `-`. */
  lemma {:induction false} CollapseWords(ws: seq<string>)
    requires forall i | 0 <= i < |ws| :: ws[i] != "" && NoSpace(ws[i])
    ensures Collapse(Join(ws, " ")) == Join(ws, "-")
    decreases |ws|
  {
    if |ws| == 1 {
      CollapseNoSpace(ws[0]);
    } else if |ws| >= 2 {
      var rest := Join(ws[1..], " ");
      JoinStart(ws[1..], " ");
      assert AllSpace(" ");
      CollapseRun(ws[0], " ", rest);
      CollapseWords(ws[1..]);
    }
  }

  /** Words joined by runs of white space and followed by one more run
      collapse to the words joined by `-`, with a closing `-`. */
  lemma {:induction false} CollapseJoinRuns(ws: seq<string>, sep: string, q: string)
    requires |ws| >= 1 && forall i | 0 <= i < |ws| :: ws[i] != "" && NoSpace(ws[i])
    requires AllSpace(sep) && |sep| >= 1 && AllSpace(q) && |q| >= 1
    ensures Collapse(Join(ws, sep) + q) == Join(ws, "-") + "-"
    decreases |ws|
  {
    if |ws| == 1 {
      assert ws[0] + q + "" == Join(ws, sep) + q;
      CollapseRun(ws[0], q, "");
    } else {
      var rest := Join(ws[1..], sep) + q;
      JoinStart(ws[1..], sep);
      assert Join(ws, sep) + q == ws[0] + sep + rest;
      CollapseRun(ws[0], sep, rest);
      CollapseJoinRuns(ws[1..], sep, q);
    }
  }

  /** White space never holds an upper-case letter, so lower-casing leaves it alone. */
  lemma LowerSpace(p: string)
    requires AllSpace(p)
    ensures Lower(p) == p
  {
    LowerNoUpper(p);
  }

  /** Lower-casing a padded join works piece by piece. */
  lemma LowerPadded(p: string, ws: seq<string>, sep: string, q: string)
    requires AllSpace(p) && AllSpace(sep) && AllSpace(q)
    ensures Lower(p + Join(ws, sep) + q) == p + Join(LowerAll(ws), sep) + q
  {
    LowerAppend(p + Join(ws, sep), q);
    LowerAppend(p, Join(ws, sep));
    LowerJoin(ws, sep);
    LowerSpace(p);
    LowerSpace(sep);
    LowerSpace(q);
  }

  /** Runs of white space before, between and after words each collapse to one `-`. */
  lemma CollapsePadded(p: string, ws: seq<string>, sep: string, q: string)
    requires |ws| >= 1 && forall i | 0 <= i < |ws| :: ws[i] != "" && NoSpace(ws[i])
    requires AllSpace(p) && |p| >= 1 && AllSpace(sep) && |sep| >= 1 && AllSpace(q) && |q| >= 1
    ensures Collapse(p + Join(ws, sep) + q) == "-" + Join(ws, "-") + "-"
  {
    JoinedWordsStart(ws, sep, q);
    CollapseJoinRuns(ws, sep, q);
    CollapseAfterRun(p, Join(ws, sep), q, Join(ws, "-"));
  }

  /** A run of white space before text that collapses to `r` then `-` adds a leading `-`. */
  lemma CollapseAfterRun(p: string, j: string, q: string, r: string)
    requires AllSpace(p) && |p| >= 1
    requires |j + q| >= 1 && !IsSpace((j + q)[0])
    requires Collapse(j + q) == r + "-"
    ensures Collapse(p + j + q) == "-" + r + "-"
  {
    CollapseLeadingRun(p, j + q);
    Regroup3(p, j, q);
  }

  /** Words joined by anything, then anything, start with a non-space. */
  lemma JoinedWordsStart(ws: seq<string>, sep: string, q: string)
    requires |ws| >= 1 && ws[0] != "" && NoSpace(ws[0])
    ensures |Join(ws, sep) + q| >= 1 && !IsSpace((Join(ws, sep) + q)[0])
  {
    JoinStart(ws, sep);
  }

  /** Regrouping a concatenation of three. */
  lemma Regroup3(p: string, j: string, q: string)
    ensures p + j + q == p + (j + q)
  {
  }


  /** A run of white space that opens the text becomes one `-`. */
  lemma CollapseLeadingRun(w: string, b: string)
    requires AllSpace(w) && |w| >= 1
    requires |b| == 0 || !IsSpace(b[0])
    ensures Collapse(w + b) == "-" + Collapse(b)
  {
    assert (w + b)[0] == w[0];
    TrimStartAllSpace(w, b);
    TrimStartKeepsNonSpace(b);
  }

  /** Every run of white space in a title, at either end or between words,
      becomes exactly one `-` of the slug. */
  lemma PaddedWordsSlug(p: string, ws: seq<string>, sep: string, q: string)
    requires |ws| >= 1 && forall i | 0 <= i < |ws| :: ws[i] != "" && NoSpace(ws[i])
    requires AllSpace(p) && |p| >= 1 && AllSpace(sep) && |sep| >= 1 && AllSpace(q) && |q| >= 1
    ensures DeriveSlug(p + Join(ws, sep) + q) == "-" + Join(LowerAll(ws), "-") + "-"
  {
    LowerPadded(p, ws, sep, q);
    CollapsePadded(p, LowerAll(ws), sep, q);
  }

  /** `title.toLowerCase().replace(/\s+/g, '-')`. */
  function DeriveSlug(title: string): (slug: string)
    ensures NoSpace(slug)
    ensures forall i | 0 <= i < |slug| :: !IsUpper(slug[i])
    ensures |slug| <= |title|
    ensures NoSpace(title) ==> slug == Lower(title)
  {
    var lowered := Lower(title);
    if NoSpace(title) then CollapseNoSpace(lowered); Collapse(lowered)
    else Collapse(lowered)
  }

  /** A title of words without white space separated by single spaces gets
      its lower-cased words joined by `-`. */
  lemma WordsSlug(ws: seq<string>)
    requires forall i | 0 <= i < |ws| :: ws[i] != "" && NoSpace(ws[i])
    ensures DeriveSlug(Join(ws, " ")) == Join(LowerAll(ws), "-")
  {
    LowerJoin(ws, " ");
    assert Lower(" ") == " ";
    CollapseWords(LowerAll(ws));
  }

  /** Deriving the slug of a slug changes nothing. */
  lemma SlugIdempotent(title: string)
    ensures DeriveSlug(DeriveSlug(title)) == DeriveSlug(title)
  {
    var s := DeriveSlug(title);
    LowerNoUpper(s);
    CollapseNoSpace(s);
  }

  // ---------------------------------------------------------------------
  // the form

  /** The rule the save button posts, or `None` when title or content is
      empty and nothing is posted. */
  function SaveRule(title: string, content: string, tagsField: string): (r: Option<Rule>)
    ensures r.None? <==> title == "" || content == ""
    ensures r.Some? ==> r.value.title == title && r.value.content == content
    ensures r.Some? ==> r.value.author == Author("Custom", "", "")
    ensures r.Some? ==> NoSpace(r.value.slug)
    ensures r.Some? ==> forall i | 0 <= i < |r.value.tags| :: CleanTag(r.value.tags[i])
    ensures r.Some? ==> r.value.slug == DeriveSlug(title) && r.value.tags == ParseTags(tagsField)
  {
    if title == "" || content == "" then None
    else Some(Rule(title, DeriveSlug(title), content, ParseTags(tagsField), CustomAuthor))
  }

  /** The three field values the editor opens with. */
  datatype Fields = Fields(title: string, content: string, tags: string)

  function Prefill(rule: Option<Rule>): (f: Fields)
    ensures rule.None? ==> f == Fields("", "", "")
    ensures rule.Some? ==> f.title == rule.value.title && f.content == rule.value.content
    ensures rule.Some? ==> f.tags == Join(rule.value.tags, TagSeparator)
  {
    match rule
    case None => Fields("", "", "")
    case Some(x) => Fields(x.title, x.content, Join(x.tags, TagSeparator))
  }

  /** Opening a rule and saving it unchanged gives the same rule, up to the
      slug, which is derived again from the title, and the author. */
  lemma FormFixedPoint(x: Rule)
    requires x.title != "" && x.content != ""
    requires forall i | 0 <= i < |x.tags| :: CleanTag(x.tags[i])
    ensures var f := Prefill(Some(x));
            SaveRule(f.title, f.content, f.tags)
              == Some(Rule(x.title, DeriveSlug(x.title), x.content, x.tags, CustomAuthor))
  {
    TagsRoundTrip(x.tags);
  }
}
