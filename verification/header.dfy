/**
  The one-line rule header (`> @rule title | importance [| source]`) that
  annotates a rule block, and its parser.
 */
module Header {
  import opened Options
  import opened Strings
  import opened Rules

  const BlockCommentStart: string := "> @rule"
  const BlockCommentEnd: string := "\n"
  /** What `join(' | ')` puts between header fields. */
  const FieldSeparator: string := " | "

  // ---------------------------------------------------------------------
  // writing a header

  /** A source counts only when it is present and non-empty, as JavaScript
      truthiness has it. */
  predicate HasSource(b: RuleBlock) {
    b.source.Some? && b.source.value != ""
  }

  /** Title, importance token, then the source when there is one. */
  function HeaderFields(b: RuleBlock): (fs: seq<string>)
    ensures |fs| == (if HasSource(b) then 3 else 2)
    ensures fs[0] == b.rule.title && fs[1] == b.importance.Token()
    ensures HasSource(b) ==> fs[2] == b.source.value
  {
    [b.rule.title, b.importance.Token()] + (if HasSource(b) then [b.source.value] else [])
  }

  /** The header line of a rule block. */
  function GenerateBlockComment(b: RuleBlock): (r: string)
    ensures !HasSource(b) ==>
              r == "> @rule " + b.rule.title + " | " + b.importance.Token() + "\n"
    ensures HasSource(b) ==>
              r == "> @rule " + b.rule.title + " | " + b.importance.Token() + " | " + b.source.value + "\n"
  {
    var fs := HeaderFields(b);
    assert Join(fs, FieldSeparator) == fs[0] + FieldSeparator + Join(fs[1..], FieldSeparator);
    assert HasSource(b) ==> Join(fs[1..], FieldSeparator) == fs[1] + FieldSeparator + fs[2] by {
      if HasSource(b) {
        assert fs[1..][1..] == [fs[2]];
      }
    }
    BlockCommentStart + " " + Join(fs, FieldSeparator) + BlockCommentEnd
  }

  // ---------------------------------------------------------------------
  // reading a header

  /** What the parser returns: the title is always there (the first piece of
      a split), the importance is the second piece if any, cast without a
      check, and the source is the third piece when that is non-empty. */
  datatype ParsedRule = ParsedRule(title: string, importance: Option<string>, source: Option<string>)

  /** Assembles a parsed header from its trimmed pieces; pieces past the third are dropped. */
  function FromFields(parts: seq<string>): (r: ParsedRule)
    requires |parts| >= 1
    ensures r.title == parts[0]
    ensures r.importance.Some? <==> |parts| >= 2
    ensures r.importance.Some? ==> r.importance.value == parts[1]
    ensures r.source.Some? <==> |parts| >= 3 && parts[2] != ""
    ensures r.source.Some? ==> r.source.value == parts[2]
  {
    ParsedRule(parts[0],
               if |parts| >= 2 then Some(parts[1]) else None,
               if |parts| >= 3 && parts[2] != "" then Some(parts[2]) else None)
  }

  /** The header text with its first `> @rule` removed and its ends trimmed. */
  function HeaderBody(comment: string): (b: string)
    ensures IsTrimmed(b) && |b| <= |comment|
    ensures !Contains(comment, BlockCommentStart) ==> b == Trim(comment)
    ensures IndexOf(comment, BlockCommentStart).Some? ==>
              var i := IndexOf(comment, BlockCommentStart).value;
              b == Trim(comment[..i] + comment[i + |BlockCommentStart|..])
  {
    Trim(RemoveFirst(comment, BlockCommentStart))
  }

  /** A line that opens with `> @rule` has the rest of the line, trimmed, as its body. */
  lemma HeaderBodyOfPrefixed(rest: string)
    ensures HeaderBody(BlockCommentStart + rest) == Trim(rest)
  {
    RemoveLeading(BlockCommentStart, rest);
  }

  /** The header body split on `|`, each piece trimmed. */
  function HeaderPieces(comment: string): (ps: seq<string>)
    ensures |ps| >= 1
    ensures forall i | 0 <= i < |ps| :: '|' !in ps[i] && IsTrimmed(ps[i])
  {
    var pieces := Split(HeaderBody(comment), '|');
    TrimAllKeepsOut(pieces, '|');
    TrimAll(pieces)
  }

  /** Parses a header line. It never fails: any text yields a title. */
  function ParseRuleComment(comment: string): (r: ParsedRule)
    ensures IsTrimmed(r.title) && '|' !in r.title
    ensures r.importance.Some? ==> IsTrimmed(r.importance.value) && '|' !in r.importance.value
    ensures r.source.Some? ==>
              r.source.value != "" && IsTrimmed(r.source.value) && '|' !in r.source.value
  {
    FromFields(HeaderPieces(comment))
  }

  // ---------------------------------------------------------------------
  // round trip

  /** Fields joined with `" | "`, after white space, split on `|` and
      trimmed, give the trimmed fields back. */
  lemma {:induction false} SplitJoinPadded(p: string, xs: seq<string>)
    requires |xs| >= 1 && AllSpace(p)
    requires forall i | 0 <= i < |xs| :: '|' !in xs[i]
    ensures TrimAll(Split(p + Join(xs, FieldSeparator), '|')) == TrimAll(xs)
    decreases |xs|
  {
    assert '|' !in p by {
      assert !IsSpace('|');
    }
    if |xs| == 1 {
      SplitNoSeparator(p + xs[0], '|');
      TrimPrefixSpace(p, xs[0]);
    } else {
      var rest := Join(xs[1..], FieldSeparator);
      assert p + Join(xs, FieldSeparator) == (p + xs[0] + " ") + ['|'] + (" " + rest);
      SplitAtSeparator(p + xs[0] + " ", '|', " " + rest);
      SplitJoinPadded(" ", xs[1..]);
      TrimIgnoresPadding(p, xs[0], " ");
      var ys := [p + xs[0] + " "] + Split(" " + rest, '|');
      assert ys[1..] == Split(" " + rest, '|');
    }
  }

  /** Fields joined with `" | "`, split on `|` and trimmed, are the trimmed fields. */
  lemma SplitJoinFields(xs: seq<string>)
    requires |xs| >= 1
    requires forall i | 0 <= i < |xs| :: '|' !in xs[i]
    ensures TrimAll(Split(Join(xs, FieldSeparator), '|')) == TrimAll(xs)
  {
    assert "" + Join(xs, FieldSeparator) == Join(xs, FieldSeparator);
    SplitJoinPadded("", xs);
  }

  lemma HeaderBodyOf(comment: string, body: string)
    requires RemoveFirst(comment, BlockCommentStart) == body
    ensures HeaderBody(comment) == Trim(body)
  {
  }

  /** Once the prefix is gone, the header body's pieces are the trimmed fields. */
  lemma ParseBody(comment: string, p: string, xs: seq<string>, q: string)
    requires AllSpace(p) && AllSpace(q) && |xs| >= 1
    requires forall i | 0 <= i < |xs| :: '|' !in xs[i]
    requires RemoveFirst(comment, BlockCommentStart) == p + Join(xs, FieldSeparator) + q
    ensures HeaderPieces(comment) == TrimAll(xs)
  {
    var j := Join(xs, FieldSeparator);
    assert !IsSpace('|');
    HeaderBodyOf(comment, p + j + q);
    TrimAllSplitTrim(p + j + q, '|');
    TrimAllSplitPadded(p, j, q, '|');
    SplitJoinFields(xs);
  }

  /** Once the prefix is gone, the parsed fields are the trimmed fields. */
  lemma ParseFields(comment: string, p: string, xs: seq<string>, q: string)
    requires AllSpace(p) && AllSpace(q) && |xs| >= 1
    requires forall i | 0 <= i < |xs| :: '|' !in xs[i]
    requires RemoveFirst(comment, BlockCommentStart) == p + Join(xs, FieldSeparator) + q
    ensures var r := ParseRuleComment(comment);
            r.title == Trim(xs[0]) &&
            r.importance == (if |xs| >= 2 then Some(Trim(xs[1])) else None) &&
            r.source == (if |xs| >= 3 && Trim(xs[2]) != "" then Some(Trim(xs[2])) else None)
  {
    ParseBody(comment, p, xs, q);
    assert ParseRuleComment(comment) == FromFields(HeaderPieces(comment));
  }

  /** The leading `> @rule` is the occurrence the parser removes. */
  lemma LeadingStart(p: string, j: string, q: string)
    ensures RemoveFirst(BlockCommentStart + p + j + q, BlockCommentStart) == p + j + q
  {
    assert BlockCommentStart + p + j + q == BlockCommentStart + (p + j + q);
    RemoveLeading(BlockCommentStart, p + j + q);
  }

  /** A header written as `> @rule`, white space, fields joined by `" | "`,
      white space, parses to the trimmed fields: title first, importance
      second, a non-empty third field as source, the rest ignored. */
  lemma ParseSegments(p: string, xs: seq<string>, q: string)
    requires AllSpace(p) && AllSpace(q) && |xs| >= 1
    requires forall i | 0 <= i < |xs| :: '|' !in xs[i]
    ensures var r := ParseRuleComment(BlockCommentStart + p + Join(xs, FieldSeparator) + q);
            r.title == Trim(xs[0]) &&
            r.importance == (if |xs| >= 2 then Some(Trim(xs[1])) else None) &&
            r.source == (if |xs| >= 3 && Trim(xs[2]) != "" then Some(Trim(xs[2])) else None)
  {
    LeadingStart(p, Join(xs, FieldSeparator), q);
    ParseFields(BlockCommentStart + p + Join(xs, FieldSeparator) + q, p, xs, q);
  }

  /** A line that lacks `> @rule` is not rejected: it is split just the same. */
  lemma ParseWithoutPrefix(p: string, xs: seq<string>, q: string)
    requires AllSpace(p) && AllSpace(q) && |xs| >= 1
    requires forall i | 0 <= i < |xs| :: '|' !in xs[i]
    requires !Contains(p + Join(xs, FieldSeparator) + q, BlockCommentStart)
    ensures var r := ParseRuleComment(p + Join(xs, FieldSeparator) + q);
            r.title == Trim(xs[0]) &&
            r.importance == (if |xs| >= 2 then Some(Trim(xs[1])) else None)
  {
    RemoveAbsent(p + Join(xs, FieldSeparator) + q, BlockCommentStart);
    ParseFields(p + Join(xs, FieldSeparator) + q, p, xs, q);
  }

  lemma TokenClean(m: Importance)
    ensures IsTrimmed(m.Token()) && '|' !in m.Token()
  {
  }

  /** Parsing a generated header gives back title, importance and a
      non-empty source; an absent or empty source comes back absent. */
  lemma RoundTrip(b: RuleBlock)
    requires IsTrimmed(b.rule.title) && '|' !in b.rule.title
    requires b.source.Some? ==> IsTrimmed(b.source.value) && '|' !in b.source.value
    ensures var r := ParseRuleComment(GenerateBlockComment(b));
            r.title == b.rule.title &&
            r.importance == Some(b.importance.Token()) &&
            r.source == (if HasSource(b) then b.source else None)
  {
    var fs := HeaderFields(b);
    TokenClean(b.importance);
    assert GenerateBlockComment(b) == BlockCommentStart + " " + Join(fs, FieldSeparator) + "\n";
    ParseSegments(" ", fs, "\n");
    TrimTrimmed(fs[0]);
    TrimTrimmed(fs[1]);
    if HasSource(b) {
      TrimTrimmed(fs[2]);
    }
  }

  lemma JoinTwo(a: string, b: string)
    ensures Join([a, b], FieldSeparator) == a + FieldSeparator + b
  {
    assert [a, b][1..] == [b];
  }

  /** The importance is cast, not checked: whatever trimmed word stands in
      the second field, `urgent` say, comes back as the importance. */
  lemma ImportanceUnchecked(title: string, word: string)
    requires '|' !in title && '|' !in word && IsTrimmed(word)
    ensures ParseRuleComment(BlockCommentStart + " " + title + FieldSeparator + word).importance == Some(word)
  {
    JoinTwo(title, word);
    assert BlockCommentStart + " " + title + FieldSeparator + word
        == BlockCommentStart + " " + Join([title, word], FieldSeparator) + "";
    ParseSegments(" ", [title, word], "");
    TrimTrimmed(word);
  }
}
