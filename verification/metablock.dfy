/**
  The meta block the extension puts at the top of an instruction file so
  that readers know the rule header format, and the decision whether a file
  still needs it. The long block text lives in a module of its own so that
  proofs elsewhere never see it.
 */
module MetaBlock {
  import opened Options
  import opened Strings
  import opened Targets

  /** The block that explains the header format; it names itself with `MetaMarker`. */
  const MetaRuleComment: string :=
    "> " + MetaMarker + "\n> Rules in this file follow this format:\n> @rule <title> | <importance>\n> importance: must/should/may (RFC style)\n> Example: > @rule KISS | must\n@end-meta"
  /** The text whose presence means a file already carries the meta block. */
  const MetaMarker: string := "@meta-rule"

  /** The text an instruction file should hold: unchanged when it already
      mentions the marker, otherwise the meta block, a blank line, then the text. */
  function WithMeta(content: string): (r: string)
    ensures Contains(r, MetaMarker)
    ensures IsSuffix(content, r)
    ensures r == content <==> Contains(content, MetaMarker)
    ensures r != content ==> IsPrefix(MetaRuleComment, r)
  {
    if Contains(content, MetaMarker) then content
    else
      var tail := MetaRuleComment[2 + |MetaMarker|..] + "\n\n" + content;
      var r := MetaRuleComment + "\n\n" + content;
      assert r == "> " + MetaMarker + tail;
      assert r[2..2 + |MetaMarker|] == MetaMarker;
      assert OccursAt(r, MetaMarker, 2);
      r
  }

  /** Adding the meta block twice adds it once. */
  lemma WithMetaIdempotent(content: string)
    ensures WithMeta(WithMeta(content)) == WithMeta(content)
  {
  }

  /** A fresh heading never mentions the marker. */
  lemma FreshHeadingUnmarked(cursorRules: bool)
    ensures !Contains(FreshHeading(cursorRules), MetaMarker)
  {
    assert '@' !in FreshHeading(cursorRules);
    LacksFirstChar(FreshHeading(cursorRules), MetaMarker);
  }

  /** The file write `ensureMetaRule` performs, if any: `None` when the
      folder list is undefined or the text already mentions the marker. Only
      an undefined list stops it; an empty one does not. A file that cannot
      be read stands for the bare fresh heading. */
  function EnsureMetaRule(folders: Folders, read: Option<string>, cursorRules: bool): (w: Option<string>)
    ensures folders.NoWorkspace? ==> w.None?
    ensures w.Some? ==> w.value == MetaRuleComment + "\n\n" + read.GetOr(FreshHeading(cursorRules))
    ensures folders.Workspace? && read.None? ==> w.Some?
    ensures folders.Workspace? && read.Some? ==> (w.None? <==> Contains(read.value, MetaMarker))
  {
    if folders.NoWorkspace? then None
    else
      var content := read.GetOr(FreshHeading(cursorRules));
      var r := WithMeta(content);
      FreshHeadingUnmarked(cursorRules);
      if r == content then None
      else
        assert !Contains(content, MetaMarker);
        Some(r)
  }

  /** A file that needs the block gets it, and running the step again on the
      text it wrote writes nothing. */
  lemma EnsureMetaRuleSettles(folders: Folders, read: Option<string>, cursorRules: bool)
    requires folders.Workspace?
    requires read.None? || !Contains(read.value, MetaMarker)
    ensures EnsureMetaRule(folders, read, cursorRules).Some?
    ensures EnsureMetaRule(folders, EnsureMetaRule(folders, read, cursorRules), cursorRules).None?
  {
  }
}
