/**
  The preview panel's selection state, the two messages the panel sends,
  the lookup of the selected rule, and the text written to the instruction
  file when a rule is chosen. The sections are computed once, when the
  extension starts, and passed in. File contents and the presence of a
  workspace folder are inputs; the file write is an output.
 */
module Session {
  import opened Options
  import opened Strings
  import opened Rules
  import opened Catalog
  import opened Targets
  import MetaBlock

  /** The section tag and rule title currently selected in the panel. */
  datatype Selection = Selection(section: Option<string>, rule: Option<string>)

  /** The messages the panel posts; any other command is ignored. */
  datatype Message = ChangeSection(section: string) | ChangeRule(rule: string) | Other

  /** What the panel shows. */
  datatype Preview = Preview(title: string, content: string)

  /** A whole-file write of `text` at the workspace-relative `path`. */
  datatype FileWrite = FileWrite(path: string, text: string)

  /** The selection after a message, and the file write it caused, if any. */
  datatype Step = Step(selection: Selection, write: Option<FileWrite>)

  const Initial: Selection := Selection(None, None)
  const Separator: string := "\n\n"

  // ---------------------------------------------------------------------
  // lookups

  /** `sections.find(s => s.tag === tag)`. */
  function FindSection(secs: seq<Section>, tag: string): (r: Option<Section>)
    ensures r.Some? ==> exists k | 0 <= k < |secs| ::
              secs[k] == r.value && r.value.tag == tag &&
              forall j | 0 <= j < k :: secs[j].tag != tag
    ensures r.None? <==> forall k | 0 <= k < |secs| :: secs[k].tag != tag
  {
    if |secs| == 0 then None
    else if secs[0].tag == tag then Some(secs[0])
    else
      var r := FindSection(secs[1..], tag);
      assert forall k | 1 <= k < |secs| :: secs[k] == secs[1..][k - 1];
      r
  }

  /** `rules.find(r => r.title === title)`. */
  function FindTitle(rules: seq<Rule>, title: string): (r: Option<Rule>)
    ensures r.Some? ==> exists k | 0 <= k < |rules| ::
              rules[k] == r.value && r.value.title == title &&
              forall j | 0 <= j < k :: rules[j].title != title
    ensures r.None? <==> forall k | 0 <= k < |rules| :: rules[k].title != title
  {
    if |rules| == 0 then None
    else if rules[0].title == title then Some(rules[0])
    else
      var r := FindTitle(rules[1..], title);
      assert forall k | 1 <= k < |rules| :: rules[k] == rules[1..][k - 1];
      r
  }

  /** Section `k` is the first one tagged `tag`. */
  predicate FirstSectionAt(secs: seq<Section>, k: int, tag: string) {
    0 <= k < |secs| && secs[k].tag == tag && forall j | 0 <= j < k :: secs[j].tag != tag
  }

  /** Rule `m` is the first one titled `title`. */
  predicate FirstTitleAt(rules: seq<Rule>, m: int, title: string) {
    0 <= m < |rules| && rules[m].title == title && forall j | 0 <= j < m :: rules[j].title != title
  }

  /** The first rule titled as selected within the first section tagged as
      selected; nothing when either is unset or either lookup fails. */
  function FindCurrentRule(secs: seq<Section>, sel: Selection): (r: Option<Rule>)
    ensures r.Some? ==> sel.section.Some? && sel.rule.Some? && r.value.title == sel.rule.value
    ensures r.Some? ==> exists k, m | FirstSectionAt(secs, k, sel.section.value) ::
              FirstTitleAt(secs[k].rules, m, sel.rule.value) && r.value == secs[k].rules[m]
    ensures sel.section.Some? && sel.rule.Some? ==>
              (r.Some? <==> exists k | FirstSectionAt(secs, k, sel.section.value) ::
                              exists m | 0 <= m < |secs[k].rules| :: secs[k].rules[m].title == sel.rule.value)
    ensures sel.section.Some? ==>
              (forall k | 0 <= k < |secs| :: secs[k].tag != sel.section.value) ==> r.None?
  {
    if sel.section.None? || sel.rule.None? then None
    else
      match FindSection(secs, sel.section.value)
      case None => None
      case Some(s) => FindTitle(s.rules, sel.rule.value)
  }

  /** With the catalog's own sections, a resolved rule is a catalog rule
      that carries the selected tag and has the selected title. */
  lemma ResolvedRuleInCatalog(catalog: seq<Rule>, sel: Selection)
    ensures FindCurrentRule(Sections(catalog), sel).Some? ==>
              var r := FindCurrentRule(Sections(catalog), sel).value;
              r in catalog && sel.section.value in r.tags && r.title == sel.rule.value
  {
    SectionsHoldTaggedRules(catalog);
  }

  /** A tag some catalog rule carries is found among the catalog's
      sections, and its section holds exactly the rules carrying it. */
  lemma SectionOfTag(catalog: seq<Rule>, tag: string)
    requires exists i | 0 <= i < |catalog| :: tag in catalog[i].tags
    ensures FindSection(Sections(catalog), tag).Some?
    ensures FindSection(Sections(catalog), tag).value.rules == RulesWithTag(catalog, tag)
  {
    var secs := Sections(catalog);
    RuleByTagMatchesSection(catalog, tag);
    SectionsHoldTaggedRules(catalog);
    var s := FindSection(secs, tag);
    var k :| 0 <= k < |secs| && secs[k] == s.value;
  }

  /** Conversely, any catalog rule with the selected tag and title makes the
      selection resolve. */
  lemma CatalogRuleResolves(catalog: seq<Rule>, x: Rule, tag: string)
    requires x in catalog && tag in x.tags
    ensures FindCurrentRule(Sections(catalog), Selection(Some(tag), Some(x.title))).Some?
  {
    var i :| 0 <= i < |catalog| && catalog[i] == x;
    assert tag in catalog[i].tags;
    SectionOfTag(catalog, tag);
    var s := FindSection(Sections(catalog), tag).value;
    assert x in RulesWithTag(catalog, tag);
    TitleFound(s.rules, x);
  }

  lemma TitleFound(rules: seq<Rule>, x: Rule)
    requires x in rules
    ensures FindTitle(rules, x.title).Some?
  {
    var k :| 0 <= k < |rules| && rules[k] == x;
  }

  /** The panel's title and content. */
  function PreviewOf(secs: seq<Section>, sel: Selection): (p: Preview)
    ensures FindCurrentRule(secs, sel).Some? ==>
              p.title == sel.rule.value && p.content == FindCurrentRule(secs, sel).value.content
    ensures FindCurrentRule(secs, sel).None? ==>
              p == Preview("Select a rule", "Please select a section and a rule to preview.")
  {
    match FindCurrentRule(secs, sel)
    case Some(r) => Preview(r.title, r.content)
    case None => Preview("Select a rule", "Please select a section and a rule to preview.")
  }

  // ---------------------------------------------------------------------
  // writing the instruction file

  /** The file's new text: the old text, a blank line, then the prompt; when
      the file cannot be read, a fresh heading takes the old text's place. */
  function NewText(existing: Option<string>, prompt: string, cursorRules: bool): (r: string)
    ensures var before := existing.GetOr(FreshHeading(cursorRules));
            |r| == |before| + |Separator| + |prompt| &&
            r[..|before|] == before &&
            r[|before|..|before| + |Separator|] == Separator &&
            r[|before| + |Separator|..] == prompt
  {
    existing.GetOr(FreshHeading(cursorRules)) + Separator + prompt
  }

  /** The old text survives as a prefix; a file that could not be read
      starts with the heading for the chosen target. */
  lemma NewTextKeepsOld(existing: Option<string>, prompt: string, cursorRules: bool)
    ensures existing.Some? ==> IsPrefix(existing.value, NewText(existing, prompt, cursorRules))
    ensures existing.None? ==> IsPrefix(FreshHeading(cursorRules), NewText(existing, prompt, cursorRules))
    ensures IsSuffix(prompt, NewText(existing, prompt, cursorRules))
  {
  }

  /** Appending again keeps everything written before. */
  lemma AppendsAccumulate(t: string, p1: string, p2: string, cursorRules: bool)
    ensures var once := NewText(Some(t), p1, cursorRules);
            IsPrefix(once, NewText(Some(once), p2, cursorRules)) &&
            IsPrefix(t, NewText(Some(once), p2, cursorRules))
  {
    var once := NewText(Some(t), p1, cursorRules);
    var twice := NewText(Some(once), p2, cursorRules);
    assert twice[..|once|][..|t|] == t;
  }

  /** The folder list has a first folder to resolve the target path against. */
  predicate HasFolder(folders: Folders) {
    folders.Workspace? && folders.count >= 1
  }

  /** `insertPromptToFile`: the new text at the chosen target. Nothing is
      written when the folder list is undefined, which shows an error, or
      empty, where looking up the first folder throws. */
  function InsertPrompt(folders: Folders, existing: Option<string>, prompt: string, cursorRules: bool)
    : (w: Option<FileWrite>)
    ensures w.Some? <==> HasFolder(folders)
    ensures w.Some? ==> w.value.path == TargetPath(cursorRules)
    ensures w.Some? ==> IsSuffix(prompt, w.value.text)
    ensures w.Some? && existing.Some? ==> IsPrefix(existing.value, w.value.text)
    ensures w.Some? ==> w.value.text == NewText(existing, prompt, cursorRules)
  {
    if !HasFolder(folders) then None
    else
      NewTextKeepsOld(existing, prompt, cursorRules);
      Some(FileWrite(TargetPath(cursorRules), NewText(existing, prompt, cursorRules)))
  }

  /** The writes `insertPromptToFile` attempts, in order, when the outcome
      of the first write is known. A read and a write share one `catch`: a
      first write that fails after a good read is followed by a second one
      that starts over from the fresh heading. */
  function WriteAttempts(folders: Folders, existing: Option<string>, firstWriteFails: bool,
                         prompt: string, cursorRules: bool): (ws: seq<FileWrite>)
    ensures !HasFolder(folders) ==> ws == []
    ensures HasFolder(folders) ==> |ws| >= 1 && Some(ws[0]) == InsertPrompt(folders, existing, prompt, cursorRules)
    ensures |ws| == 2 <==> HasFolder(folders) && existing.Some? && firstWriteFails
    ensures |ws| <= 2
    ensures |ws| == 2 ==> ws[1] == FileWrite(TargetPath(cursorRules), NewText(None, prompt, cursorRules))
  {
    if !HasFolder(folders) then []
    else
      var first := FileWrite(TargetPath(cursorRules), NewText(existing, prompt, cursorRules));
      if existing.Some? && firstWriteFails then
        [first, FileWrite(TargetPath(cursorRules), NewText(None, prompt, cursorRules))]
      else [first]
  }

  /** The retry after a failed write does not depend on what the file held:
      its old text is not carried over. */
  lemma RetryDropsOldText(folders: Folders, a: string, b: string, prompt: string, cursorRules: bool)
    requires HasFolder(folders)
    ensures var wa := WriteAttempts(folders, Some(a), true, prompt, cursorRules);
            var wb := WriteAttempts(folders, Some(b), true, prompt, cursorRules);
            |wa| == 2 && |wb| == 2 && wa[1] == wb[1] &&
            IsPrefix(FreshHeading(cursorRules), wa[1].text)
  {
    NewTextKeepsOld(None, prompt, cursorRules);
  }

  // ---------------------------------------------------------------------
  // messages

  /** `handleWebviewMessage`. Choosing a section clears the rule; choosing
      the empty rule clears it; any other title is kept as sent, and the
      file is written when it resolves to a rule. */
  function Handle(secs: seq<Section>, sel: Selection, msg: Message,
                  folders: Folders, existing: Option<string>, cursorRules: bool): (st: Step)
    ensures msg.ChangeSection? ==> st == Step(Selection(Some(msg.section), None), None)
    ensures msg.ChangeRule? ==>
              st.selection == Selection(sel.section, if msg.rule == "" then None else Some(msg.rule))
    ensures msg.Other? ==> st == Step(sel, None)
    ensures st.write.Some? <==>
              msg.ChangeRule? && HasFolder(folders) && FindCurrentRule(secs, st.selection).Some?
    ensures st.write.Some? ==>
              st.write.value.path == TargetPath(cursorRules) &&
              IsSuffix(FindCurrentRule(secs, st.selection).value.content, st.write.value.text)
    ensures st.write.Some? ==>
              st.write == InsertPrompt(folders, existing,
                                       FindCurrentRule(secs, st.selection).value.content, cursorRules)
  {
    match msg
    case ChangeSection(s) => Step(Selection(Some(s), None), None)
    case Other => Step(sel, None)
    case ChangeRule(t) =>
      var next := Selection(sel.section, if t == "" then None else Some(t));
      if next.rule.None? then Step(next, None)
      else
        match FindCurrentRule(secs, next)
        case None => Step(next, None)
        case Some(r) => Step(next, InsertPrompt(folders, existing, r.content, cursorRules))
  }

  /** Choosing the empty rule never writes. */
  lemma EmptyRuleNeverWrites(secs: seq<Section>, sel: Selection,
                             folders: Folders, existing: Option<string>, cursorRules: bool)
    ensures Handle(secs, sel, ChangeRule(""), folders, existing, cursorRules).write.None?
  {
  }

  /** After a section change the preview shows the placeholders, whatever was selected. */
  lemma SectionChangeResetsPreview(secs: seq<Section>, sel: Selection, tag: string,
                                   folders: Folders, existing: Option<string>, cursorRules: bool)
    ensures var st := Handle(secs, sel, ChangeSection(tag), folders, existing, cursorRules);
            PreviewOf(secs, st.selection) == Preview("Select a rule", "Please select a section and a rule to preview.")
  {
  }

  /** With the catalog's sections, choosing a catalog rule's title under one
      of its tags, in a workspace, writes that rule's content at the end of
      the target file. */
  lemma ChoosingCatalogRuleWrites(catalog: seq<Rule>, x: Rule, tag: string,
                                  folders: Folders, existing: Option<string>, cursorRules: bool)
    requires x in catalog && tag in x.tags && x.title != "" && HasFolder(folders)
    ensures var st := Handle(Sections(catalog), Selection(Some(tag), None), ChangeRule(x.title),
                             folders, existing, cursorRules);
            st.write.Some? && st.write.value.path == TargetPath(cursorRules)
  {
    CatalogRuleResolves(catalog, x, tag);
  }

  /** With a workspace open but no folder in it, the two file steps part
      ways: `ensureMetaRule` checks only that the folder list is defined and
      still writes, while `insertPromptToFile` writes nothing. */
  lemma EmptyFolderListDiffers(read: Option<string>, existing: Option<string>, prompt: string,
                               cursorRules: bool)
    requires read.None? || !Contains(read.value, MetaBlock.MetaMarker)
    ensures MetaBlock.EnsureMetaRule(Workspace(0), read, cursorRules).Some?
    ensures InsertPrompt(Workspace(0), existing, prompt, cursorRules).None?
  {
    MetaBlock.EnsureMetaRuleSettles(Workspace(0), read, cursorRules);
  }
}
