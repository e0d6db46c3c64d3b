# Copilot instruction generator: a Dafny model of its core

The extension keeps a catalog of coding rules, each with a title, a slug, some
content, some tags and an author. From the catalog it builds a tag index of
*sections*. A preview panel lets the user pick a section and a rule, and the
extension appends the chosen rule's content to an instruction file in the
workspace. That file is `.github/copilot-instructions.md`, or `.cursorrules`
when the `cursorRules` setting is on. Beside that it has three more parts:

- a one-line *rule header* format (`> @rule`, then title, importance and source separated by bars) with
  its writer and parser, plus a *meta block* that documents the format at the
  top of an instruction file;
- a store of the user's own rules, keyed by slug;
- a rule editor form that turns a title, content and comma-separated tags into
  a rule.

This project models those parts as pure functions over immutable data and
proves what they promise. The modules are:

- `Options`: the optional value. It stands for `undefined` and failed lookups.
- `Rules`: `Author`, `Rule`, `Importance` and `RuleBlock`.
- `Strings`: the JavaScript string operations the code relies on. These are
  `trim`, `split` on one character, `join`, `includes`, `replace` of the first
  occurrence, ASCII `toLowerCase`, and their laws.
- `Catalog`: `getSections`, `getRuleBySlug` and `getRuleByTag`. The rule
  catalog is a parameter.
- `Header`: `generateBlockComment` and `parseRuleComment`.
- `MetaBlock`: the meta block and `ensureMetaRule`.
- `Targets`: the two instruction-file paths and the heading of a fresh file.
- `CustomRules`: `getCustomRules`, `saveCustomRule`, `deleteCustomRule` and
  `editCustomRule`.
- `Session`: the preview panel's state. This covers `handleWebviewMessage`,
  `findCurrentRule`, the preview text and `insertPromptToFile`.
- `RuleEditor`: what the editor's save button posts, and how an existing rule
  pre-fills the form.
- `Fixtures`: the clean-code and Python rule blocks.

File contents, the workspace's folder list (undefined, or a list of folders that may be empty), the `cursorRules` setting
and the outcome of a write are parameters. Each file write is returned as a
value.

Behaviour worth noting:

- Choosing a rule appends only the rule's content. No header line is added.
- The same rule chosen twice is appended twice.
- There is no operation that replaces or removes a rule in the file.
- `changeRule` keeps any title it is sent, without checking that the title
  belongs to the section.
- The sections are computed once, at activation.

## Model

| member | source | states |
|---|---|---|
| Catalog.AllTags | src/data/index.ts:118 | A tag appears in the flattened tag list exactly when some catalog rule carries it. |
| Catalog.Distinct | src/data/index.ts:118 | The de-duplicated tags are exactly the input's tags, each listed once, in order of first appearance. |
| Catalog.RulesWithTag | src/data/index.ts:123 | A rule is kept exactly when it carries the tag. The result is no longer than the catalog, and empty when no rule carries the tag. |
| Catalog.RulesWithTagAppend | src/data/index.ts:123 | Filtering distributes over concatenation, so the kept rules stay in catalog order. |
| Catalog.Group | src/data/index.ts:120-124 | One section per tag, in the tags' order. Each section holds exactly the rules that carry its tag. |
| Catalog.SortBySize | src/data/index.ts:125 | The sort is a permutation with larger sections first. Each size class keeps its original relative order, and the sum of sizes is unchanged. |
| Catalog.StableSortUnique | src/data/index.ts:125 | Two size-sorted sequences that agree on each size class are equal, so the stable sort's result is fully determined. |
| Catalog.Sections | src/data/index.ts:117-126 | `getSections`: one section per distinct tag, sorted with larger sections first. Its contents are stated by the four lemmas below. |
| Catalog.SectionsCoverTags | src/data/index.ts:117-126 | There is one section for every tag some rule carries, for no other tag, and no tag has two sections. |
| Catalog.SectionsHoldTaggedRules | src/data/index.ts:117-126 | Each section holds exactly the catalog rules carrying its tag, in catalog order, and is never empty. |
| Catalog.SectionTiesInFirstAppearanceOrder | src/data/index.ts:118-125 | Sections of equal size are ordered by where their tag first appears in the flattened tag list. |
| Catalog.SectionSizesSum | src/data/index.ts:117-126 | Section sizes add up to the number of (rule, distinct tag) pairs: a rule with n distinct tags is in n sections. |
| Catalog.RuleBySlug | src/data/index.ts:128-130 | The result is the first rule with the slug. It is absent exactly when no rule has that slug. |
| Catalog.RuleByTag | src/data/index.ts:132-134 | `getRuleByTag` keeps exactly the catalog rules that carry the tag, and gives nothing for a tag no rule carries. |
| Catalog.RuleByTagMatchesSection | src/data/index.ts:132-134 | For a tag some rule carries, the direct lookup gives exactly that tag's section contents. |
| Catalog.RuleByTagUnknown | src/data/index.ts:117-134 | A tag no rule carries has no section, and looking it up directly gives an empty list rather than an error. |
| Header.HeaderFields | src/data/builtin-rules/meta.ts:20-22 | The fields are the title, then the importance token, then the source only when it is present and non-empty. |
| Header.GenerateBlockComment | src/data/builtin-rules/meta.ts:15-24 | The header is `> @rule`, a space, and the fields separated by a bar with a space on each side, ending in a newline. There are two fields without a source and three with one. |
| Header.HeaderBody | src/data/builtin-rules/meta.ts:28 | The header body is trimmed and no longer than the line. A line without `> @rule` is only trimmed. Otherwise the body is the line with its first `> @rule` cut out, trimmed. |
| Header.HeaderBodyOfPrefixed | src/data/builtin-rules/meta.ts:28 | A line that opens with `> @rule` has the rest of the line, trimmed, as its body. |
| Header.FromFields | src/data/builtin-rules/meta.ts:29-34 | The title is the first piece and the importance is the second piece if any. The source is the third piece only when that piece is non-empty. Later pieces are ignored. |
| Header.HeaderPieces | src/data/builtin-rules/meta.ts:28-29 | Parsing yields at least one piece, and every piece is trimmed and free of bars. |
| Header.ParseRuleComment | src/data/builtin-rules/meta.ts:27-35 | Parsing never fails. Title, importance and source come back trimmed and bar-free, and a source is never empty. |
| Header.SplitJoinPadded | src/data/builtin-rules/meta.ts:23-29 | Fields joined with a spaced bar after white space, split on the bar and trimmed, give back the trimmed fields. |
| Header.ParseSegments | src/data/builtin-rules/meta.ts:27-35 | A line made of `> @rule`, padding, fields joined by spaced bars, and padding parses to the trimmed first, second and non-empty third field. |
| Header.ParseWithoutPrefix | src/data/builtin-rules/meta.ts:28-29 | A line without `> @rule` is still parsed: its title and importance are its trimmed fields. |
| Header.RoundTrip | src/data/builtin-rules/meta.ts:19-35 | Parsing a generated header gives back the title and importance token. It also gives back the source when that is non-empty, and no source otherwise. |
| Header.ImportanceUnchecked | src/data/builtin-rules/meta.ts:32 | Any trimmed word in the importance slot comes back as the importance: it is cast, not validated. |
| MetaBlock.WithMeta | src/data/builtin-rules/meta.ts:55-57 | The result mentions `@meta-rule` and ends with the original text. It equals the original exactly when that already mentions the marker; otherwise it starts with the meta block. |
| MetaBlock.WithMetaIdempotent | src/data/builtin-rules/meta.ts:55-57 | Adding the meta block twice adds it once. |
| MetaBlock.FreshHeadingUnmarked | src/data/builtin-rules/meta.ts:51-55 | The fresh heading never contains the marker, so an unreadable file always gets the meta block. |
| MetaBlock.EnsureMetaRule | src/data/builtin-rules/meta.ts:38-63 | There is no write when the folder list is undefined. An empty folder list does not stop the step. An unreadable file is always written. A readable file is written exactly when it lacks the marker. Whatever is written is the meta block, a blank line, then the old text or the fresh heading. |
| MetaBlock.EnsureMetaRuleSettles | src/data/builtin-rules/meta.ts:38-63 | A missing file, or one without the meta marker, gets the block written; run again on what it wrote, the step writes nothing. |
| Targets.TargetPath | src/index.ts:9-10 | The path is `.cursorrules` exactly when the setting is on, and `.github/copilot-instructions.md` exactly when it is off. |
| Targets.FreshHeading | src/index.ts:116 | A fresh file starts with `# ` followed by `Cursor Rules` or `Copilot Instructions` as the setting says. |
| Targets.TargetsDistinct | src/index.ts:108-116 | The two settings never share a path or a heading. |
| CustomRules.Stored | src/data/custom-rules.ts:6-8 | A store entry never written reads as the empty list. |
| CustomRules.FindSlug | src/data/custom-rules.ts:12 | The result is the first position holding the slug. It is absent exactly when no stored rule has the slug. |
| CustomRules.Save | src/data/custom-rules.ts:10-18 | Save replaces the first rule with the same slug in place and leaves every other entry alone. When there is no such rule it appends the new one. |
| CustomRules.SaveThenFind | src/data/custom-rules.ts:10-18 | After a save, looking the slug up finds the saved rule. |
| CustomRules.SaveTwice | src/data/custom-rules.ts:10-18 | Saving the same rule twice equals saving it once. |
| CustomRules.SaveKeepsUnique | src/data/custom-rules.ts:10-18 | If no two stored rules shared a slug before a save, none do after it. |
| CustomRules.Delete | src/data/custom-rules.ts:20-24 | A rule survives exactly when its slug differs. Deleting an absent slug changes nothing. |
| CustomRules.DeleteAppend | src/data/custom-rules.ts:22 | Deleting distributes over concatenation, so the survivors keep their order. |
| CustomRules.DeleteIdempotent | src/data/custom-rules.ts:20-24 | Deleting twice equals deleting once. |
| CustomRules.DeleteUndoesSave | src/data/custom-rules.ts:10-24 | Deleting a rule just saved under a new slug restores the list. |
| CustomRules.DeleteKeepsUnique | src/data/custom-rules.ts:20-24 | Deleting keeps slugs unique. |
| CustomRules.Apply | src/data/custom-rules.ts:30 | Each field present in the patch replaces the stored field. Every other field is kept. |
| CustomRules.Edit | src/data/custom-rules.ts:26-33 | Nothing is written unless some rule has the slug. Otherwise the first such rule gets the patch and all others are untouched. |
| CustomRules.EditEmptyPatch | src/data/custom-rules.ts:26-33 | An empty patch stores the list back unchanged. |
| CustomRules.EditKeepsUnique | src/data/custom-rules.ts:26-33 | An edit that does not set the slug keeps slugs unique. |
| CustomRules.EditRenames | src/data/custom-rules.ts:26-33 | A patch that sets the slug renames the edited entry. |
| Session.FindSection | src/index.ts:52 | The result is the first section with the tag. It is absent exactly when no section has it. |
| Session.FindTitle | src/index.ts:53 | The result is the first rule with the title. It is absent exactly when no rule has it. |
| Session.FindCurrentRule | src/index.ts:91-96 | With a section and a rule selected, a rule is found exactly when the first section with the selected tag holds a rule with the selected title. The rule found is the first such rule in that section. Nothing is found when either is unselected or the tag is unknown. |
| Session.ResolvedRuleInCatalog | src/index.ts:91-96 | Over the catalog's own sections, a resolved rule is a catalog rule carrying the selected tag and title. |
| Session.SectionOfTag | src/index.ts:92-93 | A tag some catalog rule carries is found among the sections, and its section holds exactly the rules carrying it. |
| Session.CatalogRuleResolves | src/index.ts:91-96 | Any catalog rule, chosen under one of its tags by its title, resolves. |
| Session.PreviewOf | src/index.ts:52-57 | The preview shows the resolved rule's title and content. When no rule resolves it shows the two placeholder texts. |
| Session.NewText | src/index.ts:110-117 | The new text is the old text (or the fresh heading when unreadable), then a blank line, then the prompt. |
| Session.NewTextKeepsOld | src/index.ts:110-117 | The old text is kept as a prefix and the prompt ends the file. An unreadable file starts with the heading. |
| Session.AppendsAccumulate | src/index.ts:111-113 | A second append keeps everything the first one produced. |
| Session.InsertPrompt | src/index.ts:101-119 | A write happens exactly when the folder list holds at least one folder: an undefined list stops the step, and an empty one makes the first-folder lookup throw. The write goes to the configured path, and its text is `NewText`: the old text, or the fresh heading when the read fails, then a blank line, then the prompt. |
| Session.WriteAttempts | src/index.ts:110-118 | The first write attempt is the append. A second attempt, from the fresh heading, happens exactly when a good read is followed by a failed write. |
| Session.RetryDropsOldText | src/index.ts:115-117 | That second attempt does not depend on the old text: the file's previous content is not carried over. |
| Session.Handle | src/index.ts:66-89 | A section change clears the rule and writes nothing, and other messages change nothing. A rule change keeps a non-empty title verbatim and clears on the empty title. It writes exactly when there is at least one workspace folder and the rule resolves. The write is the one `InsertPrompt` makes for the resolved rule's content, so the old file text is kept. |
| Session.EmptyRuleNeverWrites | src/index.ts:74-78 | Choosing the empty rule never writes. |
| Session.SectionChangeResetsPreview | src/index.ts:68-71 | After a section change the preview shows the placeholders, whatever was selected before. |
| Session.ChoosingCatalogRuleWrites | src/index.ts:73-89 | With at least one workspace folder, choosing a catalog rule's title under one of its tags writes to the target path. |
| Session.EmptyFolderListDiffers | src/index.ts:101-108 | With a workspace open but no folders, `ensureMetaRule` still writes a file that lacks the marker, while `insertPromptToFile` writes nothing. |
| RuleEditor.NonEmpty | src/webview/rule-editor.ts:76 | `filter(Boolean)` keeps exactly the non-empty strings, and a list without empty strings is unchanged. |
| RuleEditor.NonEmptyAppend | src/webview/rule-editor.ts:76 | Filtering a concatenation filters each part, so the kept strings keep their order and multiplicity. |
| RuleEditor.ParseTags | src/webview/rule-editor.ts:76 | Every parsed tag is non-empty, trimmed and free of commas. |
| RuleEditor.ParseJoinedTags | src/webview/rule-editor.ts:50-76 | White space followed by clean tags joined with `, ` parses back to exactly those tags. |
| RuleEditor.TagsRoundTrip | src/webview/rule-editor.ts:50-76 | Tags pre-filled by joining with `, ` parse back to the same list. |
| RuleEditor.Collapse | src/webview/rule-editor.ts:77 | After replacing white-space runs the result has no white space, is no longer than the input and adds no upper case. |
| RuleEditor.CollapseNoSpace | src/webview/rule-editor.ts:77 | Text without white space is unchanged. |
| RuleEditor.CollapseRun | src/webview/rule-editor.ts:77 | A whole run of white space between words becomes exactly one `-`. |
| RuleEditor.CollapseWords | src/webview/rule-editor.ts:77 | Words separated by single spaces come out separated by `-`. |
| RuleEditor.WordsSlug | src/webview/rule-editor.ts:77 | A title of words separated by single spaces gets the lower-cased words joined by `-`. |
| RuleEditor.PaddedWordsSlug | src/webview/rule-editor.ts:77 | Every run of white space in a title becomes exactly one `-` of the slug: before the first word, between words and after the last. |
| RuleEditor.DeriveSlug | src/webview/rule-editor.ts:77 | A slug has no white space and no upper case, and is no longer than the title. A title without white space gets its lower-cased self. |
| RuleEditor.SlugIdempotent | src/webview/rule-editor.ts:77 | Deriving the slug of a slug changes nothing. |
| RuleEditor.SaveRule | src/webview/rule-editor.ts:57-84 | Nothing is posted when the title or content is empty. Otherwise the posted rule keeps title and content, has the slug `DeriveSlug` gives for the title and the tags `ParseTags` gives for the field, and is authored by `Custom`. |
| RuleEditor.Prefill | src/webview/rule-editor.ts:42-50 | A new rule opens with empty fields. An existing rule opens with its title, its content, and its tags joined by `, `. |
| RuleEditor.FormFixedPoint | src/webview/rule-editor.ts:42-84 | Opening a rule with clean tags and saving it unchanged gives the same title, content and tags. The slug is derived again and the author becomes `Custom`. |
| Fixtures.CleanCodeSlugsDerived | src/data/rules/clean-code.ts:3-43 | Each clean-code rule's slug is the one the editor derives from its title. |
| Fixtures.PythonSlugsDerived | src/data/rules/python.ts:3-43 | Each Python rule's slug is the one the editor derives from its title. |

## Left out

- Everything the VS Code host does is left out. That covers panels, HTML rendering, commands, information and error messages, extension state plumbing and the file-system calls. Reads and writes appear as parameters and returned values.
- `getWebviewContent`, `i18n.ts`, `config.ts`, `language/markdown-association.ts`, `media/main.js` and the per-language rule lists other than clean code and Python are not part of this model.
- White space is the ASCII set: space, tab, line feed, vertical tab, form feed and carriage return. Lower-casing is ASCII only. JavaScript also treats Unicode spaces as white space and lower-cases non-ASCII letters.
- Reads and writes are not interleaved with other events. Two messages handled at once could race on the same file, and the model handles one message at a time.
- RuleEditor.FormFixedPoint: the form fields are modelled as the strings written into the page, not as the values the browser parses out of it. The browser decodes `&` character references in the `value` attributes and the textarea, and a `"` ends a `value` attribute early. It removes line breaks from text-input values, so a title or tag holding CR or LF changes. It drops a line feed that opens the textarea content, and turns CR into LF there, and a `</textarea>` inside the content ends it. So the fixed point holds in the real form only for rules without these characters. RuleEditor.TagsRoundTrip and RuleEditor.Prefill share this limit.
- The 2-second re-enabling of the save button (`setTimeout`) is left out.
- CustomRules.Apply: a patch field given explicitly as `undefined` overwrites the stored field in JavaScript. The model treats it like an absent field.
- MetaBlock.EnsureMetaRule: the outer `catch` that logs a failed write is left out. A failed write leaves the file as it was, which the model's returned write does not capture.
- Session.InsertPrompt: a failed write in the `catch` branch itself rejects the promise. The model only returns the write that would be attempted. With an empty folder list the first-folder lookup throws before any read: the model returns no write and does not model the rejected promise.
- Session.Handle: a `changeRule` message whose `rule` field is missing is not modelled. The model's message always carries a string.
