/**
  The workspace's folder list, the two instruction files the extension
  writes to, chosen by the `cursorRules` setting, and the heading a fresh
  file starts with.
 */
module Targets {
  /** `vscode.workspace.workspaceFolders`: undefined when no workspace is
      open, otherwise a list of `count` folders, which may be empty. */
  datatype Folders = NoWorkspace | Workspace(count: nat)

  const CopilotPath: string := ".github/copilot-instructions.md"
  const CursorPath: string := ".cursorrules"

  /** The workspace-relative file rules are appended to. */
  function TargetPath(cursorRules: bool): (r: string)
    ensures r == CursorPath <==> cursorRules
    ensures r == CopilotPath <==> !cursorRules
  {
    if cursorRules then CursorPath else CopilotPath
  }

  /** The name written in the heading of a fresh instruction file. */
  function FileTitle(cursorRules: bool): (r: string)
    ensures r == "Cursor Rules" <==> cursorRules
    ensures r == "Copilot Instructions" <==> !cursorRules
  {
    if cursorRules then "Cursor Rules" else "Copilot Instructions"
  }

  /** The markdown level-one heading a file gets when it cannot be read. */
  function FreshHeading(cursorRules: bool): (r: string)
    ensures |r| >= 2 && r[..2] == "# " && r[2..] == FileTitle(cursorRules)
  {
    "# " + FileTitle(cursorRules)
  }

  /** The two settings never share a file or a heading. */
  lemma TargetsDistinct(a: bool, b: bool)
    ensures TargetPath(a) == TargetPath(b) <==> a == b
    ensures FreshHeading(a) == FreshHeading(b) <==> a == b
  {
    if FreshHeading(a) == FreshHeading(b) {
      assert FreshHeading(a)[2..] == FreshHeading(b)[2..];
    }
  }
}
