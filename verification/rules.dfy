/** The records a rule is made of: the catalog entry and its annotated form. */
module Rules {
  import opened Options

  datatype Author = Author(name: string, url: string, avatar: string)

  /** A titled, tagged snippet of guidance; `slug` is its key in the custom store. */
  datatype Rule = Rule(title: string, slug: string, content: string, tags: seq<string>, author: Author)

  /** The three RFC-style levels a rule block may carry. */
  datatype Importance = Must | Should | May {
    /** The literal token written into a rule header. */
    function Token(): string {
      match this
      case Must => "must"
      case Should => "should"
      case May => "may"
    }
  }

  /** A rule together with its importance and an optional citation. */
  datatype RuleBlock = RuleBlock(rule: Rule, importance: Importance, source: Option<string>)
}
