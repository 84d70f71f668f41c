/** The part of a PostCSS tree the plugin looks at: a rule holds declarations and comments,
    and knows its selector, the file it was parsed from and the parameters of the at-rule
    that contains it (absent when the rule sits directly in the root). */
module Css {
  import opened Wrappers

  /** A child of a rule. A comment keeps its text and its `raws.before` whitespace. */
  datatype Node =
    | Decl(prop: string, value: string)
    | Comment(text: string, before: string)

  datatype Rule = Rule(
    selector: string,
    file: Option<string>,
    parentParams: Option<string>,
    nodes: seq<Node>)

  /** The `@media (orientation: landscape)` at-rule the plugin appends to the root. */
  datatype MediaBlock = MediaBlock(params: string, rules: seq<Rule>)
}
