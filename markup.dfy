/**
 * The parsed page as the search and the extractors see it: an element tree
 * whose nodes carry a tag, ordered attribute pairs, child elements and an
 * optional text (lxml gives `None` for an element without text).
 */
module Markup {

  datatype Option<+T> = None | Some(value: T)

  /** One element of the parsed page. */
  datatype Node = Node(tag: string, attrs: seq<(string, string)>, children: seq<Node>, text: Option<string>)

  /**
   * How `search` compares one side (name or value) of an attribute pair: a
   * plain literal is compared for equality, a literal wrapped in a 1-tuple
   * must occur as a substring.
   */
  datatype Matcher = Exact(literal: string) | Contains(needle: string)
}
