/** The document tree the rewrite passes of `lib/markdown/obsidian-parser.ts`
    work on: the mdast nodes they inspect, with every other kind of node
    (root, heading, emphasis, table, ...) folded into `Other`. */
module Mdast {

  datatype Node =
    | Text(value: string)
    | Break
    | Image(url: string, alt: string)
    | Paragraph(children: seq<Node>)
    | List(ordered: bool, children: seq<Node>)
      /** `ordered` is the list item's own `ordered` property, false when absent. */
    | ListItem(ordered: bool, children: seq<Node>)
    | Other(kind: string, children: seq<Node>)
  {
    /** Nodes that have a `children` array. */
    predicate IsContainer()
    {
      Paragraph? || List? || ListItem? || Other?
    }

    /** The same node with its children replaced. */
    function WithChildren(cs: seq<Node>): (r: Node)
      requires IsContainer()
      ensures r.IsContainer() && r.children == cs
    {
      match this
      case Paragraph(_) => Paragraph(cs)
      case List(o, _) => List(o, cs)
      case ListItem(o, _) => ListItem(o, cs)
      case Other(k, _) => Other(k, cs)
    }

    /** Same constructor and same non-child fields. */
    predicate SameShape(other: Node)
    {
      match this
      case Text(_) => other.Text?
      case Break => other.Break?
      case Image(u, a) => other == Image(u, a)
      case Paragraph(_) => other.Paragraph?
      case List(o, _) => other.List? && other.ordered == o
      case ListItem(o, _) => other.ListItem? && other.ordered == o
      case Other(k, _) => other.Other? && other.kind == k
    }
  }
}
