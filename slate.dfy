/** The part of the rich-text editor's document value that the outline code reads or builds. */
module Slate {

  /** A document node: a text leaf, or an element with a type tag and child nodes. */
  datatype SlateNode =
    | Text(text: string)
    | Element(kind: string, children: seq<SlateNode>)

  /** The editor's `Text.isText` test. */
  predicate IsText(n: SlateNode)
  {
    n.Text?
  }

  /** The placeholder content of a freshly materialised child: a paragraph holding one empty leaf. */
  function EmptyParagraph(): SlateNode
  {
    Element("paragraph", [Text("")])
  }
}
