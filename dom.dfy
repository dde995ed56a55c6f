/**
  The part of the document tree the content script reads and rewrites.

  A node is a text node, a comment, an element or the wrapper span that
  `getTooltipNode` builds around the tooltip icon. That wrapper is kept
  abstract as a `Trigger` carrying the PEP number its tooltip shows.
 */
module Dom {
  import opened Wrappers

  datatype Node =
    | Text(data: string)
    | Comment(data: string)
      /** `tag` is `tagName`, `role` the `role` attribute (`null` when absent),
          `marked` whether the processed marker attribute is set, and `attrs`
          the serialised text of every other attribute. */
    | Element(tag: string, role: Option<string>, marked: bool, attrs: string, children: seq<Node>)
    | Trigger(number: string)

  /** The attribute that marks an element as processed. */
  const MarkerAttribute := "data-pep-tooltip-added"

  /** The information-source emoji shown as the tooltip icon. */
  const InfoIconText := "\U{2139}\U{FE0F}"

  /** The icon span inside a trigger. */
  const IconMarkup := "<span class=\"pep-tooltip-icon\">" + InfoIconText + "</span>"

  /** The markup of a trigger: the wrapper span around the icon span. */
  const TriggerMarkup := "<span class=\"pep-tooltip-wrapper\">" + IconMarkup + "</span>"

  function RoleAttribute(role: Option<string>): string
  {
    match role
    case None => ""
    case Some(r) => " role=\"" + r + "\""
  }

  function MarkerText(marked: bool): string
  {
    if marked then " " + MarkerAttribute + "=\"true\"" else ""
  }

  /** `outerHTML`. Text is not entity-escaped here: escaping `&`, `<`, `>`
      and non-breaking spaces can neither create nor destroy a PEP reference. */
  function OuterHtml(n: Node): string
    decreases n, 1
  {
    match n
    case Text(d) => d
    case Comment(d) => "<!--" + d + "-->"
    case Element(tag, role, marked, attrs, cs) =>
      "<" + tag + RoleAttribute(role) + attrs + MarkerText(marked) + ">" + OuterHtmlOf(cs) + "</" + tag + ">"
    case Trigger(_) => TriggerMarkup
  }

  /** The serialisations of a list of sibling nodes, one after the other. */
  function OuterHtmlOf(ns: seq<Node>): string
    decreases ns, 0
  {
    if ns == [] then "" else OuterHtml(ns[0]) + OuterHtmlOf(ns[1..])
  }

  /** `innerHTML`: the serialisation of the children only. */
  function InnerHtml(n: Node): string
  {
    match n
    case Element(_, _, _, _, cs) => OuterHtmlOf(cs)
    case Trigger(_) => IconMarkup
    case _ => ""
  }

  /** The text a reader sees, without the tooltip icons. */
  function TextOf(n: Node): string
    decreases n, 1
  {
    match n
    case Text(d) => d
    case Comment(_) => ""
    case Element(_, _, _, _, cs) => TextsOf(cs)
    case Trigger(_) => ""
  }

  function TextsOf(ns: seq<Node>): string
    decreases ns, 0
  {
    if ns == [] then "" else TextOf(ns[0]) + TextsOf(ns[1..])
  }

  lemma {:induction false} TextsOfAppend(a: seq<Node>, b: seq<Node>)
    ensures TextsOf(a + b) == TextsOf(a) + TextsOf(b)
  {
    if a == [] {
      assert a + b == b;
    } else {
      assert (a + b)[0] == a[0];
      assert (a + b)[1..] == a[1..] + b;
      TextsOfAppend(a[1..], b);
    }
  }

  /** The PEP numbers of the triggers in a list of siblings, in order. */
  function TriggerNumbers(ns: seq<Node>): seq<string>
  {
    if ns == [] then []
    else (if ns[0].Trigger? then [ns[0].number] else []) + TriggerNumbers(ns[1..])
  }

  lemma {:induction false} TriggerNumbersAppend(a: seq<Node>, b: seq<Node>)
    ensures TriggerNumbers(a + b) == TriggerNumbers(a) + TriggerNumbers(b)
  {
    if a == [] {
      assert a + b == b;
    } else {
      assert (a + b)[0] == a[0];
      assert (a + b)[1..] == a[1..] + b;
      TriggerNumbersAppend(a[1..], b);
    }
  }
}
