# PEP Tooltip content script, modelled in Dafny

PEP Tooltip is a browser extension for the Python discussion forum. Its
content script looks through each post for references such as `PEP 8` or
`pep 484`. After every reference it adds a small information icon. Hovering
over the icon shows a tooltip with what the PEP index says about that PEP.

The model covers the pure and the imperative parts of the script:

- `template.dfy` models the script's own HTML template system:
  - `_escape` as five chained one-character `replaceAll` calls;
  - `_htmlParamToString`;
  - the `html` tag function, as the same left `reduce` followed by `join("")`;
  - `joinHTML`.

  `strings.dfy` holds the JavaScript string operations these need: `replaceAll` with a one-character pattern, `split` with a string separator, and `join`.
- `tooltip.dfy` models the tooltip markup:
  - `pepNumbersField`, `buildTooltip` and `getTooltipContents`, over an explicit table of PEP records (`PEPS_DATA`) and an explicit extension identifier (`chrome.runtime.id`);
  - the record type has an enumerated status and type, and `Option` for the nullable fields.
- `pep_refs.dfy` models the search for references:
  - the regular expression `/PEP \d+/i` as a hand-written scanner:
    - the letters P, E, P in either case;
    - exactly one space;
    - a greedy run of ASCII digits;
  - the capturing split `split(/(PEP \d+)/gi)`;
  - `pepTextToNodes`.
- `dom.dfy` models the part of the page the script touches, as a tree value:
  - text nodes, comments and elements, with tag, `role`, the processed-marker attribute, the other attributes' text and children;
  - the wrapper span that `getTooltipNode` builds, kept abstract as a `Trigger(number)` node;
  - `innerHTML` as a serialisation of that tree.
- `annotator.dfy` models `processElement`:
  - `Process` is the specification: what takes the element's place among its parent's children once the call returns;
  - `ProcessElement` is the recursive walk, with its loop over a snapshot of the children, and is proved to compute `Process`.

## Model

| member | source | states |
|---|---|---|
| Strings.ReplaceAll | chrome/src/content-script.ts:67-71 | A string without the pattern character comes back unchanged. When the replacement does not contain the pattern, the result does not either. |
| Strings.JoinSplit | chrome/src/content-script.ts:95-96 | Joining the pieces of `split(sep)` with `sep` gives the original string back. |
| Strings.SplitPiecesLackSeparator | chrome/src/content-script.ts:95-96 | No piece produced by `split(sep)` contains `sep`. |
| Strings.JoinAppend | chrome/src/content-script.ts:86 | `join` puts the separator strictly between consecutive parts. Appending a part appends the separator and the part, except to the empty list. |
| Template.EscapeOneChar | chrome/src/content-script.ts:65-71 | The five chained replacements turn a single character into exactly its entity. The other characters are unchanged. |
| Template.EscapeIsPerCharacter | chrome/src/content-script.ts:65-71 | `_escape` is the character-by-character map `&`→`&amp;`, `<`→`&lt;`, `>`→`&gt;`, `"`→`&quot;`, `'`→`&#039;`. Nothing is escaped twice, because `&` is replaced first. |
| Template.EscapeIsSafe | chrome/src/content-script.ts:65-71 | Escaped text holds no raw `<`, `>`, `"` or `'`. |
| Template.EscapeUnchangedIff | chrome/src/content-script.ts:65-71 | `_escape` leaves a string unchanged if and only if it holds none of the five special characters. |
| Template.EscapeEachLength | chrome/src/content-script.ts:65-71 | Escaping never shortens a string. It strictly lengthens any string that holds a special character. |
| Template.UnescapeEscape | chrome/src/content-script.ts:65-71 | Decoding the five entities of an escaped string gives the input back, so escaping loses nothing. |
| Template.HtmlIsInterleaving | chrome/src/content-script.ts:73-83 | `html` yields `texts[0] · r(p0) · texts[1] · …`. Here `r` escapes a string, passes a fragment through verbatim and maps `null` to `""`. |
| Template.HtmlLastChunk | chrome/src/content-script.ts:76-83 | A template ends with its last literal chunk. The last `reduce` step finds no parameter and appends nothing after that chunk. |
| Template.Html1 | chrome/src/content-script.ts:76-83 | A one-parameter template is `t0 · r(p0) · t1`. |
| Template.Html3 | chrome/src/content-script.ts:76-83 | A three-parameter template is its chunks with the three rendered parameters between them. |
| Template.Html4 | chrome/src/content-script.ts:76-83 | The same for four parameters. |
| Template.Html9 | chrome/src/content-script.ts:76-83 | The same for nine parameters. |
| Template.JoinHtmlShape | chrome/src/content-script.ts:85-87 | `joinHTML` of no fragment is `""` and of one fragment is that fragment. Otherwise it puts the separator strictly between consecutive fragments. |
| PepRefs.DigitRun | chrome/src/content-script.ts:202 | The `\d+` run is greedy: every character in it is a digit, and the character after it is not. |
| PepRefs.MatchEnd | chrome/src/content-script.ts:202 | A match starts at `i` exactly when `PEP`, a space and a digit start there. A match is at least five characters long. |
| PepRefs.FindFrom | chrome/src/content-script.ts:202 | The search returns a position where a match starts. |
| PepRefs.FindFromLeftmost | chrome/src/content-script.ts:202 | No match starts before the position found. When the search finds nothing, no match starts anywhere. |
| PepRefs.MatchEndIsRef | chrome/src/content-script.ts:202-203 | A match is one whole reference (`PEP`, a space, digits) and takes every digit that follows. |
| PepRefs.FoundRef | chrome/src/content-script.ts:202 | The text before a found match holds no reference, and the match is a reference. |
| PepRefs.NoMoreRefs | chrome/src/content-script.ts:202 | Once the search finds nothing, the rest of the text holds no reference. |
| PepRefs.SplitRefsLaws | chrome/src/content-script.ts:202 | The capturing split gives an odd number of pieces. Even pieces hold no reference and odd pieces are whole references. No piece after a reference continues its digits. The pieces concatenate to the input. |
| PepRefs.TextPreserved | chrome/src/content-script.ts:201-205 | With `keepText`, the text of the nodes built is exactly the input. |
| PepRefs.TriggersAreRefs | chrome/src/content-script.ts:201-205 | Whether or not the text is kept, the triggers carry the digits of the leftmost non-overlapping references, one each, in order. |
| PepRefs.TriggersFollowTheirRef | chrome/src/content-script.ts:201-205 | With `keepText`, every trigger comes right after the text node of the reference whose digits it carries. |
| PepRefs.OnlyTriggers | chrome/src/content-script.ts:201-205 | Without `keepText`, the nodes are exactly one trigger per reference, in order. |
| PepRefs.PepTextToNodesKeepText | chrome/src/content-script.ts:201-205 | `pepTextToNodes(content)` keeps the text, has one trigger per reference in order, and puts each trigger right after its reference. |
| PepRefs.PepTextToNodesTriggersOnly | chrome/src/content-script.ts:201-205 | `pepTextToNodes(content, false)` is only the triggers for the references, in order, and carries no text. |
| PepRefs.Triggers | chrome/src/content-script.ts:204 | One trigger node per number, in the same order. |
| Tooltip.PepLinks | chrome/src/content-script.ts:97-102 | The `map` over the numbers: as many links as numbers, the i-th rendered from the i-th number. |
| Tooltip.PepLinkKnown | chrome/src/content-script.ts:99-100 | A number the table knows becomes an `<a>` with that record's escaped url and title and the escaped number. |
| Tooltip.PepLinkUnknown | chrome/src/content-script.ts:101 | A number the table does not know becomes plain `PEP ` plus the escaped number. It has no `<` or `>`, and decodes back to `PEP n`. |
| Tooltip.PepNumbersFieldEntries | chrome/src/content-script.ts:93-104 | The field is the entries of the `", "`-separated items, in order, joined by `", "`. The items join back to the input, and none of them contains the separator. |
| Tooltip.PepNumbersFieldSingle | chrome/src/content-script.ts:93-104 | A field without a separator is the entry of that one number. |
| Tooltip.PepNumbersFieldPair | chrome/src/content-script.ts:93-104 | A field of two items, the first unknown, is `PEP ` and the escaped first number, then `", "`, then the second item's entry. |
| Tooltip.PepNumbersFieldExample | chrome/src/content-script.ts:93-104 | With `3107` unknown and `526` known, `"3107, 526"` gives plain `PEP 3107`, then `", "`, then the link to PEP 526. |
| Tooltip.SplitExample | chrome/src/content-script.ts:96 | `"3107, 526".split(", ")` is `["3107", "526"]`. |
| Tooltip.BuildTooltipLayout | chrome/src/content-script.ts:106-116 | The tooltip frame inserts the header and body verbatim. It inserts the store and GitHub addresses escaped, in this order, between the fixed markup. |
| Tooltip.UnknownPepTooltip | chrome/src/content-script.ts:118-124 | A number absent from the table gets the fixed "No information on this PEP found" body. Its header is `PEP `, the escaped number, then ` – <b> ?</b>`. |
| Tooltip.HeaderLayout | chrome/src/content-script.ts:126-138 | A known PEP's header shows the escaped number, title, outline path and url at their places in the fixed markup. |
| Tooltip.AuthorLabel | chrome/src/content-script.ts:141 | The label gets the suffix `s` (so reads `Authors`) exactly when the authors field contains `,`. |
| Tooltip.OptionalRowShown | chrome/src/content-script.ts:149-168 | An optional row contributes something exactly when its field is neither `null` nor empty. |
| Tooltip.RowFragmentLayout | chrome/src/content-script.ts:150-153 | A shown row is its label, then its value: the Python version escaped, or PEP numbers as entries. |
| Tooltip.BodyLayout | chrome/src/content-script.ts:139-170 | A known PEP's body has the `Author`/`Authors` label, then the escaped authors, status, type and creation date. The four optional rows follow, in order, each present exactly when its field is non-null and non-empty. |
| Tooltip.KnownPepTooltip | chrome/src/content-script.ts:118-172 | The whole tooltip for a PEP in the table: the header (number, title, `LinkSvgPath` outline and url, each escaped) and the body (label, fields and optional rows) inside the frame of `buildTooltip`, in that order. |
| Annotator.Process | chrome/src/content-script.ts:207-242 | Processing returns at least one node. A trigger is returned as it is. An element keeps its tag, role and other attributes, and only triggers can follow it as new siblings. |
| Annotator.ProcessElement | chrome/src/content-script.ts:207-242 | The recursive walk computes `Process`. It loops over a snapshot of the children and accumulates the children, the `appendAtNodeEnd` buffer and the marker. |
| Annotator.LeftAloneWhenGuarded | chrome/src/content-script.ts:208-218 | A marked node is left unchanged. So is a node whose markup holds no `PEP <digits>` match, and a node whose role is `tooltip`. |
| Annotator.TriggerLeftAlone | chrome/src/content-script.ts:174-195 | The wrapper span of a trigger holds no reference in its markup, so `processElement` leaves it unchanged. |
| Annotator.TerminalBranchUnreachable | chrome/src/content-script.ts:212-214 | An element without children has empty markup. It returns at the second guard, so the terminal branch (239-241) never runs. |
| Annotator.FoldRewrites | chrome/src/content-script.ts:221-235 | After `k` children, the loop has built each child's rewrite, in order. Under an anchor it has also buffered the matching texts. The marker is set exactly when a direct text child with a reference has been met. |
| Annotator.ProcessRewrites | chrome/src/content-script.ts:219-237 | A node that passes the guards has children. It is replaced by itself with each child rewritten. The child rewrites are: <br>• a child element is processed in turn; <br>• a matching text is replaced by its `pepTextToNodes` nodes, except under an anchor, where it stays; <br>• anything else stays. <br>The marker is set exactly when a direct text child matched. An anchor is then followed by one trigger per reference in its matching texts taken together. |
| Annotator.SiblingsOnlyAfterAnchors | chrome/src/content-script.ts:236 | Only an `A` element can get new siblings. Any other element is replaced by itself alone. |
| Annotator.ProcessPreservesText | chrome/src/content-script.ts:219-241 | The text a reader sees is unchanged: the walk only adds trigger icons. |
| Annotator.ProcessIdempotent | chrome/src/content-script.ts:207-242 | Every node returned is an element. Processing any of them again leaves it unchanged. |

## Left out

- Fetching the PEP index and parsing its JSON (lines 249-254) are I/O. The table is a parameter of the functions that read `PEPS_DATA`.
- The `MutationObserver` and the initial `getElementsByClassName` scan (lines 257-271) are event-driven host code. They apply `processElement` to each added or found element, in order. No driver over several roots is modelled.
- `console.log` and `console.error` (lines 251, 258, 270) have no modelled effect.
- The `tippy(...)` call and its options (lines 185-191) belong to a foreign library. The whole wrapper span is the abstract `Trigger(number)` node. Its markup is fixed to the wrapper and icon spans, without any attributes the library may add.
- Which tooltip a trigger shows is not tied to `getTooltipContents` inside the tree model. A trigger only carries its PEP number.
- `innerHTML` does not entity-escape text in the model. Escaping `&`, `<`, `>` and non-breaking spaces can neither create nor destroy a `PEP <digits>` match.
- The table is a map, so a JavaScript property lookup such as `PEPS_DATA["constructor"]` on a plain object is not modelled.
- Annotator.ProcessElement works on a tree value and returns the nodes that take the element's place. It does not model update in place or node identity. It does not model the no-op of `replaceWith` on a node without a parent, which the topmost call would meet if it were detached.
- The processed marker is the boolean `marked`. The check `getAttribute(...)` is truthy exactly when the attribute is set, since the script only ever sets it to `"true"`.
- `chrome.runtime.id` is the parameter `extensionId`. The outline path is passed to `Header` as a parameter, and `getTooltipContents` always gives it `LinkSvgPath`. Tooltip.BuildTooltipLayout and Tooltip.HeaderLayout state those constants as `Escape(...)` of the constant, without computing that escaping leaves them unchanged.
- The `reduce` of `pepTextToNodes` is written as a right recursion over the pieces. It appends each piece's nodes in turn, so both give the same concatenation.
- The JavaScript `split` is modelled only for a non-empty string separator, which is the only form the script uses.
