/**
  The contents of a tooltip: `pepNumbersField`, `buildTooltip` and
  `getTooltipContents`.

  The table of PEPs the content script downloads once into `PEPS_DATA` is
  the parameter `table`; the extension's own identifier, which the script
  reads from `chrome.runtime.id`, is the parameter `extensionId`.
 */
module Tooltip {
  import opened Wrappers
  import opened Strings
  import opened Template

  datatype Status = Accepted | Active | Deferred | Draft | Final | Provisional | Rejected | Superseded | Withdrawn

  datatype PepType = Informational | Process | StandardsTrack

  datatype Topic = Governance | Packaging | Release | Typing | NoTopic

  /** The status as the PEP index spells it. */
  function StatusName(s: Status): string
  {
    match s
    case Accepted => "Accepted"
    case Active => "Active"
    case Deferred => "Deferred"
    case Draft => "Draft"
    case Final => "Final"
    case Provisional => "Provisional"
    case Rejected => "Rejected"
    case Superseded => "Superseded"
    case Withdrawn => "Withdrawn"
  }

  /** The type as the PEP index spells it. */
  function PepTypeName(t: PepType): string
  {
    match t
    case Informational => "Informational"
    case Process => "Process"
    case StandardsTrack => "Standards Track"
  }

  /** One record of the PEP index; `null` fields are `None`. */
  datatype PepInfo = PepInfo(
    number: int,
    title: string,
    authors: string,
    discussionsTo: Option<string>,
    status: Status,
    pepType: PepType,
    topic: Topic,
    created: string,
    pythonVersion: Option<string>,
    postHistory: string,
    resolution: Option<string>,
    requiresPeps: Option<string>,
    replacesPeps: Option<string>,
    supersededBy: Option<string>,
    url: string)

  /** `PEPS_DATA`: the records, keyed by PEP number. */
  type PepTable = map<string, PepInfo>

  const GithubUrl := "https://github.com/loic-simon/pep-tooltip"

  const WebstorePrefix := "https://chrome.google.com/webstore/detail/"

  /** `WEBSTORE_URL`. */
  function WebstoreUrl(extensionId: string): string
  {
    WebstorePrefix + extensionId
  }

  /** The outline of the "open" arrow drawn in the tooltip header. */
  const LinkSvgPath :=
    "M10.0002 5H8.2002C7.08009 5 6.51962 5" +
    " 6.0918 5.21799C5.71547 5.40973 5.40973" +
    " 5.71547 5.21799 6.0918C5 6.51962 5" +
    " 7.08009 5 8.2002V15.8002C5 16.9203 5" +
    " 17.4801 5.21799 17.9079C5.40973 18.2842" +
    " 5.71547 18.5905 6.0918 18.7822C6.5192" +
    " 19 7.07899 19 8.19691 19H15.8031C16.921" +
    " 19 17.48 19 17.9074 18.7822C18.2837" +
    " 18.5905 18.5905 18.2839 18.7822" +
    " 17.9076C19 17.4802 19 16.921 19" +
    " 15.8031V14M20 9V4M20 4H15M20 4L13 11"

  // ---------------------------------------------------------------------
  // pepNumbersField
  // ---------------------------------------------------------------------

  /** One entry of a list of PEP numbers: a link to the PEP when the table
      knows it, the plain text `PEP n` otherwise. */
  function PepLink(table: PepTable, pepNumber: string): HtmlString
  {
    if pepNumber in table then
      Html(["<a href=\"", "\" title=\"", "\" target=\"_blank\">PEP ", "</a>"],
           [Str(table[pepNumber].url), Str(table[pepNumber].title), Str(pepNumber)])
    else
      Html(["PEP ", ""], [Str(pepNumber)])
  }

  /** The entries of a list of PEP numbers, one per number, in order. */
  function PepLinks(table: PepTable, numbers: seq<string>): (r: seq<HtmlString>)
    ensures |r| == |numbers|
    ensures forall i :: 0 <= i < |numbers| ==> r[i] == PepLink(table, numbers[i])
  {
    if numbers == [] then [] else [PepLink(table, numbers[0])] + PepLinks(table, numbers[1..])
  }

  /** `pepNumbersField`. */
  function PepNumbersField(table: PepTable, commaSeparatedNumbers: string): HtmlString
  {
    JoinHtml(PepLinks(table, Split(commaSeparatedNumbers, ", ")), Html([", "], []))
  }

  /** A known PEP becomes a link to its page, titled with its title; every
      value in it is escaped. */
  lemma PepLinkKnown(table: PepTable, pepNumber: string)
    requires pepNumber in table
    ensures PepLink(table, pepNumber).content
         == "<a href=\"" + (Escape(table[pepNumber].url) + ("\" title=\"" + (Escape(table[pepNumber].title)
            + ("\" target=\"_blank\">PEP " + (Escape(pepNumber) + "</a>")))))
  {
    Html3("<a href=\"", Str(table[pepNumber].url), "\" title=\"", Str(table[pepNumber].title),
          "\" target=\"_blank\">PEP ", Str(pepNumber), "</a>");
  }

  /** An unknown PEP becomes plain text: no markup, and decoding its
      entities gives back `PEP ` and the number as it was written. */
  lemma PepLinkUnknown(table: PepTable, pepNumber: string)
    requires pepNumber !in table
    ensures PepLink(table, pepNumber).content == "PEP " + Escape(pepNumber)
    ensures '<' !in PepLink(table, pepNumber).content && '>' !in PepLink(table, pepNumber).content
    ensures Unescape(PepLink(table, pepNumber).content) == "PEP " + pepNumber
  {
    var e := Escape(pepNumber);
    PlainEntry(pepNumber);
    assert PepLink(table, pepNumber) == Html(["PEP ", ""], [Str(pepNumber)]);
    EscapeIsSafe(pepNumber);
    UnescapeEscape(pepNumber);
    UnescapePepPrefix(e);
    CharNotInPepPrefix('<', e);
    CharNotInPepPrefix('>', e);
  }

  /** The text of an unknown entry. */
  lemma PlainEntry(pepNumber: string)
    ensures Html(["PEP ", ""], [Str(pepNumber)]).content == "PEP " + Escape(pepNumber)
  {
    Html1("PEP ", Str(pepNumber), "");
    assert Escape(pepNumber) + "" == Escape(pepNumber);
  }

  lemma CharNotInPepPrefix(c: char, e: string)
    requires c !in e && c != 'P' && c != 'E' && c != ' '
    ensures c !in "PEP " + e
  {
    var s := "PEP " + e;
    forall k | 0 <= k < |s|
      ensures s[k] != c
    {
      if k >= 4 {
        assert s[k] == e[k - 4];
      }
    }
  }

  /** The prefix `PEP ` holds no entity and decodes to itself. */
  lemma UnescapePepPrefix(e: string)
    ensures Unescape("PEP " + e) == "PEP " + Unescape(e)
  {
    var p := "PEP ";
    assert p[0] != '&' && p[1] != '&' && p[2] != '&' && p[3] != '&';
    UnescapePlain(p, e);
  }

  /** `pepNumbersField` renders one entry per `", "`-separated item, in
      order, with `", "` between consecutive entries; the items are exactly
      the pieces of the input, and none of them holds the separator. */
  lemma PepNumbersFieldEntries(table: PepTable, commaSeparatedNumbers: string)
    ensures var items := Split(commaSeparatedNumbers, ", ");
      && PepNumbersField(table, commaSeparatedNumbers).content == Join(Contents(PepLinks(table, items)), ", ")
      && Join(items, ", ") == commaSeparatedNumbers
      && (forall k :: 0 <= k < |items| ==> !Occurs(items[k], ", "))
  {
    Html0(", ");
    JoinSplit(commaSeparatedNumbers, ", ");
    SplitPiecesLackSeparator(commaSeparatedNumbers, ", ");
  }

  /** A field holding one number, with no separator, is that number's entry. */
  lemma PepNumbersFieldSingle(table: PepTable, pepNumber: string)
    requires !Occurs(pepNumber, ", ")
    ensures PepNumbersField(table, pepNumber) == PepLink(table, pepNumber)
  {
    SplitOfPiece(pepNumber, ", ");
    Html0(", ");
    JoinHtmlShape([], PepLink(table, pepNumber), Html([", "], []));
    assert PepLinks(table, [pepNumber]) == [PepLink(table, pepNumber)];
  }

  /** A string without the separator splits into itself alone. */
  lemma SplitOfPiece(s: string, sep: string)
    requires |sep| > 0 && !Occurs(s, sep)
    ensures Split(s, sep) == [s]
  {
    SplitFromNoSeparator(s, sep, 0);
  }

  lemma {:induction false} SplitFromNoSeparator(s: string, sep: string, i: nat)
    requires |sep| > 0 && i <= |s| && !Occurs(s, sep)
    ensures SplitFrom(s, sep, 0, i) == [s]
    decreases |s| - i
  {
    if i + |sep| > |s| {
      assert s[0..] == s;
    } else {
      assert !OccursAt(s, sep, i);
      SplitFromNoSeparator(s, sep, i + 1);
    }
  }

  /** The example of a `Requires` field: `3107` is not in the table and
      `526` is, so only the second entry is a link. */
  lemma PepNumbersFieldExample(table: PepTable, field: string, first: string, second: string)
    requires field == "3107, 526" && first == "3107" && second == "526"
    requires first !in table && second in table
    ensures PepNumbersField(table, field).content
         == "PEP " + (Escape(first) + (", " + PepLink(table, second).content))
  {
    SplitExample(field, first, second);
    PepNumbersFieldPair(table, field, first, second);
  }

  lemma SplitExample(field: string, first: string, second: string)
    requires field == "3107, 526" && first == "3107" && second == "526"
    ensures Split(field, ", ") == [first, second]
  {
    var sep := ", ";
    assert field[0..2] != sep && field[1..3] != sep && field[2..4] != sep && field[4..6] == sep;
    assert field[6..8] != sep;
    assert SplitFrom(field, sep, 6, 8) == [field[6..]];
    assert SplitFrom(field, sep, 6, 7) == [field[6..]];
    assert SplitFrom(field, sep, 6, 6) == [field[6..]];
    assert SplitFrom(field, sep, 0, 4) == [field[0..4]] + [field[6..]];
    assert SplitFrom(field, sep, 0, 3) == [field[0..4]] + [field[6..]];
    assert SplitFrom(field, sep, 0, 2) == [field[0..4]] + [field[6..]];
    assert SplitFrom(field, sep, 0, 1) == [field[0..4]] + [field[6..]];
    assert SplitFrom(field, sep, 0, 0) == [field[0..4]] + [field[6..]];
    assert field[0..4] == first && field[6..] == second;
  }

  /** A field of two items, the first unknown: plain text, the separator,
      then the second item's entry. */
  lemma PepNumbersFieldPair(table: PepTable, field: string, first: string, second: string)
    requires Split(field, ", ") == [first, second]
    requires first !in table
    ensures PepNumbersField(table, field).content
         == "PEP " + (Escape(first) + (", " + PepLink(table, second).content))
  {
    var a, b := PepLink(table, first), PepLink(table, second);
    var sep := Html([", "], []);
    assert PepLinks(table, [first, second]) == [a] + [b];
    JoinHtmlShape([], a, sep);
    JoinHtmlShape([a], b, sep);
    Html0(", ");
    PepLinkUnknown(table, first);
    AppendAssoc(a.content, ", ", b.content);
    AppendAssoc("PEP ", Escape(first), ", " + b.content);
  }

  // ---------------------------------------------------------------------
  // buildTooltip
  // ---------------------------------------------------------------------

  /** `buildTooltip`: the header and the body in their boxes, and a footer
      linking to the extension's store page and to its repository. */
  function BuildTooltip(header: HtmlString, content: HtmlString, extensionId: string): string
  {
    Html(["<div class=\"pep-tooltip-contents\">\n    <div class=\"pep-tooltip-header\">",
          "</div>\n    <hr />\n    <div class=\"pep-tooltip-body\">",
          "</div>\n    <hr />\n    <div class=\"pep-tooltip-footer\">\n      <span>Provided by <a href=\"",
          "\">PEP Tooltip extension</a></span> &bull;\n      <span>Contribute on <a href=\"",
          "\">GitHub</a>!</span>\n    </div>\n  </div>"],
         [Fragment(header), Fragment(content), Str(WebstoreUrl(extensionId)), Str(GithubUrl)]).content
  }

  /** The header and the body go in verbatim, the two addresses escaped. */
  lemma BuildTooltipLayout(header: HtmlString, content: HtmlString, extensionId: string)
    ensures BuildTooltip(header, content, extensionId)
         == "<div class=\"pep-tooltip-contents\">\n    <div class=\"pep-tooltip-header\">"
            + (header.content
            + ("</div>\n    <hr />\n    <div class=\"pep-tooltip-body\">"
            + (content.content
            + ("</div>\n    <hr />\n    <div class=\"pep-tooltip-footer\">\n      <span>Provided by <a href=\""
            + (Escape(WebstoreUrl(extensionId))
            + ("\">PEP Tooltip extension</a></span> &bull;\n      <span>Contribute on <a href=\""
            + (Escape(GithubUrl)
            + "\">GitHub</a>!</span>\n    </div>\n  </div>")))))))
  {
    Html4("<div class=\"pep-tooltip-contents\">\n    <div class=\"pep-tooltip-header\">", Fragment(header),
          "</div>\n    <hr />\n    <div class=\"pep-tooltip-body\">", Fragment(content),
          "</div>\n    <hr />\n    <div class=\"pep-tooltip-footer\">\n      <span>Provided by <a href=\"",
          Str(WebstoreUrl(extensionId)),
          "\">PEP Tooltip extension</a></span> &bull;\n      <span>Contribute on <a href=\"", Str(GithubUrl),
          "\">GitHub</a>!</span>\n    </div>\n  </div>");
  }

  // ---------------------------------------------------------------------
  // getTooltipContents
  // ---------------------------------------------------------------------

  /** The header shown for a PEP the table does not know. */
  function UnknownHeader(pepNumber: string): HtmlString
  {
    Html(["PEP ", " \U{2013} <b> ?</b>"], [Str(pepNumber)])
  }

  const NoInformation := "<i>No information on this PEP found.<br />Maybe it is not merged yet?</i>"

  /** The body shown for a PEP the table does not know. */
  function UnknownBody(): HtmlString
  {
    Html([NoInformation], [])
  }

  /** The markup around the open-page button: up to its outline, from the
      outline to its address, and after its address. */
  const ButtonOpen := "</b></div>\n      <div class=\"pep-tooltip-open-button\">\n        <svg width=\"20px\" height=\"20px\" viewBox=\"1 -2 24 24\" fill=\"none\" xmlns=\"http://www.w3.org/2000/svg\">\n          <path d=\""
  const ButtonLink := "\" stroke=\"white\" stroke-width=\"2\" stroke-linecap=\"round\" stroke-linejoin=\"round\" />\n        </svg>\n        <a href=\""
  const ButtonClose := "\" target=\"_blank\">\n          <!-- Link on the whole div, cf. https://stackoverflow.com/a/3494108 -->\n          <span class=\"pep-tooltip-open-button-link\"></span>\n        </a>\n      </div>\n    "

  /** The header of a known PEP: number and title, and a button opening its
      page, drawn with the outline `svgPath` (always `LinkSvgPath`). */
  function Header(pepNumber: string, info: PepInfo, svgPath: string): HtmlString
  {
    Html(["\n      <div>PEP ",
          " \U{2013} <b>",
          ButtonOpen,
          ButtonLink,
          ButtonClose],
         [Str(pepNumber), Str(info.title), Str(svgPath), Str(info.url)])
  }

  /** The optional rows of the body, in the order they appear. */
  datatype Row = PythonVersion | Requires | Replaces | SupersededBy

  function RowLabel(row: Row): string
  {
    match row
    case PythonVersion => "Python-Version"
    case Requires => "Requires"
    case Replaces => "Replaces"
    case SupersededBy => "Superseded-By"
  }

  /** What a row shows: the Python version as text, PEP numbers as entries. */
  function RowValue(table: PepTable, row: Row, value: string): Param
  {
    if row == PythonVersion then Str(value) else Fragment(PepNumbersField(table, value))
  }

  /** The fragment of one optional row. */
  function RowFragment(table: PepTable, row: Row, value: string): HtmlString
  {
    Html(["\n          <dt>" + RowLabel(row) + ":</dt>\n          <dd>", "</dd>\n        "], [RowValue(table, row, value)])
  }

  /** `field && html\`…\``: `null` stays `null`, the empty string stays the
      empty string, anything else becomes the row. */
  function OptionalRow(table: PepTable, row: Row, field: Option<string>): Param
  {
    match field
    case None => Null
    case Some(value) => if value == "" then Str(value) else Fragment(RowFragment(table, row, value))
  }

  /** `"s"` after `Author` when the authors are a comma-separated list. */
  function AuthorSuffix(authors: string): string
  {
    if ',' in authors then "s" else ""
  }

  /** The body of a known PEP: authors, status, type, creation date, and
      the optional rows. */
  function Body(table: PepTable, info: PepInfo): HtmlString
  {
    Html(["\n      <dl>\n        <dt>Author",
          ":</dt>\n        <dd>",
          "</dd>\n        <dt>Status:</dt>\n        <dd>",
          "</dd>\n        <dt>Type:</dt>\n        <dd>",
          "</dd>\n        <dt>Created:</dt>\n        <dd>",
          "</dd>\n        ",
          "\n        ",
          "\n        ",
          "\n        ",
          "\n      </dl>\n    "],
         [Str(AuthorSuffix(info.authors)), Str(info.authors), Str(StatusName(info.status)),
          Str(PepTypeName(info.pepType)), Str(info.created),
          OptionalRow(table, PythonVersion, info.pythonVersion), OptionalRow(table, Requires, info.requiresPeps),
          OptionalRow(table, Replaces, info.replacesPeps), OptionalRow(table, SupersededBy, info.supersededBy)])
  }

  /** `getTooltipContents`. */
  function GetTooltipContents(table: PepTable, pepNumber: string, extensionId: string): string
  {
    if pepNumber !in table then
      BuildTooltip(UnknownHeader(pepNumber), UnknownBody(), extensionId)
    else
      BuildTooltip(Header(pepNumber, table[pepNumber], LinkSvgPath), Body(table, table[pepNumber]), extensionId)
  }

  /** A PEP the table does not know gets the fixed "no information"
      tooltip, with its number escaped in the header. */
  lemma UnknownPepTooltip(table: PepTable, pepNumber: string, extensionId: string)
    requires pepNumber !in table
    ensures GetTooltipContents(table, pepNumber, extensionId)
         == BuildTooltip(UnknownHeader(pepNumber), UnknownBody(), extensionId)
    ensures UnknownHeader(pepNumber).content == "PEP " + (Escape(pepNumber) + " \U{2013} <b> ?</b>")
    ensures UnknownBody().content == NoInformation
  {
    Html1("PEP ", Str(pepNumber), " \U{2013} <b> ?</b>");
    Html0(NoInformation);
  }

  /** The header of a known PEP, with its number, title and address escaped. */
  lemma HeaderLayout(pepNumber: string, info: PepInfo, svgPath: string)
    ensures Header(pepNumber, info, svgPath).content
         == "\n      <div>PEP "
            + (Escape(pepNumber)
            + (" \U{2013} <b>"
            + (Escape(info.title)
            + (ButtonOpen
            + (Escape(svgPath)
            + (ButtonLink
            + (Escape(info.url)
            + ButtonClose)))))))
  {
    Html4("\n      <div>PEP ", Str(pepNumber), " \U{2013} <b>", Str(info.title),
          ButtonOpen,
          Str(svgPath),
          ButtonLink,
          Str(info.url),
          ButtonClose);
  }

  /** What an optional row contributes to the body: nothing when the field
      is `null` or empty, the row otherwise. */
  function RowText(table: PepTable, row: Row, field: Option<string>): string
  {
    if field == None || field == Some("") then "" else RowFragment(table, row, field.value).content
  }

  /** A row appears exactly when its field is neither `null` nor empty. */
  lemma OptionalRowShown(table: PepTable, row: Row, field: Option<string>)
    ensures ParamToString(OptionalRow(table, row, field)) == RowText(table, row, field)
    ensures RowText(table, row, field) != "" <==> field.Some? && field.value != ""
  {
    if field.Some? && field.value != "" {
      RowFragmentLayout(table, row, field.value);
    }
  }

  /** An optional row: its label, then its value. */
  lemma RowFragmentLayout(table: PepTable, row: Row, value: string)
    ensures RowFragment(table, row, value).content
         == "\n          <dt>" + RowLabel(row) + ":</dt>\n          <dd>"
            + (ParamToString(RowValue(table, row, value)) + "</dd>\n        ")
  {
    Html1("\n          <dt>" + RowLabel(row) + ":</dt>\n          <dd>", RowValue(table, row, value), "</dd>\n        ");
  }

  /** The label reads `Authors` exactly when the authors field holds a comma. */
  lemma AuthorLabel(authors: string)
    ensures Escape(AuthorSuffix(authors)) == (if ',' in authors then "s" else "")
  {
    EscapeUnchangedIff("s");
    EscapeUnchangedIff("");
  }

  /** The body of a known PEP: the label `Author` or `Authors`, the escaped
      authors, status, type and date, then each optional row, present
      exactly when its field is neither `null` nor empty. */
  lemma BodyLayout(table: PepTable, info: PepInfo)
    ensures Body(table, info).content
         == "\n      <dl>\n        <dt>Author"
            + ((if ',' in info.authors then "s" else "")
            + (":</dt>\n        <dd>"
            + (Escape(info.authors)
            + ("</dd>\n        <dt>Status:</dt>\n        <dd>"
            + (Escape(StatusName(info.status))
            + ("</dd>\n        <dt>Type:</dt>\n        <dd>"
            + (Escape(PepTypeName(info.pepType))
            + ("</dd>\n        <dt>Created:</dt>\n        <dd>"
            + (Escape(info.created)
            + ("</dd>\n        "
            + (RowText(table, PythonVersion, info.pythonVersion)
            + ("\n        "
            + (RowText(table, Requires, info.requiresPeps)
            + ("\n        "
            + (RowText(table, Replaces, info.replacesPeps)
            + ("\n        "
            + (RowText(table, SupersededBy, info.supersededBy)
            + "\n      </dl>\n    ")))))))))))))))))
  {
    Html9("\n      <dl>\n        <dt>Author", Str(AuthorSuffix(info.authors)),
          ":</dt>\n        <dd>", Str(info.authors),
          "</dd>\n        <dt>Status:</dt>\n        <dd>", Str(StatusName(info.status)),
          "</dd>\n        <dt>Type:</dt>\n        <dd>", Str(PepTypeName(info.pepType)),
          "</dd>\n        <dt>Created:</dt>\n        <dd>", Str(info.created),
          "</dd>\n        ", OptionalRow(table, PythonVersion, info.pythonVersion),
          "\n        ", OptionalRow(table, Requires, info.requiresPeps),
          "\n        ", OptionalRow(table, Replaces, info.replacesPeps),
          "\n        ", OptionalRow(table, SupersededBy, info.supersededBy),
          "\n      </dl>\n    ");
    AuthorLabel(info.authors);
    OptionalRowShown(table, PythonVersion, info.pythonVersion);
    OptionalRowShown(table, Requires, info.requiresPeps);
    OptionalRowShown(table, Replaces, info.replacesPeps);
    OptionalRowShown(table, SupersededBy, info.supersededBy);
  }

  /** A known PEP's header and body in the frame of `buildTooltip`, for any
      outline of the link icon. */
  lemma KnownTooltipLayout(table: PepTable, pepNumber: string, info: PepInfo, svgPath: string, extensionId: string)
    ensures BuildTooltip(Header(pepNumber, info, svgPath), Body(table, info), extensionId)
         == "<div class=\"pep-tooltip-contents\">\n    <div class=\"pep-tooltip-header\">"
            + (("\n      <div>PEP "
            + (Escape(pepNumber)
            + (" \U{2013} <b>"
            + (Escape(info.title)
            + (ButtonOpen
            + (Escape(svgPath)
            + (ButtonLink
            + (Escape(info.url)
            + ButtonClose))))))))
            + ("</div>\n    <hr />\n    <div class=\"pep-tooltip-body\">"
            + (("\n      <dl>\n        <dt>Author"
            + ((if ',' in info.authors then "s" else "")
            + (":</dt>\n        <dd>"
            + (Escape(info.authors)
            + ("</dd>\n        <dt>Status:</dt>\n        <dd>"
            + (Escape(StatusName(info.status))
            + ("</dd>\n        <dt>Type:</dt>\n        <dd>"
            + (Escape(PepTypeName(info.pepType))
            + ("</dd>\n        <dt>Created:</dt>\n        <dd>"
            + (Escape(info.created)
            + ("</dd>\n        "
            + (RowText(table, PythonVersion, info.pythonVersion)
            + ("\n        "
            + (RowText(table, Requires, info.requiresPeps)
            + ("\n        "
            + (RowText(table, Replaces, info.replacesPeps)
            + ("\n        "
            + (RowText(table, SupersededBy, info.supersededBy)
            + "\n      </dl>\n    "))))))))))))))))))
            + ("</div>\n    <hr />\n    <div class=\"pep-tooltip-footer\">\n      <span>Provided by <a href=\""
            + (Escape(WebstoreUrl(extensionId))
            + ("\">PEP Tooltip extension</a></span> &bull;\n      <span>Contribute on <a href=\""
            + (Escape(GithubUrl)
            + "\">GitHub</a>!</span>\n    </div>\n  </div>")))))))
  {
    BuildTooltipLayout(Header(pepNumber, info, svgPath), Body(table, info), extensionId);
    HeaderLayout(pepNumber, info, svgPath);
    BodyLayout(table, info);
  }

  /** The whole tooltip of a PEP the table knows: its header and its body in
      the frame of `buildTooltip`. */
  lemma KnownPepTooltip(table: PepTable, pepNumber: string, info: PepInfo, extensionId: string)
    requires pepNumber in table && table[pepNumber] == info
    ensures GetTooltipContents(table, pepNumber, extensionId)
         == "<div class=\"pep-tooltip-contents\">\n    <div class=\"pep-tooltip-header\">"
            + (("\n      <div>PEP "
            + (Escape(pepNumber)
            + (" \U{2013} <b>"
            + (Escape(info.title)
            + (ButtonOpen
            + (Escape(LinkSvgPath)
            + (ButtonLink
            + (Escape(info.url)
            + ButtonClose))))))))
            + ("</div>\n    <hr />\n    <div class=\"pep-tooltip-body\">"
            + (("\n      <dl>\n        <dt>Author"
            + ((if ',' in info.authors then "s" else "")
            + (":</dt>\n        <dd>"
            + (Escape(info.authors)
            + ("</dd>\n        <dt>Status:</dt>\n        <dd>"
            + (Escape(StatusName(info.status))
            + ("</dd>\n        <dt>Type:</dt>\n        <dd>"
            + (Escape(PepTypeName(info.pepType))
            + ("</dd>\n        <dt>Created:</dt>\n        <dd>"
            + (Escape(info.created)
            + ("</dd>\n        "
            + (RowText(table, PythonVersion, info.pythonVersion)
            + ("\n        "
            + (RowText(table, Requires, info.requiresPeps)
            + ("\n        "
            + (RowText(table, Replaces, info.replacesPeps)
            + ("\n        "
            + (RowText(table, SupersededBy, info.supersededBy)
            + "\n      </dl>\n    "))))))))))))))))))
            + ("</div>\n    <hr />\n    <div class=\"pep-tooltip-footer\">\n      <span>Provided by <a href=\""
            + (Escape(WebstoreUrl(extensionId))
            + ("\">PEP Tooltip extension</a></span> &bull;\n      <span>Contribute on <a href=\""
            + (Escape(GithubUrl)
            + "\">GitHub</a>!</span>\n    </div>\n  </div>")))))))
  {
    KnownTooltipLayout(table, pepNumber, info, LinkSvgPath, extensionId);
  }
}
