/** The HTML table processor: a processor resolves its heading and row
    XPath templates once, at construction; extraction reads the headings,
    optionally rewrites them with a mapper, types every cell of every row
    against the heading at the cell's position, and optionally prepends a
    row-id column. XPath evaluation, HTML parsing, the cell-typing function
    and the HTTP client are parameters of the model. */
module HtmlTableProcessor {
  import opened Errors
  import opened TextUtil
  import opened XPathTemplate
  import opened Tables

  datatype Processor = Processor(
    rootUrl: string,
    tableClass: Option<string>,
    headingsXPath: string,   // resolved: the locator is already substituted
    dataRowsXPath: string,   // resolved likewise
    dataCellXPath: string)   // stored as given, evaluated relative to a row

  /** Construction: both templates are formatted with the table locator, the
      heading template first; the cell expression and root URL are kept as
      given. A template str.format rejects makes construction fail. */
  function NewProcessor(rootUrl: string, headingsTemplate: string, dataRowsTemplate: string,
                        dataCellXPath: string, tableClass: Option<string>): (r: Result<Processor>)
    ensures r.Ok? <==> Format(headingsTemplate, TableXPath(tableClass)).Ok?
                       && Format(dataRowsTemplate, TableXPath(tableClass)).Ok?
    ensures Format(headingsTemplate, TableXPath(tableClass)).Err? ==>
              r == Err(Format(headingsTemplate, TableXPath(tableClass)).error)
    ensures r.Ok? ==> && r.value.rootUrl == rootUrl
                      && r.value.tableClass == tableClass
                      && r.value.dataCellXPath == dataCellXPath
  {
    var loc := TableXPath(tableClass);
    var headings :- Format(headingsTemplate, loc);
    var rows :- Format(dataRowsTemplate, loc);
    Ok(Processor(rootUrl, tableClass, headings, rows, dataCellXPath))
  }

  /** Templates written as pieces resolve to the pieces with every
      `{TABLE_XPATH}` replaced by the table locator; brace-free cell
      expressions and URLs pass through untouched. */
  lemma NewProcessorResolvesTemplates(rootUrl: string, headingsPieces: seq<Piece>,
                                      dataRowsPieces: seq<Piece>, dataCellXPath: string,
                                      tableClass: Option<string>)
    ensures NewProcessor(rootUrl, Template(headingsPieces), Template(dataRowsPieces),
                         dataCellXPath, tableClass)
            == Ok(Processor(rootUrl, tableClass,
                            Render(headingsPieces, TableXPath(tableClass)),
                            Render(dataRowsPieces, TableXPath(tableClass)),
                            dataCellXPath))
  {
    FormatTemplate(headingsPieces, TableXPath(tableClass));
    FormatTemplate(dataRowsPieces, TableXPath(tableClass));
  }

  // ---------------------------------------------------------------------
  // Extraction from a parsed element

  /** What `headings[index]` raises for a cell beyond the last heading. */
  const HeadingOverflow := IndexError("list index out of range")

  /** The XPath engine as seen by the processor: an expression evaluated
      at a node yields nodes (the data rows) or text values (headings and
      cells). */
  datatype XPathEngine<!N> = XPathEngine(nodes: (N, string) -> seq<N>, texts: (N, string) -> seq<string>)

  /** The caller's keyword options. `tryParse(text, heading, knownPercentages)`
      types one cell; `rowId` computes an id from a row node. */
  datatype Options<!N, !V> = Options(
    mapper: Option<seq<string> -> seq<string>>,
    knownPercentages: Option<seq<string>>,
    rowId: Option<N -> V>,
    rowIdName: Option<string>,
    tryParse: (string, string, Option<seq<string>>) -> V)

  /** The headings the cells are typed against: the mapper's output when a
      mapper is given, the raw headings otherwise. */
  function UsedHeadings(raw: seq<string>, mapper: Option<seq<string> -> seq<string>>): (h: seq<string>)
    ensures mapper.None? ==> h == raw
    ensures mapper.Some? ==> h == mapper.value(raw)
  {
    match mapper
    case Some(m) => m(raw)
    case None => raw
  }

  /** Types one row's cells left to right, cell i against heading i. A cell
      beyond the last heading is an index error; fewer cells are fine. */
  function TypeRow<V>(cells: seq<string>, headings: seq<string>, known: Option<seq<string>>,
                      tryParse: (string, string, Option<seq<string>>) -> V): (r: Result<seq<V>>)
    ensures r.Ok? <==> |cells| <= |headings|
    ensures r.Err? ==> r.error == HeadingOverflow
    ensures r.Ok? ==> |r.value| == |cells|
    ensures r.Ok? ==> forall i :: 0 <= i < |cells| ==> r.value[i] == tryParse(cells[i], headings[i], known)
    decreases |cells|
  {
    if |cells| == 0 then Ok([])
    else if |headings| == 0 then Err(HeadingOverflow)
    else
      var rest :- TypeRow(cells[1..], headings[1..], known, tryParse);
      Ok([tryParse(cells[0], headings[0], known)] + rest)
  }

  /** Types every row; fails as soon as one row is wider than the headings. */
  function TypeRows<V>(rows: seq<seq<string>>, headings: seq<string>, known: Option<seq<string>>,
                       tryParse: (string, string, Option<seq<string>>) -> V): (r: Result<seq<seq<V>>>)
    ensures r.Ok? <==> forall k :: 0 <= k < |rows| ==> |rows[k]| <= |headings|
    ensures r.Err? ==> r.error == HeadingOverflow
    ensures r.Ok? ==> |r.value| == |rows|
    ensures r.Ok? ==> forall k :: 0 <= k < |rows| ==>
              |r.value[k]| == |rows[k]| &&
              forall i :: 0 <= i < |rows[k]| ==> r.value[k][i] == tryParse(rows[k][i], headings[i], known)
    decreases |rows|
  {
    if |rows| == 0 then Ok([])
    else
      var first :- TypeRow(rows[0], headings, known, tryParse);
      var rest :- TypeRows(rows[1..], headings, known, tryParse);
      Ok([first] + rest)
  }

  /** `row_id_name or 'id'`: an absent or empty name falls back to "id". */
  function IdColumnName(rowIdName: Option<string>): (name: string)
    ensures rowIdName.Some? && rowIdName.value != "" ==> name == rowIdName.value
    ensures rowIdName.None? || rowIdName.value == "" ==> name == "id"
  {
    if rowIdName.Some? && rowIdName.value != "" then rowIdName.value else "id"
  }

  /** With a row-id function, one column named by `IdColumnName` goes in
      front of the headings and each row gets its node's id in front;
      without one, nothing changes. */
  function AddRowIds<N, V>(t: Table<V>, rowNodes: seq<N>, rowId: Option<N -> V>,
                           rowIdName: Option<string>): (r: Table<V>)
    requires |rowNodes| == |t.rows|
    ensures rowId.None? ==> r == t
    ensures rowId.Some? ==>
      && |r.headings| == |t.headings| + 1
      && r.headings[0] == IdColumnName(rowIdName)
      && r.headings[1..] == t.headings
      && |r.rows| == |t.rows|
      && forall k :: 0 <= k < |t.rows| ==>
           |r.rows[k]| == |t.rows[k]| + 1 && r.rows[k][0] == rowId.value(rowNodes[k]) && r.rows[k][1..] == t.rows[k]
  {
    match rowId
    case None => t
    case Some(f) =>
      Table([IdColumnName(rowIdName)] + t.headings,
            seq(|t.rows|, k requires 0 <= k < |t.rows| => [f(rowNodes[k])] + t.rows[k]))
  }

  /** The cell texts of every data row, in document order. */
  function RowCells<N>(xp: XPathEngine<N>, rowNodes: seq<N>, cellXPath: string): (cells: seq<seq<string>>)
    ensures |cells| == |rowNodes|
    ensures forall k :: 0 <= k < |rowNodes| ==> cells[k] == xp.texts(rowNodes[k], cellXPath)
  {
    seq(|rowNodes|, k requires 0 <= k < |rowNodes| => xp.texts(rowNodes[k], cellXPath))
  }

  /** get_tabular_data_from_element. */
  function FromElement<N, V>(p: Processor, xp: XPathEngine<N>, element: N, opts: Options<N, V>): (r: Result<Table<V>>)
    ensures
      var headings := UsedHeadings(xp.texts(element, p.headingsXPath), opts.mapper);
      var rowNodes := xp.nodes(element, p.dataRowsXPath);
      var d := if opts.rowId.Some? then 1 else 0;
      && (r.Ok? <==> forall k :: 0 <= k < |rowNodes| ==>
                       |xp.texts(rowNodes[k], p.dataCellXPath)| <= |headings|)
      && (r.Err? ==> r.error == HeadingOverflow)
      && (r.Ok? ==>
           && |r.value.headings| == |headings| + d
           && r.value.headings[d..] == headings
           && |r.value.rows| == |rowNodes|
           && forall k :: 0 <= k < |rowNodes| ==>
                var cells := xp.texts(rowNodes[k], p.dataCellXPath);
                && |r.value.rows[k]| == |cells| + d
                && forall i :: 0 <= i < |cells| ==>
                     r.value.rows[k][d + i] == opts.tryParse(cells[i], headings[i], opts.knownPercentages))
      && (r.Ok? && opts.rowId.Some? ==>
           && r.value.headings[0] == IdColumnName(opts.rowIdName)
           && forall k :: 0 <= k < |rowNodes| ==> r.value.rows[k][0] == opts.rowId.value(rowNodes[k]))
  {
    var headings := UsedHeadings(xp.texts(element, p.headingsXPath), opts.mapper);
    var rowNodes := xp.nodes(element, p.dataRowsXPath);
    var typed :- TypeRows(RowCells(xp, rowNodes, p.dataCellXPath), headings, opts.knownPercentages, opts.tryParse);
    Ok(AddRowIds(Table(headings, typed), rowNodes, opts.rowId, opts.rowIdName))
  }

  /** With a mapper, the typing headings are the mapper's output and the
      mapper alone decides them: two mappers that agree on the raw headings
      give the same table. */
  lemma MapperIsSoleSourceOfHeadings<N, V>(p: Processor, xp: XPathEngine<N>, element: N,
                                           opts: Options<N, V>, m1: seq<string> -> seq<string>,
                                           m2: seq<string> -> seq<string>)
    requires m1(xp.texts(element, p.headingsXPath)) == m2(xp.texts(element, p.headingsXPath))
    ensures FromElement(p, xp, element, opts.(mapper := Some(m1))) ==
            FromElement(p, xp, element, opts.(mapper := Some(m2)))
    ensures opts.rowId.None? && FromElement(p, xp, element, opts.(mapper := Some(m1))).Ok? ==>
            FromElement(p, xp, element, opts.(mapper := Some(m1))).value.headings ==
            m1(xp.texts(element, p.headingsXPath))
  {
  }

  // ---------------------------------------------------------------------
  // Extraction from markup and from a URL

  /** The AttributeError raised when extraction is handed no root element:
      the parser returned None, and `element.xpath` is asked of None. */
  const NoRoot := AttributeError("'NoneType' object has no attribute 'xpath'")

  /** get_tabular_data_from_html: parse, then extract from the root. Markup
      the parser turns into no tree gives None, which is passed on as the
      element, so the first XPath query fails on it. */
  function FromHtml<H, N, V>(p: Processor, parse: H -> Option<N>, xp: XPathEngine<N>, html: H,
                             opts: Options<N, V>): (r: Result<Table<V>>)
    ensures parse(html).None? ==> r == Err(NoRoot)
    ensures parse(html).Some? ==> r == FromElement(p, xp, parse(html).value, opts)
  {
    match parse(html)
    case None => Err(NoRoot)
    case Some(root) => FromElement(p, xp, root, opts)
  }

  datatype ParamValue = PStr(s: string) | PInt(i: int)

  type Params = map<string, ParamValue>

  /** What the HTTP client hands back. */
  datatype Response<H> = Response(statusCode: int, content: H)

  /** The status rule of get_tabular_data_from_url: any status above 399 is
      an HTTP error naming the full URL and the code; anything else passes. */
  function CheckStatus(target: string, statusCode: int): (e: Option<Error>)
    ensures e.Some? <==> statusCode > 399
    ensures e.Some? ==> e.value.HttpError?
                        && IsInfix(target, e.value.message)
                        && IsInfix(NatToString(statusCode), e.value.message)
  {
    if statusCode > 399 then
      var lead, middle, code := "Error accessing '", "'. Received status code ", IntToString(statusCode);
      var msg := lead + target + (middle + code);
      InfixOfConcat(lead, target, middle + code);
      assert msg == (lead + target + middle) + code + "";
      InfixOfConcat(lead + target + middle, code, "");
      Some(HttpError(msg))
    else None
  }

  /** get_tabular_data_from_url: GET `root_url + url` with the query
      parameters; an error status stops before any parsing, otherwise the
      body goes through FromHtml. */
  function FromUrl<H, N, V>(p: Processor, get: (string, Params) -> Response<H>, url: string,
                            queryParams: Params, parse: H -> Option<N>, xp: XPathEngine<N>,
                            opts: Options<N, V>): (r: Result<Table<V>>)
    ensures var resp := get(p.rootUrl + url, queryParams);
      && (resp.statusCode > 399 ==>
            r.Err? && r.error.HttpError? && IsInfix(p.rootUrl + url, r.error.message)
            && IsInfix(NatToString(resp.statusCode), r.error.message))
      && (resp.statusCode <= 399 ==> r == FromHtml(p, parse, xp, resp.content, opts))
  {
    var resp := get(p.rootUrl + url, queryParams);
    match CheckStatus(p.rootUrl + url, resp.statusCode)
    case Some(e) => Err(e)
    case None => FromHtml(p, parse, xp, resp.content, opts)
  }
}
