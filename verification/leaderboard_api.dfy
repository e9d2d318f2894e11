/** The JSON leaderboard path of the table processor
    (get_tabular_data_from_api): the minor-league `level` parameter, the
    unwrapping of the payload's rows, and the clean-up of the `Name` and
    `Team` columns, whose values may arrive wrapped in an anchor tag. The
    HTTP GET and JSON decoding are a parameter of the model. */
module LeaderboardApi {
  import opened Errors
  import opened HtmlTableProcessor
  import opened Maps

  /** A decoded JSON value as far as the clean-up cares: a string, or
      anything else (a number, null, ...). */
  datatype ApiCell<X> = Str(s: string) | NonStr(other: X)

  // ---------------------------------------------------------------------
  // re.search('>(.+?)<', text)

  /** A candidate match of `>(.+?)<`: a `>` at i, a `<` at j, at least one
      character between them and no newline among those characters (the
      regex dot does not match a newline). */
  ghost predicate Segment(s: string, i: int, j: int) {
    && 0 <= i && i + 2 <= j < |s|
    && s[i] == '>' && s[j] == '<'
    && forall m :: i < m < j ==> s[m] != '\n'
  }

  /** The lazy `(.+?)<` part: the nearest closing `<` for the `>` at i,
      searching from position j. */
  function CloseFrom(s: string, i: nat, j: nat): (c: Option<nat>)
    requires i < j <= |s| && s[i] == '>'
    requires forall m :: i < m < j ==> s[m] != '\n'
    ensures c.Some? ==> j <= c.value && Segment(s, i, c.value)
    ensures c.Some? ==> forall m :: j <= m < c.value ==> !Segment(s, i, m)
    ensures c.None? ==> forall m :: j <= m ==> !Segment(s, i, m)
    decreases |s| - j
  {
    if j == |s| then None
    else if s[j] == '\n' then None
    else if s[j] == '<' && i + 2 <= j then Some(j)
    else CloseFrom(s, i, j + 1)
  }

  /** The search proper: the leftmost `>` from position i that has a match,
      with its nearest closing `<`. */
  function OpenFrom(s: string, i: nat): (r: Option<(nat, nat)>)
    requires i <= |s|
    ensures r.Some? ==> i <= r.value.0 && Segment(s, r.value.0, r.value.1)
    ensures r.Some? ==> forall a, b :: i <= a < r.value.0 ==> !Segment(s, a, b)
    ensures r.Some? ==> forall b :: b < r.value.1 ==> !Segment(s, r.value.0, b)
    ensures r.None? ==> forall a, b :: i <= a ==> !Segment(s, a, b)
    decreases |s| - i
  {
    if i == |s| then None
    else if s[i] == '>' then
      match CloseFrom(s, i, i + 1)
      case Some(j) => Some((i, j))
      case None => OpenFrom(s, i + 1)
    else OpenFrom(s, i + 1)
  }

  /** extract_text_from_html: a string becomes the first group of its first
      `>(.+?)<` match, or stays as it is without a match; any other value
      is returned unchanged. */
  function ExtractTextFromHtml<X>(v: ApiCell<X>): (r: ApiCell<X>)
    ensures v.NonStr? ==> r == v
    ensures v.Str? ==> r.Str?
    ensures v.Str? && (forall a, b :: !Segment(v.s, a, b)) ==> r == v
    ensures v.Str? && r != v ==> exists a, b :: Segment(v.s, a, b) && r.s == v.s[a + 1..b]
  {
    match v
    case NonStr(_) => v
    case Str(s) =>
      match OpenFrom(s, 0)
      case Some((i, j)) => Str(s[i + 1..j])
      case None => v
  }

  /** The extracted text is the leftmost match's group, and the shortest one
      for that `>`: it is non-empty and holds no newline. */
  lemma ExtractTextIsLeftmostShortest<X>(s: string, i: int, j: int)
    requires Segment(s, i, j)
    requires forall a, b :: a < i ==> !Segment(s, a, b)
    requires forall b :: b < j ==> !Segment(s, i, b)
    ensures ExtractTextFromHtml<X>(Str(s)) == Str(s[i + 1..j])
    ensures |s[i + 1..j]| >= 1 && '\n' !in s[i + 1..j]
  {
    var r := OpenFrom(s, 0);
    assert r.Some? && r.value.0 == i && r.value.1 == j;
    var g := s[i + 1..j];
    assert forall m :: 0 <= m < |g| ==> g[m] == s[i + 1 + m];
  }

  /** Text wrapped in a plain anchor tag loses its markup. */
  lemma ExtractTextOfAnchor<X>(text: string)
    requires |text| >= 1 && '<' !in text && '>' !in text && '\n' !in text
    ensures ExtractTextFromHtml<X>(Str("<a>" + text + "</a>")) == Str(text)
  {
    var s := "<a>" + text + "</a>";
    var close := 3 + |text|;
    assert s[3..close] == text;
    assert forall m :: 3 <= m < close ==> s[m] == text[m - 3];
    assert Segment(s, 2, close);
    assert forall a, b :: a < 2 ==> !Segment(s, a, b) by {
      assert s[0] != '>' && s[1] != '>';
    }
    ExtractTextIsLeftmostShortest<X>(s, 2, close);
  }

  // ---------------------------------------------------------------------
  // The leaderboard request

  /** `minor_league == True` adds `level=0` to the query parameters (replacing
      any `level` there); otherwise the parameters are left alone. */
  function WithMinorLeagueLevel(params: Params, minorLeague: bool): (r: Params)
    ensures minorLeague ==> "level" in r && r["level"] == PInt(0)
    ensures minorLeague ==> forall k :: k != "level" ==> (k in r <==> k in params)
    ensures minorLeague ==> forall k :: k != "level" && k in params ==> r[k] == params[k]
    ensures !minorLeague ==> r == params
  {
    if minorLeague then params["level" := PInt(0)] else params
  }

  type Record<X> = map<string, ApiCell<X>>

  /** The decoded body: rows wrapped under a `data` key, or the bare row list
      that the minor-league endpoint returns. */
  datatype Payload<X> = Enveloped(data: seq<Record<X>>) | Bare(rows: seq<Record<X>>)

  /** The rows the data frame is built from. */
  function RowsOf<X>(p: Payload<X>): (rows: seq<Record<X>>)
    ensures p.Enveloped? ==> rows == p.data
    ensures p.Bare? ==> rows == p.rows
  {
    match p
    case Enveloped(d) => d
    case Bare(rs) => rs
  }

  /** No record carries the key, so the frame has no such column. */
  predicate NoRowHas<X>(rows: seq<Record<X>>, col: string) {
    forall k :: 0 <= k < |rows| ==> col !in rows[k]
  }

  /** `df[col] = df[col].apply(extract_text_from_html)`: the column must
      exist in some row (a data frame's columns are the union of its
      records' keys); each value present in it is cleaned, nothing else
      changes. */
  function CleanColumn<X>(rows: seq<Record<X>>, col: string): (r: Result<seq<Record<X>>>)
    ensures r.Err? <==> NoRowHas(rows, col)
    ensures r.Err? ==> r.error == KeyError(col)
    ensures r.Ok? ==> |r.value| == |rows|
    ensures r.Ok? ==> forall k :: 0 <= k < |rows| ==>
              && r.value[k].Keys == rows[k].Keys
              && (col in rows[k] ==> r.value[k][col] == ExtractTextFromHtml(rows[k][col]))
              && forall c :: c in rows[k] && c != col ==> r.value[k][c] == rows[k][c]
  {
    if NoRowHas(rows, col) then Err(KeyError(col))
    else
      Ok(seq(|rows|, k requires 0 <= k < |rows| =>
        if col in rows[k] then rows[k][col := ExtractTextFromHtml(rows[k][col])] else rows[k]))
  }

  /** Both clean-ups in the source's order: `Name`, then `Team`. */
  function CleanNameAndTeam<X>(rows: seq<Record<X>>): (r: Result<seq<Record<X>>>)
    ensures r.Err? <==> NoRowHas(rows, "Name") || NoRowHas(rows, "Team")
    ensures r.Err? ==> r.error == if NoRowHas(rows, "Name") then KeyError("Name") else KeyError("Team")
    ensures r.Ok? ==> |r.value| == |rows|
    ensures r.Ok? ==> forall k :: 0 <= k < |rows| ==>
              && r.value[k].Keys == rows[k].Keys
              && ("Name" in rows[k] ==> r.value[k]["Name"] == ExtractTextFromHtml(rows[k]["Name"]))
              && ("Team" in rows[k] ==> r.value[k]["Team"] == ExtractTextFromHtml(rows[k]["Team"]))
              && forall c :: c in rows[k] && c != "Name" && c != "Team" ==> r.value[k][c] == rows[k][c]
  {
    var named :- CleanColumn(rows, "Name");
    assert forall k :: 0 <= k < |rows| ==> ("Team" in named[k] <==> "Team" in rows[k]);
    CleanColumn(named, "Team")
  }

  /** get_tabular_data_from_api: fetch with the (possibly extended)
      parameters, take the payload's rows, clean `Name` and then `Team`.
      The frame lacks a column exactly when no row carries that key. */
  function FromApi<X>(get: (string, Params) -> Payload<X>, baseUrl: string, params: Params,
                      minorLeague: bool): (r: Result<seq<Record<X>>>)
    ensures var rows := RowsOf(get(baseUrl, WithMinorLeagueLevel(params, minorLeague)));
      && (r.Err? <==> NoRowHas(rows, "Name") || NoRowHas(rows, "Team"))
      && (r.Err? ==> r.error == if NoRowHas(rows, "Name") then KeyError("Name") else KeyError("Team"))
      && (r.Ok? ==> |r.value| == |rows|)
      && (r.Ok? ==> forall k :: 0 <= k < |rows| ==>
            && r.value[k].Keys == rows[k].Keys
            && ("Name" in rows[k] ==> r.value[k]["Name"] == ExtractTextFromHtml(rows[k]["Name"]))
            && ("Team" in rows[k] ==> r.value[k]["Team"] == ExtractTextFromHtml(rows[k]["Team"]))
            && forall c :: c in rows[k] && c != "Name" && c != "Team" ==> r.value[k][c] == rows[k][c])
  {
    CleanNameAndTeam(RowsOf(get(baseUrl, WithMinorLeagueLevel(params, minorLeague))))
  }

  /** For a minor-league request the caller's own `level` never reaches the
      server: the result does not depend on it. */
  lemma MinorLeagueOverridesLevel<X>(get: (string, Params) -> Payload<X>, baseUrl: string,
                                     params: Params, level: ParamValue)
    ensures FromApi(get, baseUrl, params["level" := level], true) == FromApi(get, baseUrl, params, true)
  {
    UpdateTwice(params, "level", level, PInt(0));
  }

  /** On a single row holding the column, CleanColumn cleans that one value. */
  lemma CleanColumnOneRow<X>(row: Record<X>, col: string)
    requires col in row
    ensures CleanColumn([row], col) == Ok([row[col := ExtractTextFromHtml(row[col])]])
  {
    var r := CleanColumn([row], col);
    assert [row][0] == row;
    assert r.Ok? && |r.value| == 1;
    var cleaned := row[col := ExtractTextFromHtml(row[col])];
    assert r.value[0].Keys == cleaned.Keys;
    assert r.value[0] == cleaned;
    assert r.value == [cleaned];
  }

  /** On a single row holding both columns, the name and then the team are
      cleaned and nothing else changes. */
  lemma CleanNameAndTeamOneRow<X>(row: Record<X>)
    requires "Name" in row && "Team" in row
    ensures CleanNameAndTeam([row]) ==
            Ok([row["Name" := ExtractTextFromHtml(row["Name"])]["Team" := ExtractTextFromHtml(row["Team"])]])
  {
    var row1 := row["Name" := ExtractTextFromHtml(row["Name"])];
    CleanColumnOneRow(row, "Name");
    assert "Name" != "Team" && row1["Team"] == row["Team"];
    CleanColumnOneRow(row1, "Team");
  }

  /** A leaderboard row whose name and team come wrapped in anchor tags
      yields the bare name and team. */
  lemma CleanNameAndTeamStripsAnchors<X>(name: string, team: string)
    requires |name| >= 1 && '<' !in name && '>' !in name && '\n' !in name
    requires |team| >= 1 && '<' !in team && '>' !in team && '\n' !in team
    ensures CleanNameAndTeam([map["Name" := Str("<a>" + name + "</a>"), "Team" := ApiCell<X>.Str("<a>" + team + "</a>")]])
            == Ok([map["Name" := Str(name), "Team" := Str(team)]])
  {
    var row: Record<X> := map["Name" := Str("<a>" + name + "</a>"), "Team" := Str("<a>" + team + "</a>")];
    assert "Name" != "Team";
    var one: Record<X> := map["Name" := Str("<a>" + name + "</a>")];
    assert one.Keys == {"Name"} && row == one["Team" := Str("<a>" + team + "</a>")];
    assert row["Name"] == Str("<a>" + name + "</a>") && row["Team"] == Str("<a>" + team + "</a>");
    ExtractTextOfAnchor<X>(name);
    ExtractTextOfAnchor<X>(team);
    CleanNameAndTeamOneRow(row);
    Overwrite(one, "Name", "Team", Str("<a>" + team + "</a>"), Str(name), Str(team));
  }
}
