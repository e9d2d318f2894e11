/** Baseball-Reference player game logs: validation of the log type, the
    request URL and table id built from it, and the post-processing of the
    scraped table (drop the rank column, rename, drop the totals row,
    derive `Home`, keep game rows, split `Rslt`). Fetching the page, finding
    the table in it and reading the table are parameters of the model. */
module PlayerGameLogs {
  import opened Errors
  import opened TextUtil
  import opened Tables
  import opened Maps

  /** A scraped cell: missing (NaN), text, or a flag this module computes. */
  datatype Cell = Missing | Text(s: string) | Flag(b: bool)

  datatype LogType = Batting | Pitching | Fielding

  function LogTypeName(k: LogType): string {
    match k
    case Batting => "batting"
    case Pitching => "pitching"
    case Fielding => "fielding"
  }

  const LogTypeMessage := "`log_type` must be either 'batting', 'pitching' or 'fielding'."

  /** The whitelist check of player_game_logs: exactly the three names are
      accepted; anything else is a ValueError. */
  function ParseLogType(name: string): (r: Result<LogType>)
    ensures r.Ok? <==> name == "batting" || name == "pitching" || name == "fielding"
    ensures r.Ok? ==> LogTypeName(r.value) == name
    ensures r.Err? ==> r.error == ValueError(LogTypeMessage)
  {
    if name == "batting" then Ok(Batting)
    else if name == "pitching" then Ok(Pitching)
    else if name == "fielding" then Ok(Fielding)
    else Err(ValueError(LogTypeMessage))
  }

  /** Every log type is accepted under its own name. */
  lemma ParseLogTypeName(k: LogType)
    ensures ParseLogType(LogTypeName(k)) == Ok(k)
  {
  }

  /** The `t` query letter of get_table. */
  function TParam(k: LogType): string {
    match k
    case Batting => "b"
    case Pitching => "p"
    case Fielding => "f"
  }

  /** The letter is the initial of the log type's name, and it tells the
      three log types apart. */
  lemma TParamIsInitial(k: LogType, k': LogType)
    ensures TParam(k) == LogTypeName(k)[..1]
    ensures TParam(k) == TParam(k') ==> k == k'
  {
  }

  const GameLogPage := "https://www.baseball-reference.com/players/gl.fcgi?"

  /** `_URL.format(player_id, t_param, season)`. */
  function GameLogUrl(season: int, playerId: string, k: LogType): string {
    GameLogPage + ("id=" + playerId) + "&" + ("t=" + TParam(k)) + "&" + ("year=" + IntToString(season))
  }

  /** The URL is the game-log page with a query whose fields are, in this
      order, the player id, the log letter and the season, whenever the
      player id holds no `&`. */
  lemma GameLogUrlQuery(season: int, playerId: string, k: LogType)
    requires '&' !in playerId
    ensures var url := GameLogUrl(season, playerId, k);
      && url[..|GameLogPage|] == GameLogPage
      && Split(url[|GameLogPage|..], '&') == ["id=" + playerId, "t=" + TParam(k), "year=" + IntToString(season)]
  {
    var url := GameLogUrl(season, playerId, k);
    var a, b, c := "id=" + playerId, "t=" + TParam(k), "year=" + IntToString(season);
    var q := a + "&" + b + "&" + c;
    PrefixThenRest(GameLogPage, a, "&", b, c);
    assert "&" == ['&'];
    NotInConcat("id=", playerId, '&');
    NoAmpersandInNumber(season);
    NotInConcat("year=", IntToString(season), '&');
    SplitThree(a, b, c, '&');
  }

  /** Peeling a fixed prefix off a left-nested concatenation. */
  lemma PrefixThenRest(p: string, a: string, s: string, b: string, c: string)
    ensures var url := p + a + s + b + s + c;
      url[..|p|] == p && url[|p|..] == a + s + b + s + c
  {
    var url := p + a + s + b + s + c;
    assert url == p + (a + s + b + s + c);
  }

  lemma NotInConcat(x: string, y: string, c: char)
    requires c !in x && c !in y
    ensures c !in x + y
  {
  }

  /** Three fields without the separator, joined by it, split back apart. */
  lemma SplitThree(a: string, b: string, c: string, sep: char)
    requires sep !in a && sep !in b && sep !in c
    ensures Split(a + [sep] + b + [sep] + c, sep) == [a, b, c]
  {
    JoinThree(a, b, c, sep);
    var parts := [a, b, c];
    assert forall k :: 0 <= k < |parts| ==> sep !in parts[k];
    SplitJoin(parts, sep);
  }

  lemma JoinThree(a: string, b: string, c: string, sep: char)
    ensures Join([a, b, c], sep) == a + [sep] + b + [sep] + c
  {
    assert [a, b, c][1..] == [b, c];
    assert [b, c][1..] == [c];
    assert Join([c], sep) == c;
    assert Join([b, c], sep) == b + [sep] + c;
  }

  /** A rendered season is a sign and digits, never an `&`. */
  lemma NoAmpersandInNumber(i: int)
    ensures '&' !in IntToString(i)
  {
    var s := IntToString(i);
    if i >= 0 {
      assert AllDigits(s);
    } else {
      assert AllDigits(s[1..]);
      assert forall m :: 1 <= m < |s| ==> s[m] == s[1..][m - 1];
    }
  }

  /** The id of the table looked up on the page. */
  function TableId(k: LogType): (id: string)
    ensures |id| == |LogTypeName(k)| + 9
    ensures id[..|LogTypeName(k)|] == LogTypeName(k) && id[|LogTypeName(k)|..] == "_gamelogs"
  {
    LogTypeName(k) + "_gamelogs"
  }

  /** The id names its log type: stripping the `_gamelogs` suffix gives back
      a name the whitelist maps to that log type, so two log types never
      look up the same table. */
  lemma TableIdNamesLogType(k: LogType, k': LogType)
    ensures ParseLogType(TableId(k)[..|TableId(k)| - 9]) == Ok(k)
    ensures TableId(k) == TableId(k') ==> k == k'
  {
    ParseLogTypeName(k);
    ParseLogTypeName(k');
  }

  const NoTableMessage := "Table with expected id not found on scraped page."

  /** get_table: fetch the game-log page for the season, player and log type,
      find the table by its id and read it; a page without that table is an
      error. */
  function GetTable<P, T>(season: int, playerId: string, k: LogType, fetch: string -> P,
                          find: (P, string) -> Option<T>, readHtml: T -> Table<Cell>): (r: Result<Table<Cell>>)
    ensures var found := find(fetch(GameLogUrl(season, playerId, k)), TableId(k));
      && (found.None? ==> r == Err(MissingTableError(NoTableMessage)))
      && (found.Some? ==> r == Ok(readHtml(found.value)))
  {
    match find(fetch(GameLogUrl(season, playerId, k)), TableId(k))
    case None => Err(MissingTableError(NoTableMessage))
    case Some(table) => Ok(readHtml(table))
  }

  // ---------------------------------------------------------------------
  // postprocess

  const Renames := map["Gtm" := "Game", "Unnamed: 5" := "Home"]

  /** Renaming touches only `Gtm` and `Unnamed: 5`; a `Game` column afterwards
      was a `Gtm` or `Game` column before, and likewise for `Home`. */
  lemma RenameGameLogHeadings(t: Table<Cell>)
    ensures var r := RenameColumns(t, Renames);
      && |r.headings| == |t.headings| && r.rows == t.rows
      && (forall i :: 0 <= i < |t.headings| && t.headings[i] != "Gtm" && t.headings[i] != "Unnamed: 5" ==>
            r.headings[i] == t.headings[i])
      && (forall i :: 0 <= i < |t.headings| ==>
            (r.headings[i] == "Game" <==> t.headings[i] == "Gtm" || t.headings[i] == "Game"))
      && (forall i :: 0 <= i < |t.headings| ==>
            (r.headings[i] == "Home" <==> t.headings[i] == "Unnamed: 5" || t.headings[i] == "Home"))
  {
  }

  /** `isnull()` of a cell, as a flag. */
  function IsNullFlag(c: Cell): (f: Cell)
    ensures f.Flag? && (f.b <==> c.Missing?)
  {
    Flag(c.Missing?)
  }

  /** `data["Home"] = data["Home"].isnull()`: every `Home` cell becomes true
      exactly when it was empty (a home game; '@' marks an away game). */
  function DeriveHome(t: Table<Cell>): (r: Result<Table<Cell>>)
    requires Rectangular(t)
    ensures r.Err? <==> "Home" !in t.headings
    ensures r.Err? ==> r.error == KeyError("Home")
    ensures r.Ok? ==> Rectangular(r.value) && r.value.headings == t.headings && |r.value.rows| == |t.rows|
    ensures r.Ok? ==> forall k, i :: 0 <= k < |t.rows| && 0 <= i < |t.headings| && t.headings[i] == "Home" ==>
              r.value.rows[k][i].Flag? && (r.value.rows[k][i].b <==> t.rows[k][i].Missing?)
    ensures r.Ok? ==> forall k, i :: 0 <= k < |t.rows| && 0 <= i < |t.headings| && t.headings[i] != "Home" ==>
              r.value.rows[k][i] == t.rows[k][i]
  {
    if "Home" !in t.headings then Err(KeyError("Home"))
    else Ok(MapColumn(t, "Home", IsNullFlag))
  }

  /** `str.match(r"\d+")`: the text starts with a digit. */
  predicate StartsWithDigit(s: string) {
    |s| > 0 && IsDigit(s[0])
  }

  /** The boolean mask over column c: whether each row's value there is text
      starting with a digit. A cell that is not text makes the match NaN,
      and a mask holding NaN is refused. */
  function GameMask(rows: seq<seq<Cell>>, c: nat): (r: Result<seq<bool>>)
    requires forall k :: 0 <= k < |rows| ==> c < |rows[k]|
    ensures r.Ok? <==> forall k :: 0 <= k < |rows| ==> rows[k][c].Text?
    ensures r.Err? ==> r.error.MaskError?
    ensures r.Ok? ==> |r.value| == |rows|
    ensures r.Ok? ==> forall k :: 0 <= k < |rows| ==> (r.value[k] <==> StartsWithDigit(rows[k][c].s))
    decreases |rows|
  {
    if |rows| == 0 then Ok([])
    else if !rows[0][c].Text? then Err(MaskError("Cannot mask with non-boolean array containing NA / NaN values"))
    else
      var rest :- GameMask(rows[1..], c);
      Ok([StartsWithDigit(rows[0][c].s)] + rest)
  }

  /** Looks up a column for its `.str` accessor: absent is a KeyError, and a
      label on several columns selects a frame, which has no `.str`. */
  function StrColumn(h: seq<string>, name: string): (r: Result<nat>)
    ensures r.Ok? <==> multiset(h)[name] == 1
    ensures r.Ok? ==> r.value < |h| && h[r.value] == name
    ensures name !in h ==> r == Err(KeyError(name))
  {
    match UniqueColumn(h, name)
    case Some(c) => Ok(c)
    case None =>
      if name !in h then Err(KeyError(name))
      else Err(AttributeError("'DataFrame' object has no attribute 'str'"))
  }

  /** A game's `Gtm` value: text starting with a digit (a game number). */
  predicate IsGameCell(c: Cell) {
    c.Text? && StartsWithDigit(c.s)
  }

  /** A row whose value in column c is a game's. */
  predicate IsGameRow(row: seq<Cell>, c: nat) {
    c < |row| && IsGameCell(row[c])
  }

  /** One flag per row: is it a game row by column c? */
  function GameRowFlags(rows: seq<seq<Cell>>, c: nat): (keep: seq<bool>)
    ensures |keep| == |rows|
    ensures forall k :: 0 <= k < |rows| ==> (keep[k] <==> IsGameRow(rows[k], c))
  {
    seq(|rows|, k requires 0 <= k < |rows| => IsGameRow(rows[k], c))
  }

  /** `data[data["Game"].str.match(r"\d+")]`: the rows whose `Game` value
      starts with a digit, and only those, in their original order. */
  function KeepGames(t: Table<Cell>): (r: Result<Table<Cell>>)
    requires Rectangular(t)
    ensures "Game" !in t.headings ==> r == Err(KeyError("Game"))
    ensures r.Ok? <==> StrColumn(t.headings, "Game").Ok? &&
                       forall k :: 0 <= k < |t.rows| ==> t.rows[k][StrColumn(t.headings, "Game").value].Text?
    ensures r.Err? && StrColumn(t.headings, "Game").Ok? ==> r.error.MaskError?
    ensures r.Ok? ==> Rectangular(r.value) && r.value.headings == t.headings
    ensures r.Ok? ==> |r.value.rows| <= |t.rows|
    ensures r.Ok? ==> StrColumn(t.headings, "Game").Ok?
    ensures r.Ok? ==>
      var c := StrColumn(t.headings, "Game").value;
      var keep := GameRowFlags(t.rows, c);
      && (forall k :: 0 <= k < |t.rows| ==> t.rows[k][c].Text?)
      && KeptInOrder(r.value.rows, t.rows, keep)
      && r.value.rows == Project(t.rows, Where(keep))
  {
    var c :- StrColumn(t.headings, "Game");
    var mask :- GameMask(t.rows, c);
    assert mask == GameRowFlags(t.rows, c);
    Ok(FilterRows(t, mask))
  }

  /** The two new cells of one row from its `Rslt` cell: the text before
      the first comma, and the text between the first and second comma
      (absent when there is no comma). A missing value gives two missing
      cells. */
  function SplitRslt(c: Cell): (Cell, Cell)
  {
    if c.Text? then
      var parts := Split(c.s, ',');
      (Text(parts[0]), if |parts| >= 2 then Text(parts[1]) else Missing)
    else (Missing, Missing)
  }

  /** What str.split(',') hands back for `W/L` and `Score`, said without
      Split: the text up to the first comma, then up to the next one. */
  lemma SplitRsltParts(s: string)
    ensures ',' !in s ==> SplitRslt(Text(s)) == (Text(s), Missing)
    ensures ',' in s ==>
      var i := IndexOf(s, ',');
      var rest := s[i + 1..];
      SplitRslt(Text(s)) == (Text(s[..i]), Text(if ',' in rest then rest[..IndexOf(rest, ',')] else rest))
  {
    SplitFirst(s, ',');
    if ',' in s {
      SplitSecond(s, ',');
    }
  }

  /** Splitting a rebuilt result gives back its parts. */
  lemma SplitRsltRoundTrip(wl: string, score: string)
    requires ',' !in wl && ',' !in score
    ensures SplitRslt(Text(wl + "," + score)) == (Text(wl), Text(score))
  {
    SplitJoin([wl, score], ',');
    assert [wl, score][1..] == [score];
  }

  /** Whether the expanded split has a second column: some row's `Rslt` is
      text with a comma in it. */
  predicate HasScorePart(rows: seq<seq<Cell>>, c: nat)
    requires forall k :: 0 <= k < |rows| ==> c < |rows[k]|
  {
    exists k :: 0 <= k < |rows| && rows[k][c].Text? && ',' in rows[k][c].s
  }

  /** The columns `W/L` and `Score` computed from the `Rslt` column c,
      assigned by label (appended when new). */
  function AddResultColumns(t: Table<Cell>, c: nat): (r: Table<Cell>)
    requires Rectangular(t) && c < |t.headings|
    ensures Rectangular(r) && |r.rows| == |t.rows|
    ensures "W/L" in r.headings && "Score" in r.headings
    ensures |r.headings| >= |t.headings|
    ensures forall i :: 0 <= i < |t.headings| ==> r.headings[i] == t.headings[i]
    ensures forall n :: n in t.headings ==> n in r.headings
    ensures forall n :: n in r.headings ==> n in t.headings || n == "W/L" || n == "Score"
    ensures forall i :: |t.headings| <= i < |r.headings| ==> r.headings[i] == "W/L" || r.headings[i] == "Score"
    ensures "W/L" !in t.headings && "Score" !in t.headings ==> r.headings == t.headings + ["W/L", "Score"]
  {
    SetColumn(SetColumn(t, "W/L", WinLossColumn(t, c)), "Score", ScoreColumn(t, c))
  }

  function WinLossColumn(t: Table<Cell>, c: nat): (col: seq<Cell>)
    requires Rectangular(t) && c < |t.headings|
    ensures |col| == |t.rows|
  {
    seq(|t.rows|, k requires 0 <= k < |t.rows| => SplitRslt(t.rows[k][c]).0)
  }

  function ScoreColumn(t: Table<Cell>, c: nat): (col: seq<Cell>)
    requires Rectangular(t) && c < |t.headings|
    ensures |col| == |t.rows|
  {
    seq(|t.rows|, k requires 0 <= k < |t.rows| => SplitRslt(t.rows[k][c]).1)
  }

  /** Every `W/L` and `Score` cell holds the split of the row's `Rslt` value;
      the other old columns keep their cells. */
  lemma AddResultColumnsCells(t: Table<Cell>, c: nat)
    requires Rectangular(t) && c < |t.headings|
    ensures var r := AddResultColumns(t, c);
      && (forall k, i :: 0 <= k < |r.rows| && 0 <= i < |r.headings| && r.headings[i] == "W/L" ==>
            r.rows[k][i] == SplitRslt(t.rows[k][c]).0)
      && (forall k, i :: 0 <= k < |r.rows| && 0 <= i < |r.headings| && r.headings[i] == "Score" ==>
            r.rows[k][i] == SplitRslt(t.rows[k][c]).1)
      && (forall k, i :: 0 <= k < |t.rows| && 0 <= i < |t.headings| && t.headings[i] != "W/L" && t.headings[i] != "Score" ==>
            r.rows[k][i] == t.rows[k][i])
  {
    var t1 := SetColumn(t, "W/L", WinLossColumn(t, c));
    assert AddResultColumns(t, c) == SetColumn(t1, "Score", ScoreColumn(t, c));
  }

  const SpentColumns := ["Rslt", "Game", "Gcar"]

  /** `Rslt` split into `W/L` and `Score`, after which `Rslt`, `Game` and
      `Gcar` are dropped. With no row the expanded split has no column 0;
      with no comma in any row it has no column 1: both are KeyErrors. */
  function SplitResults(t: Table<Cell>): (r: Result<Table<Cell>>)
    requires Rectangular(t)
    ensures "Rslt" !in t.headings ==> r == Err(KeyError("Rslt"))
    ensures r.Ok? ==> StrColumn(t.headings, "Rslt").Ok? && |t.rows| > 0
    ensures r.Ok? ==> HasScorePart(t.rows, StrColumn(t.headings, "Rslt").value)
    ensures r.Ok? ==> Rectangular(r.value) && |r.value.rows| == |t.rows|
    ensures r.Ok? ==> "W/L" in r.value.headings && "Score" in r.value.headings
    ensures r.Ok? ==> forall n :: n in SpentColumns ==> n !in r.value.headings
    ensures r.Ok? ==> forall n :: n in t.headings && n !in SpentColumns ==> n in r.value.headings
    ensures r.Ok? ==> forall n :: n in r.value.headings ==> n in t.headings || n == "W/L" || n == "Score"
    ensures r.Ok? ==>
      var c := StrColumn(t.headings, "Rslt").value;
      forall k, i :: 0 <= k < |t.rows| && 0 <= i < |r.value.headings| ==>
        && (r.value.headings[i] == "W/L" ==> r.value.rows[k][i] == SplitRslt(t.rows[k][c]).0)
        && (r.value.headings[i] == "Score" ==> r.value.rows[k][i] == SplitRslt(t.rows[k][c]).1)
  {
    var c :- StrColumn(t.headings, "Rslt");
    if |t.rows| == 0 then Err(KeyError("0"))
    else if !HasScorePart(t.rows, c) then Err(KeyError("1"))
    else
      var t2 := AddResultColumns(t, c);
      var t3 :- DropColumns(t2, SpentColumns);
      SplitResultsLabels(t, t2, t3);
      SplitResultsCells(t, c);
      Ok(t3)
  }

  /** When SplitResults succeeds and when it fails, and with which error:
      the `Rslt` lookup, then no row (no part 0), then no comma anywhere (no
      part 1), then the first of `Game` and `Gcar` that is missing. */
  lemma SplitResultsOutcome(t: Table<Cell>)
    requires Rectangular(t)
    ensures var r := SplitResults(t);
      r.Ok? <==> && StrColumn(t.headings, "Rslt").Ok? && |t.rows| > 0
                 && HasScorePart(t.rows, StrColumn(t.headings, "Rslt").value)
                 && "Game" in t.headings && "Gcar" in t.headings
    ensures StrColumn(t.headings, "Rslt").Err? ==> SplitResults(t) == Err(StrColumn(t.headings, "Rslt").error)
    ensures StrColumn(t.headings, "Rslt").Ok? ==>
      var c := StrColumn(t.headings, "Rslt").value;
      var r := SplitResults(t);
      && (|t.rows| == 0 ==> r == Err(KeyError("0")))
      && (|t.rows| > 0 && !HasScorePart(t.rows, c) ==> r == Err(KeyError("1")))
      && (|t.rows| > 0 && HasScorePart(t.rows, c) && "Game" !in t.headings ==> r == Err(KeyError("Game")))
      && (|t.rows| > 0 && HasScorePart(t.rows, c) && "Game" in t.headings && "Gcar" !in t.headings ==>
            r == Err(KeyError("Gcar")))
  {
    var sc := StrColumn(t.headings, "Rslt");
    if sc.Ok? && |t.rows| > 0 && HasScorePart(t.rows, sc.value) {
      SplitResultsDrop(t, AddResultColumns(t, sc.value));
    }
  }

  /** Every column SplitResults leaves, other than `W/L` and `Score`, is one
      of the input's columns, under the same label and with the same cells. */
  lemma SplitResultsKeepsOtherColumns(t: Table<Cell>)
    requires Rectangular(t)
    ensures var r := SplitResults(t);
      r.Ok? ==>
        forall i :: 0 <= i < |r.value.headings| && r.value.headings[i] != "W/L" && r.value.headings[i] != "Score" ==>
          exists j :: 0 <= j < |t.headings| && t.headings[j] == r.value.headings[i] &&
            forall k :: 0 <= k < |t.rows| ==> r.value.rows[k][i] == t.rows[k][j]
  {
    if SplitResults(t).Ok? {
      var c := StrColumn(t.headings, "Rslt").value;
      SplitResultsFrame(t, c, SplitResults(t).value);
    }
  }

  /** The drop of the spent columns fails exactly when `Game` or `Gcar` was
      never there, naming the first of them that is missing. */
  lemma SplitResultsDrop(t: Table<Cell>, t2: Table<Cell>)
    requires Rectangular(t2) && "Rslt" in t.headings
    requires forall n :: n in t.headings ==> n in t2.headings
    requires forall n :: n in t2.headings ==> n in t.headings || n == "W/L" || n == "Score"
    ensures DropColumns(t2, SpentColumns).Ok? <==> "Game" in t.headings && "Gcar" in t.headings
    ensures "Game" !in t.headings ==> DropColumns(t2, SpentColumns) == Err(KeyError("Game"))
    ensures "Game" in t.headings && "Gcar" !in t.headings ==> DropColumns(t2, SpentColumns) == Err(KeyError("Gcar"))
  {
    assert "Game" in t2.headings <==> "Game" in t.headings;
    assert "Gcar" in t2.headings <==> "Gcar" in t.headings;
    assert SpentColumns[1..] == ["Game", "Gcar"] && SpentColumns[2..] == ["Gcar"];
    assert FirstMissing(SpentColumns, t2.headings) == FirstMissing(["Game", "Gcar"], t2.headings);
    if "Game" in t.headings {
      assert FirstMissing(["Game", "Gcar"], t2.headings) == FirstMissing(["Gcar"], t2.headings);
    }
  }

  /** Every surviving column other than `W/L` and `Score` is one of the old
      columns, under the same label and with the same cells. */
  lemma SplitResultsFrame(t: Table<Cell>, c: nat, t3: Table<Cell>)
    requires Rectangular(t) && c < |t.headings|
    requires DropColumns(AddResultColumns(t, c), SpentColumns) == Ok(t3)
    ensures forall i :: 0 <= i < |t3.headings| && t3.headings[i] != "W/L" && t3.headings[i] != "Score" ==>
              exists j :: 0 <= j < |t.headings| && t.headings[j] == t3.headings[i] &&
                forall k :: 0 <= k < |t.rows| ==> t3.rows[k][i] == t.rows[k][j]
  {
    var t2 := AddResultColumns(t, c);
    AddResultColumnsCells(t, c);
    var ps := Where(KeepMask(t2.headings, SpentColumns));
    forall i | 0 <= i < |t3.headings| && t3.headings[i] != "W/L" && t3.headings[i] != "Score"
      ensures exists j :: 0 <= j < |t.headings| && t.headings[j] == t3.headings[i] &&
                forall k :: 0 <= k < |t.rows| ==> t3.rows[k][i] == t.rows[k][j]
    {
      var j := ps[i];
      assert t3.headings[i] == t2.headings[j];
      assert j < |t.headings|;
      assert forall k :: 0 <= k < |t.rows| ==> t3.rows[k][i] == t2.rows[k][j];
    }
  }

  /** After the drop the labels are the old ones but the spent columns,
      plus `W/L` and `Score`. */
  lemma SplitResultsLabels(t: Table<Cell>, t2: Table<Cell>, t3: Table<Cell>)
    requires Rectangular(t2) && "W/L" in t2.headings && "Score" in t2.headings
    requires forall n :: n in t.headings ==> n in t2.headings
    requires forall n :: n in t2.headings ==> n in t.headings || n == "W/L" || n == "Score"
    requires DropColumns(t2, SpentColumns) == Ok(t3)
    ensures "W/L" in t3.headings && "Score" in t3.headings
    ensures forall n :: n in t.headings && n !in SpentColumns ==> n in t3.headings
    ensures forall n :: n in t3.headings ==> n in t.headings || n == "W/L" || n == "Score"
  {
    DropColumnsKeepsOtherLabels(t2, SpentColumns, t3);
    assert "W/L" !in SpentColumns && "Score" !in SpentColumns;
  }

  /** After the drop, every `W/L` and `Score` cell is still the split of the
      row's `Rslt` value. */
  lemma SplitResultsCells(t: Table<Cell>, c: nat)
    requires Rectangular(t) && c < |t.headings|
    ensures var d := DropColumns(AddResultColumns(t, c), SpentColumns);
      d.Ok? ==> forall k, i :: 0 <= k < |t.rows| && 0 <= i < |d.value.headings| ==>
              && (d.value.headings[i] == "W/L" ==> d.value.rows[k][i] == SplitRslt(t.rows[k][c]).0)
              && (d.value.headings[i] == "Score" ==> d.value.rows[k][i] == SplitRslt(t.rows[k][c]).1)
  {
    var t2 := AddResultColumns(t, c);
    var d := DropColumns(t2, SpentColumns);
    if d.Ok? {
      var t3 := d.value;
      AddResultColumnsCells(t, c);
      var ps := Where(KeepMask(t2.headings, SpentColumns));
      forall k, i | 0 <= k < |t.rows| && 0 <= i < |t3.headings|
        ensures t3.headings[i] == "W/L" ==> t3.rows[k][i] == SplitRslt(t.rows[k][c]).0
        ensures t3.headings[i] == "Score" ==> t3.rows[k][i] == SplitRslt(t.rows[k][c]).1
      {
        assert t3.headings[i] == t2.headings[ps[i]];
        assert t3.rows[k][i] == t2.rows[k][ps[i]];
      }
    }
  }

  /** A label after the rename: the image under Renames, or itself. */
  function RenamedLabel(n: string): (m: string)
    ensures n != "Gtm" && n != "Unnamed: 5" ==> m == n
  {
    if n in Renames then Renames[n] else n
  }

  /** The first four steps of postprocess: drop `Rk`, rename `Gtm` and
      `Unnamed: 5`, drop the last (totals) row, derive `Home`. Column i of
      the result is the i-th column of the input that is not `Rk`, renamed;
      row k is row k of the input (so only the last row goes), with the
      `Home` cells replaced by whether they were empty. */
  function Prepare(t: Table<Cell>): (r: Result<Table<Cell>>)
    requires Rectangular(t)
    ensures "Rk" !in t.headings ==> r == Err(KeyError("Rk"))
    ensures r.Ok? <==> "Rk" in t.headings && ("Unnamed: 5" in t.headings || "Home" in t.headings)
    ensures "Rk" in t.headings && r.Err? ==> r == Err(KeyError("Home"))
    ensures r.Ok? ==> Rectangular(r.value)
    ensures r.Ok? ==> |r.value.rows| == if |t.rows| == 0 then 0 else |t.rows| - 1
    ensures r.Ok? ==> "Home" in r.value.headings && "Rk" !in r.value.headings
    ensures r.Ok? ==>
      var ps := Where(KeepMask(t.headings, ["Rk"]));
      && |r.value.headings| == |ps|
      && (forall i :: 0 <= i < |ps| ==> r.value.headings[i] == RenamedLabel(t.headings[ps[i]]))
      && (forall k, i :: 0 <= k < |r.value.rows| && 0 <= i < |ps| ==>
            r.value.rows[k][i] == if r.value.headings[i] == "Home" then IsNullFlag(t.rows[k][ps[i]])
                                  else t.rows[k][ps[i]])
  {
    var t1 :- DropColumns(t, ["Rk"]);
    var t3 := DropLastRow(RenameColumns(t1, Renames));
    PrepareSteps(t, t1, t3);
    DeriveHome(t3)
  }

  /** What the drop, the rename and the row drop leave for DeriveHome. */
  lemma PrepareSteps(t: Table<Cell>, t1: Table<Cell>, t3: Table<Cell>)
    requires Rectangular(t) && DropColumns(t, ["Rk"]) == Ok(t1)
    requires t3 == DropLastRow(RenameColumns(t1, Renames))
    ensures Rectangular(t3) && "Rk" !in t3.headings
    ensures "Home" in t3.headings <==> "Unnamed: 5" in t.headings || "Home" in t.headings
    ensures |t3.rows| == if |t.rows| == 0 then 0 else |t.rows| - 1
    ensures var ps := Where(KeepMask(t.headings, ["Rk"]));
      && |t3.headings| == |ps|
      && (forall i :: 0 <= i < |ps| ==> t3.headings[i] == RenamedLabel(t.headings[ps[i]]))
      && (forall k, i :: 0 <= k < |t3.rows| && 0 <= i < |ps| ==> t3.rows[k][i] == t.rows[k][ps[i]])
  {
    PrepareLabels(t, t1, RenameColumns(t1, Renames));
    PrepareCells(t, t1, t3);
  }

  /** After the drop and the rename, `Rk` is gone and `Home` is there
      exactly when the input had `Unnamed: 5` or `Home`. */
  lemma PrepareLabels(t: Table<Cell>, t1: Table<Cell>, t2: Table<Cell>)
    requires Rectangular(t) && DropColumns(t, ["Rk"]) == Ok(t1)
    requires t2 == RenameColumns(t1, Renames)
    ensures "Rk" !in t2.headings
    ensures "Home" in t2.headings <==> "Unnamed: 5" in t.headings || "Home" in t.headings
  {
    RenameGameLogHeadings(t1);
    DropColumnsKeepsOtherLabels(t, ["Rk"], t1);
    assert "Rk" !in t2.headings by {
      forall i | 0 <= i < |t2.headings|
        ensures t2.headings[i] != "Rk"
      {
        assert t1.headings[i] != "Rk";
      }
    }
    assert "Home" in t2.headings <==> "Unnamed: 5" in t1.headings || "Home" in t1.headings by {
      if "Home" in t2.headings {
        var i :| 0 <= i < |t2.headings| && t2.headings[i] == "Home";
        assert t1.headings[i] == "Unnamed: 5" || t1.headings[i] == "Home";
      }
      if "Unnamed: 5" in t1.headings || "Home" in t1.headings {
        var i :| 0 <= i < |t1.headings| && (t1.headings[i] == "Unnamed: 5" || t1.headings[i] == "Home");
        assert t2.headings[i] == "Home";
      }
    }
    assert "Unnamed: 5" in t1.headings <==> "Unnamed: 5" in t.headings;
    assert "Home" in t1.headings <==> "Home" in t.headings;
  }

  /** After the drop, the rename and the row drop, column i holds the input's
      i-th non-`Rk` column, renamed, and row k is still row k. */
  lemma PrepareCells(t: Table<Cell>, t1: Table<Cell>, t3: Table<Cell>)
    requires Rectangular(t) && DropColumns(t, ["Rk"]) == Ok(t1)
    requires t3 == DropLastRow(RenameColumns(t1, Renames))
    ensures Rectangular(t3)
    ensures |t3.rows| == if |t.rows| == 0 then 0 else |t.rows| - 1
    ensures var ps := Where(KeepMask(t.headings, ["Rk"]));
      && |t3.headings| == |ps|
      && (forall i :: 0 <= i < |ps| ==> t3.headings[i] == RenamedLabel(t.headings[ps[i]]))
      && (forall k, i :: 0 <= k < |t3.rows| && 0 <= i < |ps| ==> t3.rows[k][i] == t.rows[k][ps[i]])
  {
    var t2 := RenameColumns(t1, Renames);
    forall k | 0 <= k < |t3.rows|
      ensures t3.rows[k] == t1.rows[k]
    {
      assert t3.rows[k] == t2.rows[k];
    }
  }

  /** postprocess, step by step as the source orders it. */
  function Postprocess(t: Table<Cell>): (r: Result<Table<Cell>>)
    requires Rectangular(t)
    ensures "Rk" !in t.headings ==> r == Err(KeyError("Rk"))
    ensures r.Ok? ==> Rectangular(r.value)
    ensures r.Ok? ==> |r.value.rows| < |t.rows|
    ensures r.Ok? ==> "Home" in r.value.headings && "W/L" in r.value.headings && "Score" in r.value.headings
    ensures r.Ok? ==> "Rk" !in r.value.headings && forall n :: n in SpentColumns ==> n !in r.value.headings
  {
    var t4 :- Prepare(t);
    var t5 :- KeepGames(t4);
    var t6 :- SplitResults(t5);
    PostprocessLabels(t5, t6);
    Ok(t6)
  }

  /** The labels the last two steps leave: `Home` survives and `Rk` does not
      come back. */
  lemma PostprocessLabels(t5: Table<Cell>, t6: Table<Cell>)
    requires "Home" in t5.headings && "Rk" !in t5.headings
    requires forall n :: n in t5.headings && n !in SpentColumns ==> n in t6.headings
    requires forall n :: n in t6.headings ==> n in t5.headings || n == "W/L" || n == "Score"
    ensures "Home" in t6.headings && "Rk" !in t6.headings
  {
    assert "Home" !in SpentColumns;
    assert "Rk" != "W/L" && "Rk" != "Score";
  }

  // ---------------------------------------------------------------------
  // postprocess read row by row, by label

  /** The game-log table as the site serves it: every label once, the
      columns postprocess reads present, the ones it creates absent. */
  ghost predicate WellFormedLog(t: Table<Cell>) {
    && Rectangular(t) && UniqueLabels(t.headings)
    && "Rk" in t.headings && "Gtm" in t.headings && "Unnamed: 5" in t.headings
    && "Rslt" in t.headings && "Gcar" in t.headings
    && "Game" !in t.headings && "Home" !in t.headings && "W/L" !in t.headings && "Score" !in t.headings
  }

  /** Row k read by label. */
  function RowOf(t: Table<Cell>, k: nat): map<string, Cell>
    requires Rectangular(t) && k < |t.rows|
  {
    Record(t.headings, t.rows[k])
  }

  /** What postprocess makes of one game row, label by label: `Rk`, `Gtm`,
      `Unnamed: 5`, `Rslt` and `Gcar` go; `Home` says whether the
      `Unnamed: 5` cell was empty; `W/L` and `Score` are the parts of the
      `Rslt` text; every other label keeps its cell. */
  function PostRecord(m: map<string, Cell>): map<string, Cell>
    requires "Unnamed: 5" in m && "Rslt" in m
  {
    (m - {"Rk", "Gtm", "Unnamed: 5", "Rslt", "Gcar"})
      ["Home" := IsNullFlag(m["Unnamed: 5"])]
      ["W/L" := SplitRslt(m["Rslt"]).0]
      ["Score" := SplitRslt(m["Rslt"]).1]
  }

  predicate HasComma(c: Cell) {
    c.Text? && ',' in c.s
  }

  /** The positions of the input rows postprocess keeps: every row but the
      last whose `Gtm` value is text starting with a digit, in order. */
  function GameRows(t: Table<Cell>): (ps: seq<nat>)
    requires Rectangular(t) && "Gtm" in t.headings
    ensures forall j, j' :: 0 <= j < j' < |ps| ==> ps[j] < ps[j']
    ensures forall j :: 0 <= j < |ps| ==> ps[j] + 1 < |t.rows|
    ensures forall k :: 0 <= k < |t.rows| - 1 ==> (k in ps <==> IsGameCell(RowOf(t, k)["Gtm"]))
  {
    Where(GameFlags(GtmValues(t)))
  }

  /** The `Gtm` values of every row but the last. */
  function GtmValues(t: Table<Cell>): (gtm: seq<Cell>)
    requires Rectangular(t) && "Gtm" in t.headings
    ensures |gtm| == if |t.rows| == 0 then 0 else |t.rows| - 1
    ensures forall k :: 0 <= k < |gtm| ==> gtm[k] == RowOf(t, k)["Gtm"]
  {
    var n := if |t.rows| == 0 then 0 else |t.rows| - 1;
    seq(n, k requires 0 <= k < n => RowOf(t, k)["Gtm"])
  }

  function GameFlags(cells: seq<Cell>): (keep: seq<bool>)
    ensures |keep| == |cells|
    ensures forall k :: 0 <= k < |cells| ==> (keep[k] <==> IsGameCell(cells[k]))
  {
    seq(|cells|, k requires 0 <= k < |cells| => IsGameCell(cells[k]))
  }

  /** The mask KeepGames builds from column cg is GameFlags of that column. */
  lemma GameFlagsOfColumn(rows: seq<seq<Cell>>, cg: nat, cells: seq<Cell>)
    requires |rows| == |cells|
    requires forall k :: 0 <= k < |rows| ==> cg < |rows[k]| && rows[k][cg] == cells[k]
    ensures GameRowFlags(rows, cg) == GameFlags(cells)
  {
  }

  /** A row after the first four steps: `Rk` gone, `Gtm` renamed `Game`,
      `Unnamed: 5` replaced by the `Home` flag. */
  function PrepareRecord(m: map<string, Cell>): (r: map<string, Cell>)
    requires "Gtm" in m && "Unnamed: 5" in m
    ensures forall n :: n in r <==> n == "Game" || n == "Home" || (n in m && n != "Rk" && n != "Gtm" && n != "Unnamed: 5")
  {
    (m - {"Rk", "Gtm", "Unnamed: 5"})["Game" := m["Gtm"]]["Home" := IsNullFlag(m["Unnamed: 5"])]
  }

  /** A row after the split: `W/L` and `Score` set from `Rslt`, then the
      spent labels gone. */
  function SplitRecord(m: map<string, Cell>): map<string, Cell>
    requires "Rslt" in m
  {
    WithResultParts(m) - {"Rslt", "Game", "Gcar"}
  }

  function WithResultParts(m: map<string, Cell>): map<string, Cell>
    requires "Rslt" in m
  {
    m["W/L" := SplitRslt(m["Rslt"]).0]["Score" := SplitRslt(m["Rslt"]).1]
  }

  /** The two stages compose to the one-row reference. */
  lemma PrepareThenSplit(m: map<string, Cell>)
    requires "Gtm" in m && "Unnamed: 5" in m && "Rslt" in m && "Game" !in m
    ensures "Rslt" in PrepareRecord(m)
    ensures SplitRecord(PrepareRecord(m)) == PostRecord(m)
  {
    var p := PrepareRecord(m);
    assert p["Rslt"] == m["Rslt"];
    var got, want := SplitRecord(p), PostRecord(m);
    assert got.Keys == want.Keys;
  }

  /** Renaming is one-to-one on labels other than the two targets. */
  lemma RenamedLabelInjective(a: string, b: string)
    requires a != b && a != "Game" && a != "Home" && b != "Game" && b != "Home"
    ensures RenamedLabel(a) != RenamedLabel(b)
  {
  }

  /** The positions of the columns other than `Rk`: ascending, and all of
      them. */
  ghost predicate OtherThanRk(h: seq<string>, ps: seq<nat>) {
    && (forall j, j' :: 0 <= j < j' < |ps| ==> ps[j] < ps[j'])
    && (forall j :: 0 <= j < |ps| ==> ps[j] < |h| && h[ps[j]] != "Rk")
    && (forall p :: 0 <= p < |h| && h[p] != "Rk" ==> p in ps)
  }

  lemma OtherThanRkPositions(h: seq<string>)
    ensures OtherThanRk(h, Where(KeepMask(h, ["Rk"])))
  {
  }

  /** The labels Prepare leaves on a table with unique labels: still unique,
      and exactly the old ones but `Rk`, `Gtm` and `Unnamed: 5`, plus `Game`
      and `Home`. */
  lemma PreparedLabels(h: seq<string>, ps: seq<nat>, h': seq<string>)
    requires UniqueLabels(h) && "Gtm" in h && "Unnamed: 5" in h && "Game" !in h && "Home" !in h
    requires OtherThanRk(h, ps)
    requires |h'| == |ps| && forall i :: 0 <= i < |ps| ==> h'[i] == RenamedLabel(h[ps[i]])
    ensures UniqueLabels(h') && "Game" in h'
    ensures forall n :: n in h' <==>
              n == "Game" || n == "Home" || (n in h && n != "Rk" && n != "Gtm" && n != "Unnamed: 5")
  {
    PreparedUnique(h, ps, h');
    PreparedHas(h, ps, h', "Game");
    forall n | n == "Game" || n == "Home" || (n in h && n != "Rk" && n != "Gtm" && n != "Unnamed: 5")
      ensures n in h'
    {
      PreparedHas(h, ps, h', n);
    }
    forall n | n in h'
      ensures n == "Game" || n == "Home" || (n in h && n != "Rk" && n != "Gtm" && n != "Unnamed: 5")
    {
      var i :| 0 <= i < |h'| && h'[i] == n;
      assert h[ps[i]] != "Rk";
    }
  }

  lemma PreparedUnique(h: seq<string>, ps: seq<nat>, h': seq<string>)
    requires UniqueLabels(h) && "Game" !in h && "Home" !in h
    requires OtherThanRk(h, ps)
    requires |h'| == |ps| && forall i :: 0 <= i < |ps| ==> h'[i] == RenamedLabel(h[ps[i]])
    ensures UniqueLabels(h')
  {
    forall i, j | 0 <= i < j < |h'|
      ensures h'[i] != h'[j]
    {
      RenamedLabelInjective(h[ps[i]], h[ps[j]]);
    }
  }

  lemma PreparedHas(h: seq<string>, ps: seq<nat>, h': seq<string>, n: string)
    requires "Gtm" in h && "Unnamed: 5" in h
    requires OtherThanRk(h, ps)
    requires |h'| == |ps| && forall i :: 0 <= i < |ps| ==> h'[i] == RenamedLabel(h[ps[i]])
    requires n == "Game" || n == "Home" || (n in h && n != "Rk" && n != "Gtm" && n != "Unnamed: 5")
    ensures n in h'
  {
    var before := if n == "Game" then "Gtm" else if n == "Home" then "Unnamed: 5" else n;
    var p := IndexOf(h, before);
    assert p in ps;
    var i :| 0 <= i < |ps| && ps[i] == p;
    assert h'[i] == n;
  }

  /** One row through Prepare, read by label, is PrepareRecord of the row. */
  lemma PreparedRow(h: seq<string>, ps: seq<nat>, row: seq<Cell>, h': seq<string>, row': seq<Cell>)
    requires |row| == |h| && UniqueLabels(h) && UniqueLabels(h')
    requires "Gtm" in h && "Unnamed: 5" in h && "Game" !in h && "Home" !in h
    requires OtherThanRk(h, ps)
    requires forall n :: n in h' <==>
               n == "Game" || n == "Home" || (n in h && n != "Rk" && n != "Gtm" && n != "Unnamed: 5")
    requires |h'| == |ps| && |row'| == |ps|
    requires forall i :: 0 <= i < |ps| ==> h'[i] == RenamedLabel(h[ps[i]])
    requires forall i :: 0 <= i < |ps| ==> row'[i] == if h'[i] == "Home" then IsNullFlag(row[ps[i]]) else row[ps[i]]
    ensures Record(h', row') == PrepareRecord(Record(h, row))
  {
    var got, want := Record(h', row'), PrepareRecord(Record(h, row));
    forall n | n in got
      ensures got[n] == want[n]
    {
      var i :| 0 <= i < |h'| && h'[i] == n;
      PreparedCell(h, row, h[ps[i]], row[ps[i]], n, row'[i]);
    }
    Extensional(got, want);
  }

  /** One cell through Prepare: the cell `c` under label `b` reappears as
      `c'` under the renamed label `n`. */
  lemma PreparedCell(h: seq<string>, row: seq<Cell>, b: string, c: Cell, n: string, c': Cell)
    requires |row| == |h| && "Gtm" in h && "Unnamed: 5" in h && "Game" !in h && "Home" !in h
    requires b in h && b != "Rk" && Record(h, row)[b] == c
    requires n == RenamedLabel(b)
    requires c' == if n == "Home" then IsNullFlag(c) else c
    ensures n in PrepareRecord(Record(h, row)) && PrepareRecord(Record(h, row))[n] == c'
  {
    var m := Record(h, row);
    if b == "Gtm" {
      assert n == "Game";
    } else if b == "Unnamed: 5" {
      assert n == "Home";
    } else {
      assert n == b && n != "Game" && n != "Home";
    }
  }

  /** Prepare on a well-formed game log: it succeeds, keeps labels unique,
      leaves the labels PrepareRecord says, and reads row by row as
      PrepareRecord of the same input row. */
  lemma PrepareRecords(t: Table<Cell>)
    requires WellFormedLog(t)
    ensures Prepare(t).Ok?
    ensures var r := Prepare(t).value;
      && Rectangular(r) && |r.rows| == (if |t.rows| == 0 then 0 else |t.rows| - 1)
      && UniqueLabels(r.headings) && "Game" in r.headings
      && (forall n :: n in r.headings <==>
            n == "Game" || n == "Home" || (n in t.headings && n != "Rk" && n != "Gtm" && n != "Unnamed: 5"))
      && forall k :: 0 <= k < |r.rows| ==> Record(r.headings, r.rows[k]) == PrepareRecord(RowOf(t, k))
  {
    var r, ps := PreparedShape(t);
    PreparedLabels(t.headings, ps, r.headings);
    PreparedRows(t, ps, r);
  }

  /** Prepare's positional contract, with the kept positions named. */
  lemma PreparedShape(t: Table<Cell>) returns (r: Table<Cell>, ps: seq<nat>)
    requires WellFormedLog(t)
    ensures Prepare(t) == Ok(r) && OtherThanRk(t.headings, ps)
    ensures Rectangular(r) && |r.rows| == (if |t.rows| == 0 then 0 else |t.rows| - 1)
    ensures |r.headings| == |ps| && forall i :: 0 <= i < |ps| ==> r.headings[i] == RenamedLabel(t.headings[ps[i]])
    ensures forall k, i :: 0 <= k < |r.rows| && 0 <= i < |ps| ==>
              r.rows[k][i] == if r.headings[i] == "Home" then IsNullFlag(t.rows[k][ps[i]]) else t.rows[k][ps[i]]
  {
    r := Prepare(t).value;
    ps := Where(KeepMask(t.headings, ["Rk"]));
    OtherThanRkPositions(t.headings);
  }

  lemma PreparedRows(t: Table<Cell>, ps: seq<nat>, r: Table<Cell>)
    requires WellFormedLog(t) && UniqueLabels(r.headings) && OtherThanRk(t.headings, ps)
    requires forall n :: n in r.headings <==>
               n == "Game" || n == "Home" || (n in t.headings && n != "Rk" && n != "Gtm" && n != "Unnamed: 5")
    requires |r.headings| == |ps| && |r.rows| <= |t.rows|
    requires forall k :: 0 <= k < |r.rows| ==> |r.rows[k]| == |ps|
    requires forall i :: 0 <= i < |ps| ==> r.headings[i] == RenamedLabel(t.headings[ps[i]])
    requires forall k, i :: 0 <= k < |r.rows| && 0 <= i < |ps| ==>
               r.rows[k][i] == if r.headings[i] == "Home" then IsNullFlag(t.rows[k][ps[i]]) else t.rows[k][ps[i]]
    ensures forall k :: 0 <= k < |r.rows| ==> Record(r.headings, r.rows[k]) == PrepareRecord(RowOf(t, k))
  {
    forall k | 0 <= k < |r.rows|
      ensures Record(r.headings, r.rows[k]) == PrepareRecord(RowOf(t, k))
    {
      PreparedRow(t.headings, ps, t.rows[k], r.headings, r.rows[k]);
    }
  }

  /** SplitResults on a table with unique labels holding `Rslt`, `Game` and
      `Gcar` but not yet `W/L` or `Score`, with at least one row whose
      `Rslt` has a comma: it succeeds and reads row by row as SplitRecord. */
  lemma SplitResultsRecords(t: Table<Cell>)
    requires Rectangular(t) && UniqueLabels(t.headings)
    requires "Rslt" in t.headings && "Game" in t.headings && "Gcar" in t.headings
    requires "W/L" !in t.headings && "Score" !in t.headings
    requires exists k :: 0 <= k < |t.rows| && HasComma(RowOf(t, k)["Rslt"])
    ensures SplitResults(t).Ok?
    ensures var r := SplitResults(t).value;
      && UniqueLabels(r.headings)
      && forall k :: 0 <= k < |r.rows| ==> Record(r.headings, r.rows[k]) == SplitRecord(RowOf(t, k))
  {
    var c := ScoreColumnOf(t);
    SplitResultsOutcome(t);
    SplitResultsIs(t, c);
    SplitRecordsFrom(t, c, SplitResults(t).value);
  }

  /** The `Rslt` column of a table with unique labels, and the comma some
      row's value there holds. */
  lemma ScoreColumnOf(t: Table<Cell>) returns (c: nat)
    requires Rectangular(t) && UniqueLabels(t.headings) && "Rslt" in t.headings
    requires exists k :: 0 <= k < |t.rows| && HasComma(RowOf(t, k)["Rslt"])
    ensures StrColumn(t.headings, "Rslt") == Ok(c) && c < |t.headings| && t.headings[c] == "Rslt"
    ensures |t.rows| > 0 && HasScorePart(t.rows, c)
  {
    UniqueLabelsCount(t.headings, "Rslt");
    c := StrColumn(t.headings, "Rslt").value;
    var k0 :| 0 <= k0 < |t.rows| && HasComma(RowOf(t, k0)["Rslt"]);
    assert RowOf(t, k0)["Rslt"] == t.rows[k0][c];
  }

  /** Past its checks, SplitResults is the assignment and the drop. */
  lemma SplitResultsIs(t: Table<Cell>, c: nat)
    requires Rectangular(t) && StrColumn(t.headings, "Rslt") == Ok(c) && |t.rows| > 0 && HasScorePart(t.rows, c)
    ensures SplitResults(t) == DropColumns(AddResultColumns(t, c), SpentColumns)
  {
  }

  /** The record form of the assignment and the drop. */
  lemma SplitRecordsFrom(t: Table<Cell>, c: nat, t3: Table<Cell>)
    requires Rectangular(t) && UniqueLabels(t.headings) && c < |t.headings| && t.headings[c] == "Rslt"
    requires "W/L" !in t.headings && "Score" !in t.headings
    requires DropColumns(AddResultColumns(t, c), SpentColumns) == Ok(t3)
    ensures UniqueLabels(t3.headings)
    ensures forall k :: 0 <= k < |t3.rows| ==> Record(t3.headings, t3.rows[k]) == SplitRecord(RowOf(t, k))
  {
    var t2 := AddResultColumns(t, c);
    AddedLabelsUnique(t.headings);
    DropColumnsRecords(t2, SpentColumns, t3);
    SpentLabels();
    forall k | 0 <= k < |t3.rows|
      ensures Record(t3.headings, t3.rows[k]) == SplitRecord(RowOf(t, k))
    {
      AddedRow(t, c, k);
    }
  }

  lemma SpentLabels()
    ensures (set n | n in SpentColumns) == {"Rslt", "Game", "Gcar"}
  {
    assert SpentColumns == ["Rslt", "Game", "Gcar"];
  }

  lemma AddedLabelsUnique(h: seq<string>)
    requires UniqueLabels(h) && "W/L" !in h && "Score" !in h
    ensures UniqueLabels(h + ["W/L", "Score"])
  {
  }

  /** One row after the two columns are added, read by label: the old
      record with `W/L` and `Score` set from its `Rslt`. */
  lemma AddedRow(t: Table<Cell>, c: nat, k: nat)
    requires Rectangular(t) && UniqueLabels(t.headings) && c < |t.headings| && t.headings[c] == "Rslt"
    requires "W/L" !in t.headings && "Score" !in t.headings && k < |t.rows|
    ensures var t2 := AddResultColumns(t, c);
      Record(t2.headings, t2.rows[k]) == WithResultParts(RowOf(t, k))
  {
    var t2 := AddResultColumns(t, c);
    var got, want := Record(t2.headings, t2.rows[k]), WithResultParts(RowOf(t, k));
    assert t2.headings == t.headings + ["W/L", "Score"];
    forall n | n in got
      ensures got[n] == want[n]
    {
      var i :| 0 <= i < |t2.headings| && t2.headings[i] == n;
      AddedCell(t, c, k, i);
    }
    Extensional(got, want);
  }

  /** One cell of a row after the two columns are added. */
  lemma AddedCell(t: Table<Cell>, c: nat, k: nat, i: nat)
    requires Rectangular(t) && UniqueLabels(t.headings) && c < |t.headings| && t.headings[c] == "Rslt"
    requires "W/L" !in t.headings && "Score" !in t.headings && k < |t.rows| && i < |t.headings| + 2
    ensures var t2 := AddResultColumns(t, c);
      i < |t2.headings| && t2.headings[i] in WithResultParts(RowOf(t, k)) &&
      Record(t2.headings, t2.rows[k])[t2.headings[i]] == WithResultParts(RowOf(t, k))[t2.headings[i]]
  {
    var t2 := AddResultColumns(t, c);
    AddResultColumnsCells(t, c);
    AddedLabelsUnique(t.headings);
    assert RowOf(t, k)["Rslt"] == t.rows[k][c];
    if i < |t.headings| {
      assert t2.rows[k][i] == t.rows[k][i];
    }
  }

  /** postprocess on a well-formed game log, end to end. It succeeds exactly
      when every `Gtm` value above the totals row is text (the match mask has
      no NaN) and some kept row's `Rslt` has a comma (the split has a second
      part). Then its rows are the kept input rows in their order, and each
      reads, label by label, as PostRecord of its input row. */
  lemma PostprocessGameLog(t: Table<Cell>)
    requires WellFormedLog(t)
    ensures var ps := GameRows(t);
      Postprocess(t).Ok? <==>
        && (forall k :: 0 <= k < |t.rows| - 1 ==> RowOf(t, k)["Gtm"].Text?)
        && exists j :: 0 <= j < |ps| && HasComma(RowOf(t, ps[j])["Rslt"])
    ensures var ps := GameRows(t);
      Postprocess(t).Ok? ==>
        var r := Postprocess(t).value;
        && |r.rows| == |ps|
        && forall j :: 0 <= j < |ps| ==> Record(r.headings, r.rows[j]) == PostRecord(RowOf(t, ps[j]))
  {
    PrepareRecords(t);
    var t4 := Prepare(t).value;
    GamesKept(t, t4);
    if KeepGames(t4).Ok? {
      var t5 := KeepGames(t4).value;
      PreparedForSplit(t, t5.headings);
      ScoresKept(t, t5, GameRows(t));
    }
  }

  /** The game-row filter after Prepare on a well-formed log: it fails
      exactly when some `Gtm` value above the totals row is not text, and
      otherwise keeps the rows GameRows names. */
  lemma GamesKept(t: Table<Cell>, t4: Table<Cell>)
    requires WellFormedLog(t) && Rectangular(t4) && UniqueLabels(t4.headings) && "Game" in t4.headings
    requires |t4.rows| == if |t.rows| == 0 then 0 else |t.rows| - 1
    requires forall k :: 0 <= k < |t4.rows| ==> Record(t4.headings, t4.rows[k]) == PrepareRecord(RowOf(t, k))
    ensures KeepGames(t4).Ok? <==> forall k :: 0 <= k < |t.rows| - 1 ==> RowOf(t, k)["Gtm"].Text?
    ensures KeepGames(t4).Ok? ==>
      var t5 := KeepGames(t4).value;
      && t5.headings == t4.headings && Rectangular(t5) && |t5.rows| == |GameRows(t)|
      && forall j :: 0 <= j < |t5.rows| ==>
           Record(t5.headings, t5.rows[j]) == PrepareRecord(RowOf(t, GameRows(t)[j]))
  {
    var gtm := GtmValues(t);
    var cg := GameColumnOf(t, t4);
    KeepGamesOn(t4, cg, gtm);
    GtmValuesText(t);
    if KeepGames(t4).Ok? {
      var ps, t5 := GameRows(t), KeepGames(t4).value;
      assert t5.rows == Project(t4.rows, ps);
      KeptRecords(t, t4, t5, ps);
    }
  }

  lemma GtmValuesText(t: Table<Cell>)
    requires Rectangular(t) && "Gtm" in t.headings
    ensures (forall k :: 0 <= k < |GtmValues(t)| ==> GtmValues(t)[k].Text?) <==>
            (forall k :: 0 <= k < |t.rows| - 1 ==> RowOf(t, k)["Gtm"].Text?)
  {
    var gtm := GtmValues(t);
    if forall k :: 0 <= k < |gtm| ==> gtm[k].Text? {
      forall k | 0 <= k < |t.rows| - 1
        ensures RowOf(t, k)["Gtm"].Text?
      {
        assert gtm[k] == RowOf(t, k)["Gtm"];
      }
    }
  }

  /** After Prepare, the `Game` column holds the `Gtm` values. */
  lemma GameColumnOf(t: Table<Cell>, t4: Table<Cell>) returns (cg: nat)
    requires WellFormedLog(t) && Rectangular(t4) && UniqueLabels(t4.headings) && "Game" in t4.headings
    requires |t4.rows| == if |t.rows| == 0 then 0 else |t.rows| - 1
    requires forall k :: 0 <= k < |t4.rows| ==> Record(t4.headings, t4.rows[k]) == PrepareRecord(RowOf(t, k))
    ensures StrColumn(t4.headings, "Game") == Ok(cg) && |GtmValues(t)| == |t4.rows|
    ensures forall k :: 0 <= k < |t4.rows| ==> t4.rows[k][cg] == GtmValues(t)[k]
  {
    UniqueLabelsCount(t4.headings, "Game");
    cg := StrColumn(t4.headings, "Game").value;
    forall k | 0 <= k < |t4.rows|
      ensures t4.rows[k][cg] == GtmValues(t)[k]
    {
      assert Record(t4.headings, t4.rows[k])["Game"] == t4.rows[k][cg];
    }
  }

  /** KeepGames on a table whose `Game` column holds `gtm`: it succeeds
      exactly when every value is text, and keeps the rows GameFlags marks. */
  lemma KeepGamesOn(t: Table<Cell>, cg: nat, gtm: seq<Cell>)
    requires Rectangular(t) && StrColumn(t.headings, "Game") == Ok(cg) && |gtm| == |t.rows|
    requires forall k :: 0 <= k < |t.rows| ==> t.rows[k][cg] == gtm[k]
    ensures KeepGames(t).Ok? <==> forall k :: 0 <= k < |gtm| ==> gtm[k].Text?
    ensures KeepGames(t).Ok? ==>
      var r := KeepGames(t).value;
      && r.headings == t.headings && Rectangular(r) && r.rows == Project(t.rows, Where(GameFlags(gtm)))
  {
    GameFlagsOfColumn(t.rows, cg, gtm);
  }

  /** Rows picked at positions ps keep their records. */
  lemma KeptRecords(t: Table<Cell>, t4: Table<Cell>, t5: Table<Cell>, ps: seq<nat>)
    requires WellFormedLog(t) && Rectangular(t4) && t5.headings == t4.headings
    requires forall j :: 0 <= j < |ps| ==> ps[j] < |t4.rows| && ps[j] < |t.rows|
    requires t5.rows == Project(t4.rows, ps)
    requires forall k :: 0 <= k < |t4.rows| && k < |t.rows| ==>
               Record(t4.headings, t4.rows[k]) == PrepareRecord(RowOf(t, k))
    ensures forall j :: 0 <= j < |t5.rows| ==> Record(t5.headings, t5.rows[j]) == PrepareRecord(RowOf(t, ps[j]))
  {
    forall j | 0 <= j < |t5.rows|
      ensures Record(t5.headings, t5.rows[j]) == PrepareRecord(RowOf(t, ps[j]))
    {
      assert t5.rows[j] == t4.rows[ps[j]];
    }
  }

  /** The split after Prepare and the filter on a well-formed log, the
      kept rows being the input rows at ps: it fails exactly when no kept
      row's `Rslt` has a comma, and otherwise each row reads as PostRecord
      of its input row. */
  lemma ScoresKept(t: Table<Cell>, t5: Table<Cell>, ps: seq<nat>)
    requires WellFormedLog(t) && Rectangular(t5) && UniqueLabels(t5.headings)
    requires "Rslt" in t5.headings && "Game" in t5.headings && "Gcar" in t5.headings
    requires "W/L" !in t5.headings && "Score" !in t5.headings
    requires |t5.rows| == |ps| && forall j :: 0 <= j < |ps| ==> ps[j] < |t.rows|
    requires forall j :: 0 <= j < |t5.rows| ==> Record(t5.headings, t5.rows[j]) == PrepareRecord(RowOf(t, ps[j]))
    ensures SplitResults(t5).Ok? <==> exists j :: 0 <= j < |ps| && HasComma(RowOf(t, ps[j])["Rslt"])
    ensures SplitResults(t5).Ok? ==>
      var r := SplitResults(t5).value;
      && |r.rows| == |ps|
      && forall j :: 0 <= j < |ps| ==> Record(r.headings, r.rows[j]) == PostRecord(RowOf(t, ps[j]))
  {
    ScoresOutcome(t, t5, ps);
    ScoresRecords(t, t5, ps);
  }

  lemma ScoresOutcome(t: Table<Cell>, t5: Table<Cell>, ps: seq<nat>)
    requires WellFormedLog(t) && Rectangular(t5) && UniqueLabels(t5.headings)
    requires "Rslt" in t5.headings && "Game" in t5.headings && "Gcar" in t5.headings
    requires |t5.rows| == |ps| && forall j :: 0 <= j < |ps| ==> ps[j] < |t.rows|
    requires forall j :: 0 <= j < |t5.rows| ==> Record(t5.headings, t5.rows[j]) == PrepareRecord(RowOf(t, ps[j]))
    ensures SplitResults(t5).Ok? <==> exists j :: 0 <= j < |ps| && HasComma(RowOf(t, ps[j])["Rslt"])
  {
    RsltKept(t, t5, ps);
    SplitSucceedsByComma(t5);
  }

  lemma ScoresRecords(t: Table<Cell>, t5: Table<Cell>, ps: seq<nat>)
    requires WellFormedLog(t) && Rectangular(t5) && UniqueLabels(t5.headings)
    requires "Rslt" in t5.headings && "Game" in t5.headings && "Gcar" in t5.headings
    requires "W/L" !in t5.headings && "Score" !in t5.headings
    requires |t5.rows| == |ps| && forall j :: 0 <= j < |ps| ==> ps[j] < |t.rows|
    requires forall j :: 0 <= j < |t5.rows| ==> Record(t5.headings, t5.rows[j]) == PrepareRecord(RowOf(t, ps[j]))
    ensures SplitResults(t5).Ok? ==>
      var r := SplitResults(t5).value;
      && |r.rows| == |ps|
      && forall j :: 0 <= j < |ps| ==> Record(r.headings, r.rows[j]) == PostRecord(RowOf(t, ps[j]))
  {
    SplitSucceedsByComma(t5);
    if SplitResults(t5).Ok? {
      SplitResultsRecords(t5);
      SplitPreparedRows(t, t5, ps);
    }
  }

  /** Splitting a prepared row gives the reference record of its input row. */
  lemma SplitPreparedRows(t: Table<Cell>, t5: Table<Cell>, ps: seq<nat>)
    requires WellFormedLog(t) && Rectangular(t5)
    requires |t5.rows| == |ps| && forall j :: 0 <= j < |ps| ==> ps[j] < |t.rows|
    requires forall j :: 0 <= j < |t5.rows| ==> Record(t5.headings, t5.rows[j]) == PrepareRecord(RowOf(t, ps[j]))
    ensures forall j :: 0 <= j < |ps| ==>
              "Rslt" in RowOf(t5, j) && SplitRecord(RowOf(t5, j)) == PostRecord(RowOf(t, ps[j]))
  {
    forall j | 0 <= j < |ps|
      ensures "Rslt" in RowOf(t5, j) && SplitRecord(RowOf(t5, j)) == PostRecord(RowOf(t, ps[j]))
    {
      PrepareThenSplit(RowOf(t, ps[j]));
    }
  }

  /** The labels the split reads are there after Prepare, and the ones it
      creates are not. */
  lemma PreparedForSplit(t: Table<Cell>, h: seq<string>)
    requires WellFormedLog(t)
    requires forall n :: n in h <==>
               n == "Game" || n == "Home" || (n in t.headings && n != "Rk" && n != "Gtm" && n != "Unnamed: 5")
    ensures "Rslt" in h && "Game" in h && "Gcar" in h && "W/L" !in h && "Score" !in h
  {
  }

  /** Prepare and the filter leave each kept row's `Rslt` cell as it was. */
  lemma RsltKept(t: Table<Cell>, t5: Table<Cell>, ps: seq<nat>)
    requires WellFormedLog(t) && Rectangular(t5) && "Rslt" in t5.headings
    requires |t5.rows| == |ps| && forall j :: 0 <= j < |ps| ==> ps[j] < |t.rows|
    requires forall j :: 0 <= j < |t5.rows| ==> Record(t5.headings, t5.rows[j]) == PrepareRecord(RowOf(t, ps[j]))
    ensures forall j :: 0 <= j < |t5.rows| ==> RowOf(t5, j)["Rslt"] == RowOf(t, ps[j])["Rslt"]
  {
    forall j | 0 <= j < |t5.rows|
      ensures RowOf(t5, j)["Rslt"] == RowOf(t, ps[j])["Rslt"]
    {
      assert RowOf(t5, j) == PrepareRecord(RowOf(t, ps[j]));
    }
  }

  /** On a table with unique labels holding `Rslt`, `Game` and `Gcar`, the
      split succeeds exactly when some row's `Rslt` has a comma. */
  lemma SplitSucceedsByComma(t: Table<Cell>)
    requires Rectangular(t) && UniqueLabels(t.headings)
    requires "Rslt" in t.headings && "Game" in t.headings && "Gcar" in t.headings
    ensures SplitResults(t).Ok? <==> exists j :: 0 <= j < |t.rows| && HasComma(RowOf(t, j)["Rslt"])
  {
    UniqueLabelsCount(t.headings, "Rslt");
    var cr := StrColumn(t.headings, "Rslt").value;
    assert forall j :: 0 <= j < |t.rows| ==> t.rows[j][cr] == RowOf(t, j)["Rslt"];
    SplitResultsOutcome(t);
  }

  /** player_game_logs: the log type is checked before anything is fetched,
      then the table is fetched and post-processed. */
  function GameLogs<P, T(!new)>(season: int, playerId: string, logType: string, fetch: string -> P,
                          find: (P, string) -> Option<T>, readHtml: T -> Table<Cell>): (r: Result<Table<Cell>>)
    requires forall x :: Rectangular(readHtml(x))
    ensures ParseLogType(logType).Err? ==> r == Err(ValueError(LogTypeMessage))
    ensures ParseLogType(logType).Ok? ==>
      var k := ParseLogType(logType).value;
      var found := find(fetch(GameLogUrl(season, playerId, k)), TableId(k));
      && (found.None? ==> r == Err(MissingTableError(NoTableMessage)))
      && (found.Some? ==> r == Postprocess(readHtml(found.value)))
  {
    var k :- ParseLogType(logType);
    var raw :- GetTable(season, playerId, k, fetch, find, readHtml);
    Postprocess(raw)
  }

  /** An unknown log type fails the same way whatever the network would
      have returned: nothing is fetched for it. */
  lemma UnknownLogTypeFetchesNothing<P, T(!new)>(season: int, playerId: string, logType: string,
                                           fetch1: string -> P, fetch2: string -> P,
                                           find: (P, string) -> Option<T>, readHtml: T -> Table<Cell>)
    requires forall x :: Rectangular(readHtml(x))
    requires logType != "batting" && logType != "pitching" && logType != "fielding"
    ensures GameLogs(season, playerId, logType, fetch1, find, readHtml)
            == GameLogs(season, playerId, logType, fetch2, find, readHtml)
            == Err(ValueError(LogTypeMessage))
  {
  }
}
