/** A table as its ordered column names plus its ordered rows of cells, and
    the column and row operations the game-log post-processing applies to it
    (drop columns by label, rename labels, assign a column, filter rows).
    Rows are positional: cell i of a row belongs to heading i. */
module Tables {
  import opened Errors
  import opened TextUtil

  datatype Table<V> = Table(headings: seq<string>, rows: seq<seq<V>>)

  /** Every row has exactly one cell per heading, as in a data frame. */
  ghost predicate Rectangular<V>(t: Table<V>) {
    forall k :: 0 <= k < |t.rows| ==> |t.rows[k]| == |t.headings|
  }

  // ---------------------------------------------------------------------
  // Positional selection

  /** The positions at which `bs` is true, in ascending order. */
  function Where(bs: seq<bool>): (ps: seq<nat>)
    ensures |ps| <= |bs|
    ensures forall j :: 0 <= j < |ps| ==> ps[j] < |bs| && bs[ps[j]]
    ensures forall j, j' :: 0 <= j < j' < |ps| ==> ps[j] < ps[j']
    ensures forall i :: 0 <= i < |bs| && bs[i] ==> i in ps
    decreases |bs|
  {
    if |bs| == 0 then []
    else Where(bs[..|bs| - 1]) + (if bs[|bs| - 1] then [|bs| - 1] else [])
  }

  /** The elements of `s` at positions `ps`, in the order of `ps`. */
  function Project<T>(s: seq<T>, ps: seq<nat>): (r: seq<T>)
    requires forall j :: 0 <= j < |ps| ==> ps[j] < |s|
    ensures |r| == |ps|
  {
    seq(|ps|, j requires 0 <= j < |ps| => s[ps[j]])
  }

  /** The elements of `s` whose flag in `bs` is set, keeping their order. */
  function Select<T>(s: seq<T>, bs: seq<bool>): seq<T>
    requires |s| == |bs|
    decreases |s|
  {
    if |s| == 0 then []
    else Select(s[..|s| - 1], bs[..|bs| - 1]) + (if bs[|bs| - 1] then [s[|s| - 1]] else [])
  }

  /** Filtering by flags is the same as picking out the flagged positions. */
  lemma {:induction false} SelectIsProjection<T>(s: seq<T>, bs: seq<bool>)
    requires |s| == |bs|
    ensures Select(s, bs) == Project(s, Where(bs))
    decreases |s|
  {
    if |s| > 0 {
      var n := |s| - 1;
      SelectIsProjection(s[..n], bs[..n]);
      var ps := Where(bs[..n]);
      assert Where(bs) == ps + (if bs[n] then [n] else []);
      assert Project(s[..n], ps) == Project(s, ps);
    }
  }

  // ---------------------------------------------------------------------
  // Column operations

  /** Flags the columns whose heading is not among `names`. */
  function KeepMask(h: seq<string>, names: seq<string>): (bs: seq<bool>)
    ensures |bs| == |h|
    ensures forall i :: 0 <= i < |h| ==> (bs[i] <==> h[i] !in names)
  {
    seq(|h|, i requires 0 <= i < |h| => h[i] !in names)
  }

  /** The first of `names` that is not a heading, if any. */
  function FirstMissing(names: seq<string>, h: seq<string>): (m: Option<string>)
    ensures m.None? <==> forall n :: n in names ==> n in h
    ensures m.Some? ==> m.value in names && m.value !in h
  {
    if |names| == 0 then None
    else if names[0] !in h then Some(names[0])
    else FirstMissing(names[1..], h)
  }

  /** DataFrame.drop(columns=names): every column labelled with one of
      `names` goes; a label that names no column is a KeyError. */
  function DropColumns<V>(t: Table<V>, names: seq<string>): (r: Result<Table<V>>)
    requires Rectangular(t)
    ensures r.Err? <==> exists n :: n in names && n !in t.headings
    ensures r.Err? ==> r.error.KeyError? && r.error.key in names && r.error.key !in t.headings
    ensures r.Ok? ==>
      var ps := Where(KeepMask(t.headings, names));
      && r.value.headings == Project(t.headings, ps)
      && |r.value.rows| == |t.rows|
      && forall k :: 0 <= k < |t.rows| ==> r.value.rows[k] == Project(t.rows[k], ps)
    ensures r.Ok? ==> Rectangular(r.value)
    ensures r.Ok? ==> forall n :: n in names ==> n !in r.value.headings
  {
    match FirstMissing(names, t.headings)
    case Some(n) => Err(KeyError(n))
    case None =>
      var mask := KeepMask(t.headings, names);
      SelectIsProjection(t.headings, mask);
      var rows := seq(|t.rows|, k requires 0 <= k < |t.rows| => Select(t.rows[k], mask));
      assert forall k :: 0 <= k < |t.rows| ==> rows[k] == Project(t.rows[k], Where(mask)) by {
        forall k | 0 <= k < |t.rows| {
          SelectIsProjection(t.rows[k], mask);
        }
      }
      Ok(Table(Select(t.headings, mask), rows))
  }

  /** DataFrame.rename(columns=m): each heading that is a key of `m` becomes
      its image; labels absent from the table are ignored; cells stay. */
  function RenameColumns<V>(t: Table<V>, m: map<string, string>): (r: Table<V>)
    ensures |r.headings| == |t.headings| && r.rows == t.rows
    ensures forall i :: 0 <= i < |t.headings| && t.headings[i] in m ==> r.headings[i] == m[t.headings[i]]
    ensures forall i :: 0 <= i < |t.headings| && t.headings[i] !in m ==> r.headings[i] == t.headings[i]
  {
    Table(seq(|t.headings|, i requires 0 <= i < |t.headings| =>
            if t.headings[i] in m then m[t.headings[i]] else t.headings[i]),
          t.rows)
  }

  /** Assigning a whole column by label: every column carrying the label
      receives `col`; when no column carries it, one is appended. */
  function SetColumn<V>(t: Table<V>, name: string, col: seq<V>): (r: Table<V>)
    requires Rectangular(t) && |col| == |t.rows|
    ensures Rectangular(r) && |r.rows| == |t.rows|
    ensures name in r.headings
    ensures |r.headings| == |t.headings| + (if name in t.headings then 0 else 1)
    ensures forall i :: 0 <= i < |t.headings| ==> r.headings[i] == t.headings[i]
    ensures forall i :: |t.headings| <= i < |r.headings| ==> r.headings[i] == name
    ensures forall k, i :: 0 <= k < |r.rows| && 0 <= i < |r.headings| && r.headings[i] == name ==>
              r.rows[k][i] == col[k]
    ensures forall k, i :: 0 <= k < |t.rows| && 0 <= i < |t.headings| && t.headings[i] != name ==>
              r.rows[k][i] == t.rows[k][i]
  {
    if name in t.headings then
      Table(t.headings,
            seq(|t.rows|, k requires 0 <= k < |t.rows| =>
              seq(|t.headings|, i requires 0 <= i < |t.headings| =>
                if t.headings[i] == name then col[k] else t.rows[k][i])))
    else
      Table(t.headings + [name],
            seq(|t.rows|, k requires 0 <= k < |t.rows| => t.rows[k] + [col[k]]))
  }

  /** Rewriting, cell by cell, every column carrying the label `name`. */
  function MapColumn<V>(t: Table<V>, name: string, f: V -> V): (r: Table<V>)
    requires Rectangular(t)
    ensures Rectangular(r) && r.headings == t.headings && |r.rows| == |t.rows|
    ensures forall k, i :: 0 <= k < |t.rows| && 0 <= i < |t.headings| ==>
              r.rows[k][i] == if t.headings[i] == name then f(t.rows[k][i]) else t.rows[k][i]
  {
    Table(t.headings,
          seq(|t.rows|, k requires 0 <= k < |t.rows| =>
            seq(|t.headings|, i requires 0 <= i < |t.headings| =>
              if t.headings[i] == name then f(t.rows[k][i]) else t.rows[k][i])))
  }

  /** The one position of `name` in `h`, when it occurs exactly once. */
  function UniqueColumn(h: seq<string>, name: string): (c: Option<nat>)
    ensures c.Some? <==> multiset(h)[name] == 1
    ensures c.Some? ==> c.value < |h| && h[c.value] == name
    ensures c.Some? ==> forall i :: 0 <= i < |h| && i != c.value ==> h[i] != name
  {
    if multiset(h)[name] != 1 then None
    else
      var c := IndexOf(h, name);
      UniqueIndex(h, name, c);
      Some(c)
  }

  /** A label that occurs once occurs nowhere but at its first position. */
  lemma UniqueIndex(h: seq<string>, name: string, c: nat)
    requires multiset(h)[name] == 1 && c < |h| && h[c] == name
    ensures forall i :: 0 <= i < |h| && i != c ==> h[i] != name
  {
    forall i | 0 <= i < |h| && i != c
      ensures h[i] != name
    {
      var lo, hi := if i < c then i else c, if i < c then c else i;
      assert h == h[..hi] + h[hi..];
      assert h[..hi][lo] == h[lo] && h[hi..][0] == h[hi];
      assert multiset(h) == multiset(h[..hi]) + multiset(h[hi..]);
    }
  }

  /** DataFrame.drop of the tail(1) index: the last row goes, if there is one. */
  function DropLastRow<V>(t: Table<V>): (r: Table<V>)
    ensures r.headings == t.headings
    ensures |t.rows| == 0 ==> r.rows == []
    ensures |t.rows| > 0 ==> r.rows + [t.rows[|t.rows| - 1]] == t.rows
  {
    if |t.rows| == 0 then t else Table(t.headings, t.rows[..|t.rows| - 1])
  }

  /** `r` is `s` with exactly the elements flagged in `keep` kept, in their
      original order. */
  ghost predicate KeptInOrder<T>(r: seq<T>, s: seq<T>, keep: seq<bool>) {
    exists ps: seq<nat> ::
      && (forall j, j' :: 0 <= j < j' < |ps| ==> ps[j] < ps[j'])
      && (forall j :: 0 <= j < |ps| ==> ps[j] < |s|)
      && (forall k :: 0 <= k < |s| && k < |keep| ==> (k in ps <==> keep[k]))
      && r == Project(s, ps)
  }

  /** DropColumns keeps every other label and introduces none. */
  lemma DropColumnsKeepsOtherLabels<V>(t: Table<V>, names: seq<string>, r: Table<V>)
    requires Rectangular(t) && DropColumns(t, names) == Ok(r)
    ensures forall n :: n in t.headings && n !in names ==> n in r.headings
    ensures forall n :: n in r.headings ==> n in t.headings
  {
    var ps := Where(KeepMask(t.headings, names));
    forall n | n in r.headings
      ensures n in t.headings
    {
      var i :| 0 <= i < |r.headings| && r.headings[i] == n;
      assert t.headings[ps[i]] == n;
    }
    forall n | n in t.headings && n !in names
      ensures n in r.headings
    {
      var p := IndexOf(t.headings, n);
      assert p in ps;
      var j :| 0 <= j < |ps| && ps[j] == p;
      assert r.headings[j] == n;
    }
  }

  /** Boolean-mask row selection: the flagged rows, in their original order. */
  function FilterRows<V>(t: Table<V>, mask: seq<bool>): (r: Table<V>)
    requires |mask| == |t.rows|
    ensures r.headings == t.headings
    ensures r.rows == Project(t.rows, Where(mask))
    ensures KeptInOrder(r.rows, t.rows, mask)
    ensures Rectangular(t) ==> Rectangular(r)
  {
    SelectIsProjection(t.rows, mask);
    assert forall k :: 0 <= k < |t.rows| ==> (k in Where(mask) <==> mask[k]);
    Table(t.headings, Select(t.rows, mask))
  }

  // ---------------------------------------------------------------------
  // Rows read by label

  /** No label occurs twice, as in the frames the site serves. */
  ghost predicate UniqueLabels(h: seq<string>) {
    forall i, j :: 0 <= i < j < |h| ==> h[i] != h[j]
  }

  /** A label that occurs at most once is counted at most once. */
  lemma {:induction false} UniqueLabelsCount(h: seq<string>, name: string)
    requires UniqueLabels(h)
    ensures multiset(h)[name] <= 1
    ensures name in h ==> multiset(h)[name] == 1
    decreases |h|
  {
    if |h| > 0 {
      var n := |h| - 1;
      assert h == h[..n] + [h[n]];
      UniqueLabelsCount(h[..n], name);
      if h[n] == name {
        assert name !in h[..n];
      }
    }
  }

  /** One row read as a record from label to cell, `row[label]` in pandas:
      under unique labels, each label maps to the cell in its column. */
  function Record<V>(h: seq<string>, row: seq<V>): (m: map<string, V>)
    requires |row| == |h|
    ensures forall n :: n in m <==> n in h
    ensures UniqueLabels(h) ==> forall i :: 0 <= i < |h| ==> m[h[i]] == row[i]
  {
    var m := map n | n in h :: row[IndexOf(h, n)];
    assert UniqueLabels(h) ==> forall i :: 0 <= i < |h| ==> IndexOf(h, h[i]) == i;
    m
  }

  /** Dropping columns from a table with unique labels keeps them unique,
      and each row's record loses exactly the dropped labels. */
  lemma DropColumnsRecords<V>(t: Table<V>, names: seq<string>, r: Table<V>)
    requires Rectangular(t) && UniqueLabels(t.headings) && DropColumns(t, names) == Ok(r)
    ensures UniqueLabels(r.headings)
    ensures forall k :: 0 <= k < |t.rows| ==>
              Record(r.headings, r.rows[k]) == Record(t.headings, t.rows[k]) - (set n | n in names)
  {
    var ps := Where(KeepMask(t.headings, names));
    var gone := set n | n in names;
    DropColumnsKeepsOtherLabels(t, names, r);
    assert forall n :: n in r.headings <==> n in t.headings && n !in gone;
    ProjectRecords(t, ps, gone, r);
  }

  /** The same, for any increasing choice of columns whose labels are those
      outside `gone`. */
  lemma ProjectRecords<V>(t: Table<V>, ps: seq<nat>, gone: set<string>, r: Table<V>)
    requires Rectangular(t) && UniqueLabels(t.headings)
    requires forall j, j' :: 0 <= j < j' < |ps| ==> ps[j] < ps[j']
    requires forall j :: 0 <= j < |ps| ==> ps[j] < |t.headings|
    requires Rectangular(r) && r.headings == Project(t.headings, ps) && |r.rows| == |t.rows|
    requires forall k :: 0 <= k < |t.rows| ==> r.rows[k] == Project(t.rows[k], ps)
    requires forall n :: n in r.headings <==> n in t.headings && n !in gone
    ensures UniqueLabels(r.headings)
    ensures forall k :: 0 <= k < |t.rows| ==> Record(r.headings, r.rows[k]) == Record(t.headings, t.rows[k]) - gone
  {
    assert forall i :: 0 <= i < |ps| ==> r.headings[i] == t.headings[ps[i]];
    forall k | 0 <= k < |t.rows|
      ensures Record(r.headings, r.rows[k]) == Record(t.headings, t.rows[k]) - gone
    {
      ProjectRecord(t.headings, t.rows[k], ps, gone, r.headings, r.rows[k]);
    }
  }

  /** Picking columns at increasing positions `ps` keeps labels unique; when
      the picked labels are exactly those outside `gone`, the picked row's
      record is the old one without `gone`. */
  lemma ProjectRecord<V>(h: seq<string>, row: seq<V>, ps: seq<nat>, gone: set<string>,
                         h': seq<string>, row': seq<V>)
    requires |row| == |h| && UniqueLabels(h)
    requires forall j, j' :: 0 <= j < j' < |ps| ==> ps[j] < ps[j']
    requires |h'| == |ps| && |row'| == |ps|
    requires forall i :: 0 <= i < |ps| ==> ps[i] < |h| && h'[i] == h[ps[i]] && row'[i] == row[ps[i]]
    requires forall n :: n in h' <==> n in h && n !in gone
    ensures UniqueLabels(h')
    ensures Record(h', row') == Record(h, row) - gone
  {
    var got, want := Record(h', row'), Record(h, row) - gone;
    assert got.Keys == want.Keys;
    forall n | n in got
      ensures got[n] == want[n]
    {
      var i :| 0 <= i < |h'| && h'[i] == n;
    }
  }
}
