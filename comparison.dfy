/** The comparison step of the file comparison tool (app.py).

    Two filtered data frames ("main" and "client") are compared on a
    composite key: for each side the selected cells of every row are joined
    with "||" into a synthetic `_merge_key` column, each side keeps the rows
    whose key does not occur among the other side's keys, the synthetic
    column is dropped again, and a six-line summary is recorded.

    Cells are modelled as the strings that `astype(str)` produced.
 */
module FileComparison {

  type Cell = string
  type Row = seq<Cell>

  /** A data frame: its column labels and its rows, one cell per column. */
  datatype Table = Table(columns: seq<string>, rows: seq<Row>)

  datatype SubmitError = NoColumnsSelected

  datatype Result<T> = Ok(value: T) | Err(error: SubmitError)

  /** A value of the summary sheet: a row count or a list of column names. */
  datatype Value = Count(n: nat) | Names(text: string)

  datatype Metric = Metric(name: string, value: Value)

  datatype Comparison = Comparison(clientNotInMain: Table, mainNotInClient: Table, summary: seq<Metric>)

  const MergeKeyName: string := "_merge_key"
  const KeySeparator: string := "||"
  const NameSeparator: string := ", "

  // ---------------------------------------------------------------------------
  // Tables
  // ---------------------------------------------------------------------------

  predicate Distinct(names: seq<string>) {
    forall i, j :: 0 <= i < j < |names| ==> names[i] != names[j]
  }

  /** Column labels are unique (the file readers rename repeated headers) and
      every row has one cell per column. */
  predicate WellFormed(t: Table) {
    Distinct(t.columns) && forall i :: 0 <= i < |t.rows| ==> |t.rows[i]| == |t.columns|
  }

  /** Every selected name is a column of `t` (the selection widget only offers those). */
  predicate Selects(t: Table, cols: seq<string>) {
    forall c :: c in cols ==> c in t.columns
  }

  /** Where `name` stands among the column labels. */
  function Position(names: seq<string>, name: string): (k: nat)
    requires name in names
    ensures k < |names| && names[k] == name
    ensures forall j :: 0 <= j < k ==> names[j] != name
  {
    if names[0] == name then 0 else 1 + Position(names[1..], name)
  }

  /** `s` with its element at `k` taken out. */
  function Remove<T>(s: seq<T>, k: nat): (r: seq<T>)
    requires k < |s|
    ensures |r| == |s| - 1
    ensures forall i :: 0 <= i < |r| ==> r[i] == if i < k then s[i] else s[i + 1]
  {
    s[..k] + s[k + 1..]
  }

  /** Every row has a cell at `k`. */
  predicate Wider(rows: seq<Row>, k: nat) {
    forall i :: 0 <= i < |rows| ==> k < |rows[i]|
  }

  /** `df[name]`: the cells of the column labelled `name`, row by row. */
  function Column(t: Table, name: string): (values: seq<Cell>)
    requires WellFormed(t) && name in t.columns
    ensures |values| == |t.rows|
    ensures forall i :: 0 <= i < |t.rows| ==> values[i] == t.rows[i][Position(t.columns, name)]
    ensures forall i, k :: 0 <= i < |t.rows| && 0 <= k < |t.columns| && t.columns[k] == name ==> values[i] == t.rows[i][k]
  {
    var k := Position(t.columns, name);
    seq(|t.rows|, i requires 0 <= i < |t.rows| => t.rows[i][k])
  }

  /** Every row with its cell at `k` taken out. */
  function RemoveAt(rows: seq<Row>, k: nat): (r: seq<Row>)
    requires Wider(rows, k)
    ensures |r| == |rows|
    ensures forall i :: 0 <= i < |rows| ==> r[i] == Remove(rows[i], k)
  {
    seq(|rows|, i requires 0 <= i < |rows| => Remove(rows[i], k))
  }

  /** Removes the column labelled `name`, keeping the other columns in their order. */
  function DropColumn(t: Table, name: string): (d: Table)
    requires WellFormed(t) && name in t.columns
    ensures WellFormed(d) && name !in d.columns
    ensures |d.rows| == |t.rows|
    ensures exists k :: 0 <= k < |t.columns| && t.columns[k] == name && d.columns == t.columns[..k] + t.columns[k + 1..]
    ensures forall c :: c in d.columns <==> c in t.columns && c != name
    ensures forall c :: c in d.columns ==> Column(d, c) == Column(t, c)
  {
    var k := Position(t.columns, name);
    RemoveLabel(t.columns, k);
    RemoveColumnKeepsOthers(t, k);
    Table(Remove(t.columns, k), RemoveAt(t.rows, k))
  }

  /** Taking out the label at `k` keeps every other label, once each. */
  lemma RemoveLabel(names: seq<string>, k: nat)
    requires Distinct(names) && k < |names|
    ensures Distinct(Remove(names, k)) && names[k] !in Remove(names, k)
    ensures forall c :: c in Remove(names, k) <==> c in names && c != names[k]
  {
    var r := Remove(names, k);
    forall j | 0 <= j < |names| && j != k ensures names[j] in r {
      assert r[if j < k then j else j - 1] == names[j];
    }
  }

  /** Taking out the column at `k` keeps every other column's cells. */
  lemma RemoveColumnKeepsOthers(t: Table, k: nat)
    requires WellFormed(t) && k < |t.columns|
    ensures var d := Table(Remove(t.columns, k), RemoveAt(t.rows, k));
      WellFormed(d) && forall c :: c in d.columns ==> Column(d, c) == Column(t, c)
  {
    RemoveLabel(t.columns, k);
    var d := Table(Remove(t.columns, k), RemoveAt(t.rows, k));
    forall c | c in d.columns ensures Column(d, c) == Column(t, c) {
      var j := Position(d.columns, c);
      assert t.columns[if j < k then j else j + 1] == c;
    }
  }

  /** What the user's table looks like once any column labelled `_merge_key` is gone. */
  function WithoutMergeKey(t: Table): (s: Table)
    requires WellFormed(t)
    ensures WellFormed(s) && MergeKeyName !in s.columns
  {
    if MergeKeyName in t.columns then DropColumn(t, MergeKeyName) else t
  }

  // ---------------------------------------------------------------------------
  // Composite key (app.py:49-50)
  // ---------------------------------------------------------------------------

  /** Python's `sep.join(parts)`. */
  function Join(parts: seq<string>, sep: string): (joined: string)
    ensures |parts| == 0 ==> joined == ""
    ensures |parts| == 1 ==> joined == parts[0]
  {
    if |parts| == 0 then ""
    else if |parts| == 1 then parts[0]
    else parts[0] + sep + Join(parts[1..], sep)
  }

  /** A join of at least one part begins with the first part and ends with the last. */
  lemma {:induction false} JoinEnds(parts: seq<string>, sep: string)
    requires |parts| >= 1
    ensures var joined, first, last := Join(parts, sep), parts[0], parts[|parts| - 1];
      |joined| >= |first| && joined[..|first|] == first
      && |joined| >= |last| && joined[|joined| - |last|..] == last
  {
    if |parts| >= 2 {
      JoinEnds(parts[1..], sep);
    }
  }

  /** Appending one more part puts it at the end, after the separator. */
  lemma {:induction false} JoinSnoc(parts: seq<string>, last: string, sep: string)
    requires |parts| >= 1
    ensures Join(parts + [last], sep) == Join(parts, sep) + sep + last
  {
    if |parts| == 1 {
      assert parts + [last] == [parts[0], last];
      assert [parts[0], last][1..] == [last];
    } else {
      assert (parts + [last])[1..] == parts[1..] + [last];
      JoinSnoc(parts[1..], last, sep);
    }
  }

  predicate NoPipe(s: string) {
    forall i :: 0 <= i < |s| ==> s[i] != '|'
  }

  /** With at least two parts, the joined key begins with the first
      part, then the separator, then the join of the rest. */
  lemma JoinHead(parts: seq<string>)
    requires |parts| >= 2
    ensures var s := Join(parts, KeySeparator);
      |s| >= |parts[0]| + 2 && s[..|parts[0]|] == parts[0] && s[|parts[0]|] == '|'
      && s[|parts[0]| + 2..] == Join(parts[1..], KeySeparator)
  {
  }

  /** Keys built from cells that contain no '|' determine those cells. */
  lemma {:induction false} JoinInjective(p: seq<string>, q: seq<string>)
    requires |p| >= 1 && |q| >= 1
    requires forall i :: 0 <= i < |p| ==> NoPipe(p[i])
    requires forall i :: 0 <= i < |q| ==> NoPipe(q[i])
    requires Join(p, KeySeparator) == Join(q, KeySeparator)
    ensures p == q
  {
    if |p| == 1 && |q| == 1 {
    } else if |p| == 1 {
      JoinHead(q);
      assert false;
    } else if |q| == 1 {
      JoinHead(p);
      assert false;
    } else {
      JoinHead(p);
      JoinHead(q);
      var a, b := |p[0]|, |q[0]|;
      if a < b {
        assert false;
      } else if b < a {
        assert false;
      }
      assert p[0] == q[0];
      JoinInjective(p[1..], q[1..]);
      assert p == [p[0]] + p[1..] && q == [q[0]] + q[1..];
    }
  }

  /** `df[cols]` for one row: the row's cells in the selected columns, in selection order. */
  function Cells(header: seq<string>, row: Row, cols: seq<string>): (cells: seq<Cell>)
    requires Distinct(header) && |row| == |header|
    requires forall c :: c in cols ==> c in header
    ensures |cells| == |cols|
    ensures forall i, k :: 0 <= i < |cols| && 0 <= k < |header| && header[k] == cols[i] ==> cells[i] == row[k]
  {
    seq(|cols|, i requires 0 <= i < |cols| => row[Position(header, cols[i])])
  }

  /** The `_merge_key` of one row: its selected cells joined with "||". */
  function RowKey(header: seq<string>, row: Row, cols: seq<string>): (key: Cell)
    requires Distinct(header) && |row| == |header|
    requires forall c :: c in cols ==> c in header
    ensures cols == [] ==> key == ""
    ensures forall k :: |cols| == 1 && 0 <= k < |header| && header[k] == cols[0] ==> key == row[k]
    ensures forall k :: |cols| >= 1 && 0 <= k < |header| && header[k] == cols[0] ==>
      |key| >= |row[k]| && key[..|row[k]|] == row[k]
    ensures forall k :: |cols| >= 1 && 0 <= k < |header| && header[k] == cols[|cols| - 1] ==>
      |key| >= |row[k]| && key[|key| - |row[k]|..] == row[k]
  {
    var cells := Cells(header, row, cols);
    if |cols| >= 1 then JoinEnds(cells, KeySeparator); Join(cells, KeySeparator)
    else Join(cells, KeySeparator)
  }

  /** A one-column key is the cell itself. */
  lemma RowKeySingleColumn(header: seq<string>, row: Row, c: string, k: nat)
    requires Distinct(header) && |row| == |header|
    requires k < |header| && header[k] == c
    ensures RowKey(header, row, [c]) == row[k]
  {
  }

  /** Selecting one more column appends "||" and that column's cell to the key:
      the key follows the order in which the columns were selected. */
  lemma RowKeyAppendColumn(header: seq<string>, row: Row, cols: seq<string>, c: string, k: nat)
    requires Distinct(header) && |row| == |header|
    requires forall x :: x in cols ==> x in header
    requires |cols| >= 1 && k < |header| && header[k] == c
    ensures RowKey(header, row, cols + [c]) == RowKey(header, row, cols) + KeySeparator + row[k]
  {
    assert Cells(header, row, cols + [c]) == Cells(header, row, cols) + [row[k]];
    JoinSnoc(Cells(header, row, cols), row[k], KeySeparator);
  }

  /** The separator is not escaped: two different rows can share a key. */
  lemma KeyCollision()
    ensures var header := ["a", "b"];
      RowKey(header, ["x||y", "z"], header) == RowKey(header, ["x", "y||z"], header) == "x||y||z"
  {
  }

  /** When no selected cell contains '|', equal keys mean equal selected cells, and back. */
  lemma RowKeyInjectiveWithoutPipes(header: seq<string>, r1: Row, r2: Row, cols: seq<string>)
    requires Distinct(header) && |r1| == |header| && |r2| == |header|
    requires forall c :: c in cols ==> c in header
    requires |cols| >= 1
    requires forall i :: 0 <= i < |cols| ==> NoPipe(Cells(header, r1, cols)[i]) && NoPipe(Cells(header, r2, cols)[i])
    ensures RowKey(header, r1, cols) == RowKey(header, r2, cols) <==> Cells(header, r1, cols) == Cells(header, r2, cols)
  {
    if RowKey(header, r1, cols) == RowKey(header, r2, cols) {
      JoinInjective(Cells(header, r1, cols), Cells(header, r2, cols));
    }
  }

  /** The key of every row, in row order. */
  function Keys(t: Table, cols: seq<string>): (keys: seq<Cell>)
    requires WellFormed(t) && Selects(t, cols)
    ensures |keys| == |t.rows|
    ensures KeyedByRow(t.rows, keys)
  {
    seq(|t.rows|, i requires 0 <= i < |t.rows| => RowKey(t.columns, t.rows[i], cols))
  }

  /** The working copy with a `_merge_key` column holding each row's key. A
      column of the table's own with that label is overwritten where it stands;
      otherwise the new column goes last. */
  function WithMergeKey(t: Table, cols: seq<string>): (w: Table)
    requires WellFormed(t) && Selects(t, cols)
    ensures WellFormed(w) && MergeKeyName in w.columns
    ensures |w.rows| == |t.rows|
    ensures forall c :: c in w.columns <==> c in t.columns || c == MergeKeyName
    ensures Column(w, MergeKeyName) == Keys(t, cols)
  {
    var keys := Keys(t, cols);
    if MergeKeyName in t.columns then
      var k := Position(t.columns, MergeKeyName);
      var w := Table(t.columns, seq(|t.rows|, i requires 0 <= i < |t.rows| => t.rows[i][k := keys[i]]));
      assert forall i :: 0 <= i < |w.rows| ==> w.rows[i] == t.rows[i][k := keys[i]];
      w
    else
      var w := Table(t.columns + [MergeKeyName], seq(|t.rows|, i requires 0 <= i < |t.rows| => t.rows[i] + [keys[i]]));
      assert forall i :: 0 <= i < |w.rows| ==> w.rows[i] == t.rows[i] + [keys[i]];
      assert Position(w.columns, MergeKeyName) == |t.columns|;
      w
  }

  /** Dropping the synthetic column undoes adding it. */
  lemma DropUndoesMergeKey(t: Table, cols: seq<string>)
    requires WellFormed(t) && Selects(t, cols)
    ensures DropColumn(WithMergeKey(t, cols), MergeKeyName) == WithoutMergeKey(t)
    ensures MergeKeyName !in t.columns ==> DropColumn(WithMergeKey(t, cols), MergeKeyName) == t
  {
    if MergeKeyName in t.columns {
      DropUndoesOverwrite(t, cols);
    } else {
      DropUndoesAppend(t, cols);
    }
  }

  lemma DropUndoesOverwrite(t: Table, cols: seq<string>)
    requires WellFormed(t) && Selects(t, cols) && MergeKeyName in t.columns
    ensures DropColumn(WithMergeKey(t, cols), MergeKeyName) == DropColumn(t, MergeKeyName)
  {
  }

  lemma DropUndoesAppend(t: Table, cols: seq<string>)
    requires WellFormed(t) && Selects(t, cols) && MergeKeyName !in t.columns
    ensures DropColumn(WithMergeKey(t, cols), MergeKeyName) == t
  {
    var w := WithMergeKey(t, cols);
    var keys := Keys(t, cols);
    var n := |t.columns|;
    assert w.columns == t.columns + [MergeKeyName];
    assert Position(w.columns, MergeKeyName) == n;
    assert Remove(w.columns, n) == t.columns;
    var a := RemoveAt(w.rows, n);
    forall i | 0 <= i < |t.rows| ensures a[i] == t.rows[i] {
      assert w.rows[i] == t.rows[i] + [keys[i]];
    }
    assert a == t.rows;
  }

  // ---------------------------------------------------------------------------
  // Anti-join (app.py:53-54)
  // ---------------------------------------------------------------------------

  /** The row mask of the anti-join: the rows whose key does not occur in `other`,
      in their original order. */
  function KeepUnmatched(rows: seq<Row>, keys: seq<Cell>, other: seq<Cell>): (kept: seq<Row>)
    requires |keys| == |rows|
    ensures |kept| <= |rows|
    ensures forall row :: row in kept ==> row in rows
  {
    if |rows| == 0 then []
    else (if keys[0] in other then [] else [rows[0]]) + KeepUnmatched(rows[1..], keys[1..], other)
  }

  /** Filtering the rows of a table leaves it well formed. */
  lemma KeepUnmatchedWellFormed(t: Table, keys: seq<Cell>, other: seq<Cell>)
    requires WellFormed(t) && |keys| == |t.rows|
    ensures WellFormed(Table(t.columns, KeepUnmatched(t.rows, keys, other)))
  {
    var kept := KeepUnmatched(t.rows, keys, other);
    forall i | 0 <= i < |kept| ensures |kept[i]| == |t.columns| {
      assert kept[i] in t.rows;
    }
  }

  lemma KeepUnmatchedWider(rows: seq<Row>, keys: seq<Cell>, other: seq<Cell>, k: nat)
    requires |keys| == |rows| && Wider(rows, k)
    ensures Wider(KeepUnmatched(rows, keys, other), k)
  {
  }

  /** Keeps the rows of a keyed table whose `_merge_key` value is not among
      `other`, then removes the `_merge_key` column. */
  function AntiJoin(w: Table, other: seq<Cell>): (r: Table)
    requires WellFormed(w) && MergeKeyName in w.columns
    ensures WellFormed(r) && MergeKeyName !in r.columns && |r.rows| <= |w.rows|
    ensures var s := DropColumn(w, MergeKeyName);
      r == Table(s.columns, KeepUnmatched(s.rows, Column(w, MergeKeyName), other))
  {
    var keys := Column(w, MergeKeyName);
    var k := Position(w.columns, MergeKeyName);
    KeepUnmatchedWellFormed(w, keys, other);
    KeepUnmatchedRemoveAt(w.rows, keys, other, k);
    DropColumn(Table(w.columns, KeepUnmatched(w.rows, keys, other)), MergeKeyName)
  }

  /** Filtering rows and then taking a column out equals taking the column out first. */
  lemma {:induction false} KeepUnmatchedRemoveAt(rows: seq<Row>, keys: seq<Cell>, other: seq<Cell>, k: nat)
    requires |keys| == |rows| && Wider(rows, k)
    ensures Wider(KeepUnmatched(rows, keys, other), k)
    ensures RemoveAt(KeepUnmatched(rows, keys, other), k) == KeepUnmatched(RemoveAt(rows, k), keys, other)
  {
    KeepUnmatchedWider(rows, keys, other, k);
    if |rows| > 0 {
      var tail := rows[1..];
      assert Wider(tail, k);
      KeepUnmatchedRemoveAt(tail, keys[1..], other, k);
      var head := if keys[0] in other then [] else [rows[0]];
      var rest := KeepUnmatched(tail, keys[1..], other);
      assert KeepUnmatched(rows, keys, other) == head + rest;
      RemoveAtAppend(head, rest, k);
      assert RemoveAt(rows, k)[1..] == RemoveAt(tail, k);
    }
  }

  /** Taking a cell out of every row commutes with concatenating row lists. */
  lemma RemoveAtAppend(a: seq<Row>, b: seq<Row>, k: nat)
    requires Wider(a, k) && Wider(b, k)
    ensures Wider(a + b, k) && RemoveAt(a + b, k) == RemoveAt(a, k) + RemoveAt(b, k)
  {
    assert Wider(a + b, k) by {
      forall i | 0 <= i < |a + b| ensures k < |(a + b)[i]| {
        if i >= |a| { assert (a + b)[i] == b[i - |a|]; }
      }
    }
  }

  /** The anti-join of a table carrying `_merge_key` keeps, with the synthetic
      column gone, exactly the rows whose key is absent from `other`. */
  lemma AntiJoinOfKeyedTable(t: Table, cols: seq<string>, other: seq<Cell>)
    requires WellFormed(t) && Selects(t, cols)
    ensures var s := WithoutMergeKey(t);
      AntiJoin(WithMergeKey(t, cols), other) == Table(s.columns, KeepUnmatched(s.rows, Keys(t, cols), other))
  {
    var w := WithMergeKey(t, cols);
    var k := Position(w.columns, MergeKeyName);
    var keys := Keys(t, cols);
    var kept := Table(w.columns, KeepUnmatched(w.rows, keys, other));
    KeepUnmatchedWellFormed(w, keys, other);
    assert DropColumn(kept, MergeKeyName).rows == RemoveAt(kept.rows, k);
    KeepUnmatchedRemoveAt(w.rows, keys, other, k);
    DropUndoesMergeKey(t, cols);
    assert DropColumn(w, MergeKeyName).rows == RemoveAt(w.rows, k);
  }

  // ---------------------------------------------------------------------------
  // Properties of the row filter
  // ---------------------------------------------------------------------------

  /** `a` is `b` with some rows left out, the rest in their original order. */
  predicate IsSubsequence(a: seq<Row>, b: seq<Row>)
    decreases |b|
  {
    if a == [] then true
    else if b == [] then false
    else (a[0] == b[0] && IsSubsequence(a[1..], b[1..])) || IsSubsequence(a, b[1..])
  }

  lemma {:induction false} KeepUnmatchedIsSubsequence(rows: seq<Row>, keys: seq<Cell>, other: seq<Cell>)
    requires |keys| == |rows|
    ensures IsSubsequence(KeepUnmatched(rows, keys, other), rows)
  {
    if |rows| > 0 {
      KeepUnmatchedIsSubsequence(rows[1..], keys[1..], other);
      var rest := KeepUnmatched(rows[1..], keys[1..], other);
      if keys[0] !in other {
        assert KeepUnmatched(rows, keys, other) == [rows[0]] + rest;
        assert ([rows[0]] + rest)[1..] == rest;
      } else {
        assert KeepUnmatched(rows, keys, other) == rest;
      }
    }
  }

  /** Equal rows have equal keys. */
  predicate KeyedByRow(rows: seq<Row>, keys: seq<Cell>)
    requires |keys| == |rows|
  {
    forall i, j :: 0 <= i < |rows| && 0 <= j < |rows| && rows[i] == rows[j] ==> keys[i] == keys[j]
  }

  /** A row whose key is absent keeps every one of its copies; a row whose key
      is present keeps none. */
  lemma {:induction false} KeepUnmatchedMultiplicity(rows: seq<Row>, keys: seq<Cell>, other: seq<Cell>, i: nat)
    requires |keys| == |rows| && KeyedByRow(rows, keys) && i < |rows|
    ensures multiset(KeepUnmatched(rows, keys, other))[rows[i]] == if keys[i] in other then 0 else multiset(rows)[rows[i]]
  {
    var x := rows[i];
    var tail, tailKeys := rows[1..], keys[1..];
    var rest := KeepUnmatched(tail, tailKeys, other);
    var head := if keys[0] in other then [] else [rows[0]];
    assert rows == [rows[0]] + tail;
    assert multiset(rows)[x] == multiset([rows[0]])[x] + multiset(tail)[x];
    assert multiset(KeepUnmatched(rows, keys, other))[x] == multiset(head)[x] + multiset(rest)[x];
    if x in tail {
      var j :| 0 <= j < |tail| && tail[j] == x;
      assert rows[j + 1] == x;
      KeyedByRowTail(rows, keys);
      KeepUnmatchedMultiplicity(tail, tailKeys, other, j);
    } else {
      assert multiset(rest)[x] == 0;
    }
  }

  /** Dropping the first row keeps equal rows with equal keys. */
  lemma KeyedByRowTail(rows: seq<Row>, keys: seq<Cell>)
    requires |keys| == |rows| >= 1 && KeyedByRow(rows, keys)
    ensures KeyedByRow(rows[1..], keys[1..])
  {
    var tail, tailKeys := rows[1..], keys[1..];
    forall a, b | 0 <= a < |tail| && 0 <= b < |tail| && tail[a] == tail[b] ensures tailKeys[a] == tailKeys[b] {
      assert rows[a + 1] == rows[b + 1];
    }
  }

  /** With equal rows keyed alike, a row survives the filter exactly when its key is absent. */
  lemma KeepUnmatchedMembership(rows: seq<Row>, keys: seq<Cell>, other: seq<Cell>)
    requires |keys| == |rows| && KeyedByRow(rows, keys)
    ensures forall i :: 0 <= i < |rows| ==> (rows[i] in KeepUnmatched(rows, keys, other) <==> keys[i] !in other)
  {
    forall i | 0 <= i < |rows|
      ensures rows[i] in KeepUnmatched(rows, keys, other) <==> keys[i] !in other
    {
      KeepUnmatchedMultiplicity(rows, keys, other, i);
    }
  }

  lemma {:induction false} KeepUnmatchedAllMatched(rows: seq<Row>, keys: seq<Cell>, other: seq<Cell>)
    requires |keys| == |rows|
    requires forall i :: 0 <= i < |keys| ==> keys[i] in other
    ensures KeepUnmatched(rows, keys, other) == []
  {
    if |rows| > 0 {
      KeepUnmatchedAllMatched(rows[1..], keys[1..], other);
    }
  }

  lemma {:induction false} KeepUnmatchedNoneMatched(rows: seq<Row>, keys: seq<Cell>, other: seq<Cell>)
    requires |keys| == |rows|
    requires forall i :: 0 <= i < |keys| ==> keys[i] !in other
    ensures KeepUnmatched(rows, keys, other) == rows
  {
    if |rows| > 0 {
      KeepUnmatchedNoneMatched(rows[1..], keys[1..], other);
      assert rows == [rows[0]] + rows[1..];
    }
  }

  // ---------------------------------------------------------------------------
  // Submit (app.py:41-78)
  // ---------------------------------------------------------------------------

  /** The summary sheet's six metrics (app.py:61-78). */
  function Summary(mainWork: Table, clientWork: Table, clientNotInMain: Table, mainNotInClient: Table,
                   mainCols: seq<string>, clientCols: seq<string>): (metrics: seq<Metric>)
    ensures |metrics| == 6
    ensures forall i :: 0 <= i < 4 ==> metrics[i].value.Count?
    ensures metrics[4].value.Names? && metrics[5].value.Names?
  {
    [ Metric("Filtered rows in Main file", Count(|mainWork.rows|)),
      Metric("Filtered rows in Client file", Count(|clientWork.rows|)),
      Metric("Rows in Client not in Main", Count(|clientNotInMain.rows|)),
      Metric("Rows in Main not in Client", Count(|mainNotInClient.rows|)),
      Metric("Columns used for matching (Main)", Names(Join(mainCols, NameSeparator))),
      Metric("Columns used for matching (Client)", Names(Join(clientCols, NameSeparator))) ]
  }

  /** Pressing "Submit" on the filtered tables with the chosen key columns. */
  function Submit(mainFiltered: Table, clientFiltered: Table, mainCols: seq<string>, clientCols: seq<string>)
    : (r: Result<Comparison>)
    requires WellFormed(mainFiltered) && WellFormed(clientFiltered)
    requires Selects(mainFiltered, mainCols) && Selects(clientFiltered, clientCols)
    ensures r.Err? <==> mainCols == [] || clientCols == []
    ensures r.Err? ==> r.error == NoColumnsSelected
    ensures r.Ok? ==> |r.value.clientNotInMain.rows| <= |clientFiltered.rows|
    ensures r.Ok? ==> |r.value.mainNotInClient.rows| <= |mainFiltered.rows|
  {
    if |mainCols| == 0 || |clientCols| == 0 then
      Err(NoColumnsSelected)
    else
      var mainWork := WithMergeKey(mainFiltered, mainCols);
      var clientWork := WithMergeKey(clientFiltered, clientCols);
      var clientNotInMain := AntiJoin(clientWork, Column(mainWork, MergeKeyName));
      var mainNotInClient := AntiJoin(mainWork, Column(clientWork, MergeKeyName));
      Ok(Comparison(clientNotInMain, mainNotInClient,
                    Summary(mainWork, clientWork, clientNotInMain, mainNotInClient, mainCols, clientCols)))
  }

  /** The preconditions of Submit, and a non-empty selection on both sides. */
  predicate Submittable(main: Table, client: Table, mainCols: seq<string>, clientCols: seq<string>) {
    WellFormed(main) && WellFormed(client) && Selects(main, mainCols) && Selects(client, clientCols)
    && mainCols != [] && clientCols != []
  }

  /** Each result is its own side's rows whose key is absent from the other
      side's keys, in order, with any `_merge_key` column removed; each result
      carries its own side's columns. */
  lemma SubmitComputesAntiJoins(main: Table, client: Table, mainCols: seq<string>, clientCols: seq<string>)
    requires Submittable(main, client, mainCols, clientCols)
    ensures var r := Submit(main, client, mainCols, clientCols);
      var m, c := WithoutMergeKey(main), WithoutMergeKey(client);
      r.Ok?
      && r.value.clientNotInMain == Table(c.columns, KeepUnmatched(c.rows, Keys(client, clientCols), Keys(main, mainCols)))
      && r.value.mainNotInClient == Table(m.columns, KeepUnmatched(m.rows, Keys(main, mainCols), Keys(client, clientCols)))
  {
    AntiJoinOfKeyedTable(client, clientCols, Keys(main, mainCols));
    AntiJoinOfKeyedTable(main, mainCols, Keys(client, clientCols));
  }

  /** For tables without a column of their own named `_merge_key`: each result
      has exactly its own side's columns, and is its own side's rows filtered by key. */
  lemma SubmitOnPlainTables(main: Table, client: Table, mainCols: seq<string>, clientCols: seq<string>)
    requires Submittable(main, client, mainCols, clientCols)
    requires MergeKeyName !in main.columns && MergeKeyName !in client.columns
    ensures var r := Submit(main, client, mainCols, clientCols);
      r.Ok?
      && r.value.clientNotInMain == Table(client.columns, KeepUnmatched(client.rows, Keys(client, clientCols), Keys(main, mainCols)))
      && r.value.mainNotInClient == Table(main.columns, KeepUnmatched(main.rows, Keys(main, mainCols), Keys(client, clientCols)))
  {
    SubmitComputesAntiJoins(main, client, mainCols, clientCols);
  }

  /** A client row is in "client not in main" exactly when its key is not a key
      of any main row, and the other way round for "main not in client". */
  lemma MembershipIsKeyAbsence(main: Table, client: Table, mainCols: seq<string>, clientCols: seq<string>)
    requires Submittable(main, client, mainCols, clientCols)
    requires MergeKeyName !in main.columns && MergeKeyName !in client.columns
    ensures var r := Submit(main, client, mainCols, clientCols).value;
      (forall i :: 0 <= i < |client.rows| ==>
         (client.rows[i] in r.clientNotInMain.rows <==> Keys(client, clientCols)[i] !in Keys(main, mainCols)))
      && (forall i :: 0 <= i < |main.rows| ==>
         (main.rows[i] in r.mainNotInClient.rows <==> Keys(main, mainCols)[i] !in Keys(client, clientCols)))
      && (forall row :: row in r.clientNotInMain.rows ==> row in client.rows)
      && (forall row :: row in r.mainNotInClient.rows ==> row in main.rows)
  {
    SubmitOnPlainTables(main, client, mainCols, clientCols);
    var mk, ck := Keys(main, mainCols), Keys(client, clientCols);
    KeepUnmatchedMembership(client.rows, ck, mk);
    KeepUnmatchedMembership(main.rows, mk, ck);
  }

  /** Each result is a subsequence of its own input; a row whose key is absent
      is kept as many times as it occurs, a row whose key is present not at all. */
  lemma ResultsKeepOrderAndDuplicates(main: Table, client: Table, mainCols: seq<string>, clientCols: seq<string>)
    requires Submittable(main, client, mainCols, clientCols)
    requires MergeKeyName !in main.columns && MergeKeyName !in client.columns
    ensures var r := Submit(main, client, mainCols, clientCols).value;
      var mk, ck := Keys(main, mainCols), Keys(client, clientCols);
      IsSubsequence(r.clientNotInMain.rows, client.rows)
      && IsSubsequence(r.mainNotInClient.rows, main.rows)
      && (forall i :: 0 <= i < |client.rows| ==>
            multiset(r.clientNotInMain.rows)[client.rows[i]] == if ck[i] in mk then 0 else multiset(client.rows)[client.rows[i]])
      && (forall i :: 0 <= i < |main.rows| ==>
            multiset(r.mainNotInClient.rows)[main.rows[i]] == if mk[i] in ck then 0 else multiset(main.rows)[main.rows[i]])
  {
    SubmitOnPlainTables(main, client, mainCols, clientCols);
    var mk, ck := Keys(main, mainCols), Keys(client, clientCols);
    KeepUnmatchedIsSubsequence(client.rows, ck, mk);
    KeepUnmatchedIsSubsequence(main.rows, mk, ck);
    forall i | 0 <= i < |client.rows|
      ensures multiset(KeepUnmatched(client.rows, ck, mk))[client.rows[i]]
              == if ck[i] in mk then 0 else multiset(client.rows)[client.rows[i]]
    {
      KeepUnmatchedMultiplicity(client.rows, ck, mk, i);
    }
    forall i | 0 <= i < |main.rows|
      ensures multiset(KeepUnmatched(main.rows, mk, ck))[main.rows[i]]
              == if mk[i] in ck then 0 else multiset(main.rows)[main.rows[i]]
    {
      KeepUnmatchedMultiplicity(main.rows, mk, ck, i);
    }
  }

  /** Comparing a table with itself on the same columns finds no differences. */
  lemma IdenticalInputsGiveEmptyResults(t: Table, cols: seq<string>)
    requires Submittable(t, t, cols, cols)
    ensures var r := Submit(t, t, cols, cols).value;
      r.clientNotInMain.rows == [] && r.mainNotInClient.rows == []
  {
    SubmitComputesAntiJoins(t, t, cols, cols);
    var keys := Keys(t, cols);
    var s := WithoutMergeKey(t);
    assert |s.rows| == |keys|;
    KeepUnmatchedAllMatched(s.rows, keys, keys);
  }

  /** When no client key is a main key, each result is its whole input. */
  lemma DisjointKeysGiveWholeInputs(main: Table, client: Table, mainCols: seq<string>, clientCols: seq<string>)
    requires Submittable(main, client, mainCols, clientCols)
    requires MergeKeyName !in main.columns && MergeKeyName !in client.columns
    requires forall key :: key in Keys(client, clientCols) ==> key !in Keys(main, mainCols)
    ensures var r := Submit(main, client, mainCols, clientCols).value;
      r.clientNotInMain == client && r.mainNotInClient == main
  {
    SubmitOnPlainTables(main, client, mainCols, clientCols);
    var mk, ck := Keys(main, mainCols), Keys(client, clientCols);
    KeepUnmatchedNoneMatched(client.rows, ck, mk);
    KeepUnmatchedNoneMatched(main.rows, mk, ck);
  }

  /** The summary reports the filtered input sizes, the two result sizes and the
      selected column names joined with ", " in selection order. */
  lemma SummaryReportsResults(main: Table, client: Table, mainCols: seq<string>, clientCols: seq<string>)
    requires Submittable(main, client, mainCols, clientCols)
    ensures var r := Submit(main, client, mainCols, clientCols).value;
      |r.summary| == 6
      && r.summary[0].value == Count(|main.rows|)
      && r.summary[1].value == Count(|client.rows|)
      && r.summary[2].value == Count(|r.clientNotInMain.rows|)
      && r.summary[3].value == Count(|r.mainNotInClient.rows|)
      && r.summary[2].value.n <= r.summary[1].value.n
      && r.summary[3].value.n <= r.summary[0].value.n
      && r.summary[4].value == Names(Join(mainCols, NameSeparator))
      && r.summary[5].value == Names(Join(clientCols, NameSeparator))
  {
    var mainWork, clientWork := WithMergeKey(main, mainCols), WithMergeKey(client, clientCols);
    var clientNotInMain := AntiJoin(clientWork, Column(mainWork, MergeKeyName));
    var mainNotInClient := AntiJoin(mainWork, Column(clientWork, MergeKeyName));
    assert Submit(main, client, mainCols, clientCols).value.summary
      == Summary(mainWork, clientWork, clientNotInMain, mainNotInClient, mainCols, clientCols);
  }
}
