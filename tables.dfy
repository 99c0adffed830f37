/** The table helpers: a pandas frame as an ordered sequence of named columns for the column
    operations (`rearrange_cols`, `add_dashes`), and a time-series matrix as an ordered sequence of
    rows keyed by variant code for the row operations of `prepare_TS` and `prepare_top_n`. */
module Tables {
  import opened Outcomes
  import Regions

  // ---------------------------------------------------------------- column view

  /** A cell of a frame: text, a number, or a missing value (NaN). */
  datatype Cell = Text(text: string) | Number(x: real) | Missing

  datatype Column = Column(name: string, cells: seq<Cell>)

  /** A frame with `rows` rows; every column holds one cell per row. */
  datatype Frame = Frame(rows: nat, columns: seq<Column>) {
    predicate Valid() {
      forall k :: 0 <= k < |columns| ==> |columns[k].cells| == rows
    }
  }

  /** `list(df.columns)`. */
  function Names(columns: seq<Column>): (names: seq<string>)
    ensures |names| == |columns|
    ensures forall k :: 0 <= k < |columns| ==> names[k] == columns[k].name
  {
    if columns == [] then [] else [columns[0].name] + Names(columns[1..])
  }

  predicate Distinct<T(==)>(s: seq<T>) {
    forall i, j :: 0 <= i < j < |s| ==> s[i] != s[j]
  }

  /** The index of the first column called `name`. */
  function FindColumn(columns: seq<Column>, name: string): (k: Option<nat>)
    ensures k.Some? <==> name in Names(columns)
    ensures k.Some? ==>
      (k.value < |columns| && columns[k.value].name == name
       && forall j :: 0 <= j < k.value ==> columns[j].name != name)
  {
    if columns == [] then None
    else if columns[0].name == name then Some(0)
    else match FindColumn(columns[1..], name)
      case None => None
      case Some(k) => Some(k + 1)
  }

  /** `[c for c in names if c not in firstcols]`. */
  function Remaining(names: seq<string>, firstcols: seq<string>): (rest: seq<string>)
    ensures forall x :: x in rest <==> x in names && x !in firstcols
    ensures Distinct(names) ==> Distinct(rest)
  {
    if names == [] then []
    else
      var tail := Remaining(names[1..], firstcols);
      if names[0] in firstcols then tail else [names[0]] + tail
  }

  /** A single name is kept exactly when it was not chosen. */
  lemma RemainingOne(x: string, firstcols: seq<string>)
    ensures Remaining([x], firstcols) == if x in firstcols then [] else [x]
  {
    assert [x][1..] == [];
  }

  /** The names left over keep their original order: the leftovers of a concatenation are the
      leftovers of its parts, one after the other. */
  lemma {:induction false} RemainingConcat(a: seq<string>, b: seq<string>, firstcols: seq<string>)
    ensures Remaining(a + b, firstcols) == Remaining(a, firstcols) + Remaining(b, firstcols)
  {
    if a != [] {
      assert (a + b)[1..] == a[1..] + b;
      RemainingConcat(a[1..], b, firstcols);
      var head: seq<string> := if a[0] in firstcols then [] else [a[0]];
      Associative(head, Remaining(a[1..], firstcols), Remaining(b, firstcols));
    } else {
      assert a + b == b;
    }
  }

  /** The error of selecting a column the frame does not have (pandas' KeyError). */
  datatype MissingColumn = MissingColumn(name: string)

  /** The first of `names` that is not among `present`. */
  function FirstAbsent(names: seq<string>, present: seq<string>): (k: nat)
    requires exists k :: 0 <= k < |names| && names[k] !in present
    ensures k < |names| && names[k] !in present
    ensures forall j :: 0 <= j < k ==> names[j] in present
  {
    if names[0] !in present then 0
    else
      assert exists k :: 0 <= k < |names[1..]| && names[1..][k] !in present by {
        var k :| 0 <= k < |names| && names[k] !in present;
        assert names[1..][k - 1] == names[k];
      }
      1 + FirstAbsent(names[1..], present)
  }

  /** `df[names]`: the first column of each name, in the order asked for; the first name the
      frame lacks is the error. */
  function Select(columns: seq<Column>, names: seq<string>): (r: Result<seq<Column>, MissingColumn>)
    ensures r.Success? <==> forall k :: 0 <= k < |names| ==> names[k] in Names(columns)
    ensures r.Success? ==> Names(r.value) == names
    ensures r.Success? ==> |r.value| == |names| && forall k :: 0 <= k < |names| ==>
      r.value[k] == columns[FindColumn(columns, names[k]).value]
    ensures r.Failure? ==> r.error.name in names && r.error.name !in Names(columns)
  {
    if forall k :: 0 <= k < |names| ==> names[k] in Names(columns) then
      var picked := seq(|names|, k requires 0 <= k < |names| => columns[FindColumn(columns, names[k]).value]);
      assert Names(picked) == names;
      Success(picked)
    else
      Failure(MissingColumn(names[FirstAbsent(names, Names(columns))]))
  }

  /** `rearrange_cols`: the chosen columns first, in the order given, then every other column in
      its original order; asking for a column the frame lacks is an error. */
  function RearrangeCols(frame: Frame, firstcols: seq<string>): (r: Result<Frame, MissingColumn>)
    ensures r.Success? <==> forall k :: 0 <= k < |firstcols| ==> firstcols[k] in Names(frame.columns)
    ensures r.Success? ==> r.value.rows == frame.rows
    ensures r.Success? ==> Names(r.value.columns) == firstcols + Remaining(Names(frame.columns), firstcols)
    ensures r.Success? ==> forall k :: 0 <= k < |r.value.columns| ==> r.value.columns[k] in frame.columns
    ensures r.Success? && frame.Valid() ==> r.value.Valid()
  {
    var present := Names(frame.columns);
    var rest := Remaining(present, firstcols);
    OrderPresent(present, firstcols, rest);
    match Select(frame.columns, firstcols + rest)
    case Failure(e) => Failure(e)
    case Success(columns) =>
      SelectedMembers(frame.columns, firstcols + rest, columns);
      Success(Frame(frame.rows, columns))
  }

  /** Names that are all present after the chosen ones leave the chosen ones to decide. */
  lemma OrderPresent(present: seq<string>, firstcols: seq<string>, rest: seq<string>)
    requires forall x :: x in rest ==> x in present
    ensures (forall k :: 0 <= k < |firstcols + rest| ==> (firstcols + rest)[k] in present)
      <==> (forall k :: 0 <= k < |firstcols| ==> firstcols[k] in present)
  {
    var names := firstcols + rest;
    assert forall k :: |firstcols| <= k < |names| ==> names[k] == rest[k - |firstcols|];
    assert forall k :: 0 <= k < |firstcols| ==> names[k] == firstcols[k];
  }

  /** The columns a selection picks are columns of the frame. */
  lemma SelectedMembers(columns: seq<Column>, names: seq<string>, picked: seq<Column>)
    requires |picked| == |names|
    requires forall k :: 0 <= k < |names| ==> names[k] in Names(columns)
    requires forall k :: 0 <= k < |names| ==> picked[k] == columns[FindColumn(columns, names[k]).value]
    ensures forall k :: 0 <= k < |picked| ==> picked[k] in columns
  {
  }

  /** Removing element `j` of a duplicate-free sequence removes exactly that value. */
  lemma RemoveAt<T>(b: seq<T>, j: nat)
    requires Distinct(b) && j < |b|
    ensures Distinct(b[..j] + b[j + 1..])
    ensures forall y :: y in b[..j] + b[j + 1..] <==> y in b && y != b[j]
    ensures multiset(b) == multiset{b[j]} + multiset(b[..j] + b[j + 1..])
  {
    var b' := b[..j] + b[j + 1..];
    assert forall i :: 0 <= i < |b'| ==> b'[i] == if i < j then b[i] else b[i + 1];
    forall y | y in b ensures y in b' || y == b[j] {
      var i :| 0 <= i < |b| && b[i] == y;
      if i < j { assert b'[i] == y; } else if i > j { assert b'[i - 1] == y; }
    }
    assert b == b[..j] + [b[j]] + b[j + 1..];
  }

  /** Two duplicate-free sequences with the same elements are permutations of each other. */
  lemma {:induction false} DistinctSameSet<T>(a: seq<T>, b: seq<T>)
    requires Distinct(a) && Distinct(b)
    requires forall x :: x in a <==> x in b
    ensures multiset(a) == multiset(b)
    decreases |a|
  {
    if a == [] {
      NoElements(b);
    } else {
      var x := a[0];
      assert x in a;
      var j :| 0 <= j < |b| && b[j] == x;
      var b' := b[..j] + b[j + 1..];
      SameSetAfterRemoval(a, b, j);
      DistinctSameSet(a[1..], b');
      RemoveAt(b, j);
      assert a == [x] + a[1..];
    }
  }

  lemma NoElements<T>(b: seq<T>)
    requires forall x :: x !in b
    ensures multiset(b) == multiset{}
  {
    forall y ensures multiset(b)[y] == 0 {
      assert y !in b;
    }
  }

  lemma SameSetAfterRemoval<T>(a: seq<T>, b: seq<T>, j: nat)
    requires Distinct(a) && Distinct(b) && a != [] && j < |b| && b[j] == a[0]
    requires forall x :: x in a <==> x in b
    ensures Distinct(a[1..]) && Distinct(b[..j] + b[j + 1..])
    ensures forall y :: y in a[1..] <==> y in b[..j] + b[j + 1..]
  {
    RemoveAt(b, j);
    RemoveAt(a, 0);
    assert a[..0] + a[1..] == a[1..];
    forall y ensures y in a[1..] <==> y in b[..j] + b[j + 1..] {
      assert y in a[1..] <==> y in a && y != a[0];
      assert y in b[..j] + b[j + 1..] <==> y in b && y != b[j];
    }
  }

  /** The chosen names followed by the remaining ones repeat no name. */
  lemma OrderDistinct(names: seq<string>, firstcols: seq<string>)
    requires Distinct(names) && Distinct(firstcols)
    ensures Distinct(firstcols + Remaining(names, firstcols))
  {
    var rest := Remaining(names, firstcols);
    var order := firstcols + rest;
    forall i, k | 0 <= i < k < |order| ensures order[i] != order[k] {
      if k < |firstcols| {
      } else if i >= |firstcols| {
        assert order[i] == rest[i - |firstcols|] && order[k] == rest[k - |firstcols|];
      } else {
        assert order[k] in rest;
      }
    }
  }

  /** Columns with distinct names are distinct columns. */
  lemma DistinctByName(columns: seq<Column>)
    requires Distinct(Names(columns))
    ensures Distinct(columns)
  {
    forall i, k | 0 <= i < k < |columns| ensures columns[i] != columns[k] {
      assert Names(columns)[i] == columns[i].name && Names(columns)[k] == columns[k].name;
    }
  }

  /** Every column of the frame is picked by the name order when that order covers every name. */
  lemma SelectCovers(columns: seq<Column>, order: seq<string>, out: seq<Column>)
    requires Distinct(Names(columns))
    requires forall x :: x in order <==> x in Names(columns)
    requires |out| == |order|
    requires forall k :: 0 <= k < |order| ==> out[k] == columns[FindColumn(columns, order[k]).value]
    ensures forall c :: c in out <==> c in columns
  {
    var names := Names(columns);
    forall c | c in columns ensures c in out {
      var i :| 0 <= i < |columns| && columns[i] == c;
      assert names[i] == c.name;
      assert c.name in names;
      assert c.name in order;
      var k :| 0 <= k < |order| && order[k] == c.name;
      var f := FindColumn(columns, c.name).value;
      assert names[f] == c.name && names[f] == names[i];
      assert columns[i].name == c.name;
      assert f == i;
      assert out[k] == columns[f];
    }
    forall c | c in out ensures c in columns {
      var k :| 0 <= k < |out| && out[k] == c;
      assert order[k] in names;
    }
  }

  /** With distinct column names and distinct chosen columns, the reordered frame holds every
      column of the original exactly once: it is a permutation of the original columns. */
  lemma RearrangeColsPermutes(frame: Frame, firstcols: seq<string>)
    requires Distinct(Names(frame.columns)) && Distinct(firstcols)
    requires forall k :: 0 <= k < |firstcols| ==> firstcols[k] in Names(frame.columns)
    ensures RearrangeCols(frame, firstcols).Success?
    ensures multiset(Names(RearrangeCols(frame, firstcols).value.columns)) == multiset(Names(frame.columns))
    ensures multiset(RearrangeCols(frame, firstcols).value.columns) == multiset(frame.columns)
  {
    var names := Names(frame.columns);
    var order := firstcols + Remaining(names, firstcols);
    OrderDistinct(names, firstcols);
    DistinctSameSet(order, names);
    var out := RearrangeCols(frame, firstcols).value.columns;
    var selected := Select(frame.columns, order);
    assert selected.Success? && selected.value == out;
    assert Names(out) == order;
    DistinctByName(out);
    DistinctByName(frame.columns);
    SelectCovers(frame.columns, order, out);
    DistinctSameSet(out, frame.columns);
  }

  /** A column body of `n` dash cells. */
  function Dashes(n: nat): (cells: seq<Cell>)
    ensures |cells| == n && forall j :: 0 <= j < n ==> cells[j] == Text("-")
  {
    seq(n, _ => Text("-"))
  }

  lemma DashesStep(n: nat)
    ensures Dashes(n + 1) == Dashes(n) + [Text("-")]
  {
  }

  /** `add_dashes`: a column of `"-"`, one cell per row, under the given name; an existing column
      of that name is replaced where it stands, otherwise the new column goes last. */
  method AddDashes(frame: Frame, newColname: string) returns (r: Frame)
    ensures r.rows == frame.rows
    ensures var k := FindColumn(frame.columns, newColname);
      && |r.columns| == (if k.Some? then |frame.columns| else |frame.columns| + 1)
      && var at := if k.Some? then k.value else |frame.columns|;
         && r.columns[at] == Column(newColname, Dashes(frame.rows))
         && forall i :: 0 <= i < |frame.columns| && i != at ==> r.columns[i] == frame.columns[i]
    ensures frame.Valid() ==> r.Valid()
  {
    var dashes: seq<Cell> := [];
    for i := 0 to frame.rows
      invariant dashes == Dashes(i)
    {
      DashesStep(i);
      dashes := dashes + [Text("-")];
    }
    var column := Column(newColname, dashes);
    var k := FindColumn(frame.columns, newColname);
    if k.Some? {
      r := Frame(frame.rows, frame.columns[k.value := column]);
    } else {
      r := Frame(frame.rows, frame.columns + [column]);
    }
  }

  // ---------------------------------------------------------------- row view

  /** One row of a time-series matrix: the variant code and one value per week. */
  datatype Row = Row(code: string, weeks: seq<real>)

  /** `rows[rows.Code.isin(keys)]`: the rows whose code is one of `keys`, in their order. */
  function Isin(rows: seq<Row>, keys: seq<string>): (kept: seq<Row>)
    ensures |kept| <= |rows|
    ensures forall k :: 0 <= k < |kept| ==> kept[k] in rows && kept[k].code in keys
  {
    if rows == [] then []
    else
      var tail := Isin(rows[1..], keys);
      assert forall k :: 0 <= k < |tail| ==> tail[k] in rows;
      (if rows[0].code in keys then [rows[0]] else []) + tail
  }

  /** The filter keeps every row whose code is a key, as often as it occurs, and no other row. */
  lemma {:induction false} IsinCounts(rows: seq<Row>, keys: seq<string>)
    ensures forall x :: multiset(Isin(rows, keys))[x] == if x.code in keys then multiset(rows)[x] else 0
  {
    if rows != [] {
      IsinCounts(rows[1..], keys);
      assert rows == [rows[0]] + rows[1..];
    }
  }

  lemma Associative<T>(x: seq<T>, y: seq<T>, z: seq<T>)
    ensures x + (y + z) == (x + y) + z
  {
  }

  /** The filter decides the first row, then filters the rest. */
  lemma IsinCons(rows: seq<Row>, keys: seq<string>)
    requires rows != []
    ensures Isin(rows, keys) == (if rows[0].code in keys then [rows[0]] else []) + Isin(rows[1..], keys)
  {
  }

  /** The filter keeps the relative order of the rows: filtering a concatenation filters each
      part and concatenates the results. */
  lemma {:induction false} IsinConcat(a: seq<Row>, b: seq<Row>, keys: seq<string>)
    ensures Isin(a + b, keys) == Isin(a, keys) + Isin(b, keys)
  {
    if a != [] {
      var ab := a + b;
      assert ab[0] == a[0] && ab[1..] == a[1..] + b;
      var head: seq<Row> := if a[0].code in keys then [a[0]] else [];
      calc {
        Isin(ab, keys);
        { IsinCons(ab, keys); }
        head + Isin(a[1..] + b, keys);
        { IsinConcat(a[1..], b, keys); }
        head + (Isin(a[1..], keys) + Isin(b, keys));
        { Associative(head, Isin(a[1..], keys), Isin(b, keys)); }
        (head + Isin(a[1..], keys)) + Isin(b, keys);
        { IsinCons(a, keys); }
        Isin(a, keys) + Isin(b, keys);
      }
    } else {
      assert a + b == b;
    }
  }

  /** The subset step of `prepare_TS`: `None` and the empty list (both false in Python) keep every
      row; any other list keeps the rows whose code it names, in their original order. */
  function SubsetRows(rows: seq<Row>, subsetCodes: Option<seq<string>>): (kept: seq<Row>)
    ensures subsetCodes.None? || subsetCodes.value == [] ==> kept == rows
    ensures subsetCodes.Some? && subsetCodes.value != [] ==>
      forall x :: multiset(kept)[x] == if x.code in subsetCodes.value then multiset(rows)[x] else 0
  {
    if subsetCodes.None? || subsetCodes.value == [] then rows
    else IsinCounts(rows, subsetCodes.value); Isin(rows, subsetCodes.value)
  }

  // ---------------------------------------------------------------- position join

  /** A row of the code-position table of a variant catalogue (a blank position is the dash). */
  datatype CodePosition = CodePosition(code: string, position: Regions.Position)

  /** A time-series row with the position column the join adds. */
  datatype PositionedRow = PositionedRow(code: string, weeks: seq<real>, position: Regions.Position)

  /** The error of asking for positions without the variant catalogue that holds them. */
  datatype MissingArgument = MissingArgument(argument: string)

  predicate UniqueCodes(table: seq<CodePosition>) {
    forall i, j :: 0 <= i < j < |table| ==> table[i].code != table[j].code
  }

  /** The positions recorded for `code`, in table order. */
  function Matches(table: seq<CodePosition>, code: string): (ps: seq<Regions.Position>)
    ensures |ps| <= |table|
    ensures (exists k :: 0 <= k < |table| && table[k].code == code) <==> ps != []
  {
    if table == [] then []
    else
      var tail := Matches(table[1..], code);
      assert forall k :: 1 <= k < |table| ==> table[k] == table[1..][k - 1];
      if table[0].code == code then [table[0].position] + tail else tail
  }

  lemma {:induction false} MatchesUnique(table: seq<CodePosition>, k: nat)
    requires UniqueCodes(table) && k < |table|
    ensures Matches(table, table[k].code) == [table[k].position]
  {
    if k == 0 {
      assert forall j :: 0 <= j < |table[1..]| ==> table[1..][j] == table[j + 1];
    } else {
      assert table[1..][k - 1] == table[k];
      MatchesUnique(table[1..], k - 1);
    }
  }

  /** The rows one left-joined row turns into: one per match, or one with the dash when the
      code has none (the `fillna("-")` of the missing position). */
  function JoinRow(row: Row, table: seq<CodePosition>): (out: seq<PositionedRow>)
    ensures var ps := Matches(table, row.code);
      && |out| == (if ps == [] then 1 else |ps|)
      && forall k :: 0 <= k < |out| ==>
           out[k] == PositionedRow(row.code, row.weeks, if ps == [] then Regions.Dash else ps[k])
  {
    var ps := Matches(table, row.code);
    if ps == [] then [PositionedRow(row.code, row.weeks, Regions.Dash)]
    else seq(|ps|, k requires 0 <= k < |ps| => PositionedRow(row.code, row.weeks, ps[k]))
  }

  lemma MatchesAtMostOne(table: seq<CodePosition>, code: string)
    ensures UniqueCodes(table) ==> |Matches(table, code)| <= 1
  {
    if UniqueCodes(table) && Matches(table, code) != [] {
      var k :| 0 <= k < |table| && table[k].code == code;
      MatchesUnique(table, k);
    }
  }

  function LeftJoin(rows: seq<Row>, table: seq<CodePosition>): (out: seq<PositionedRow>)
    ensures |out| >= |rows|
    ensures UniqueCodes(table) ==> |out| == |rows|
  {
    if rows == [] then [] else
      MatchesAtMostOne(table, rows[0].code);
      JoinRow(rows[0], table) + LeftJoin(rows[1..], table)
  }

  /** The join keeps the row order: joining a concatenation concatenates the joined parts. */
  lemma {:induction false} LeftJoinConcat(a: seq<Row>, b: seq<Row>, table: seq<CodePosition>)
    ensures LeftJoin(a + b, table) == LeftJoin(a, table) + LeftJoin(b, table)
  {
    if a != [] {
      assert (a + b)[1..] == a[1..] + b;
      assert (a + b)[0] == a[0];
      LeftJoinConcat(a[1..], b, table);
      Associative(JoinRow(a[0], table), LeftJoin(a[1..], table), LeftJoin(b, table));
    } else {
      assert a + b == b;
    }
  }

  /** The position of `code` in a catalogue without repeated codes, or the dash. */
  function LookupPosition(table: seq<CodePosition>, code: string): Regions.Position {
    if table == [] then Regions.Dash
    else if table[0].code == code then table[0].position
    else LookupPosition(table[1..], code)
  }

  /** The position step of `prepare_TS`: a left join on the code with the code-position table of
      the variant catalogue, a row without a match receiving the dash. Without the catalogue the
      step fails. When the catalogue has one row per code, row `i` of the result is row `i` of the
      input with its position attached. */
  function JoinPositions(rows: seq<Row>, varByCode: Option<seq<CodePosition>>): (r: Result<seq<PositionedRow>, MissingArgument>)
    ensures varByCode.None? <==> r.Failure?
    ensures r.Success? ==> |r.value| >= |rows|
    ensures r.Success? && UniqueCodes(varByCode.value) ==>
      |r.value| == |rows| && forall i :: 0 <= i < |rows| ==>
        r.value[i] == PositionedRow(rows[i].code, rows[i].weeks, LookupPosition(varByCode.value, rows[i].code))
  {
    match varByCode
    case None => Failure(MissingArgument("var_by_code_path"))
    case Some(table) =>
      var out := LeftJoin(rows, table);
      if UniqueCodes(table) then LeftJoinUnique(rows, table); Success(out) else Success(out)
  }

  lemma {:induction false} LookupUnique(table: seq<CodePosition>, code: string)
    requires UniqueCodes(table)
    ensures Matches(table, code) == [] ==> LookupPosition(table, code) == Regions.Dash
    ensures Matches(table, code) != [] ==> Matches(table, code) == [LookupPosition(table, code)]
  {
    if table != [] {
      assert UniqueCodes(table[1..]) by {
        forall i, j | 0 <= i < j < |table[1..]| ensures table[1..][i].code != table[1..][j].code {
          assert table[1..][i] == table[i + 1] && table[1..][j] == table[j + 1];
        }
      }
      LookupUnique(table[1..], code);
      if table[0].code == code {
        MatchesUnique(table, 0);
      }
    }
  }

  lemma {:induction false} LeftJoinUnique(rows: seq<Row>, table: seq<CodePosition>)
    requires UniqueCodes(table)
    ensures |LeftJoin(rows, table)| == |rows|
    ensures forall i :: 0 <= i < |rows| ==>
      LeftJoin(rows, table)[i] == PositionedRow(rows[i].code, rows[i].weeks, LookupPosition(table, rows[i].code))
  {
    if rows != [] {
      LeftJoinUnique(rows[1..], table);
      LookupUnique(table, rows[0].code);
      var head := JoinRow(rows[0], table);
      assert head == [PositionedRow(rows[0].code, rows[0].weeks, LookupPosition(table, rows[0].code))];
      assert forall i :: 1 <= i < |rows| ==> rows[i] == rows[1..][i - 1];
    }
  }

  // ---------------------------------------------------------------- top n

  /** A variant code with the frequency it is ranked by. */
  datatype Ranked = Ranked(key: string, score: int)

  predicate NonIncreasing(s: seq<Ranked>) {
    forall i, j :: 0 <= i < j < |s| ==> s[i].score >= s[j].score
  }

  /** Inserts `x` into a non-increasing sequence after every element that is at least as large. */
  function Insert(x: Ranked, s: seq<Ranked>): (r: seq<Ranked>)
    requires NonIncreasing(s)
    ensures NonIncreasing(r)
    ensures multiset(r) == multiset(s) + multiset{x}
  {
    if s == [] then [x]
    else if s[0].score >= x.score then
      var tail := Insert(x, s[1..]);
      InsertBelowHead(x, s, tail);
      [s[0]] + tail
    else [x] + s
  }

  /** An element at least as large as the inserted one and as the rest stays in front. */
  lemma InsertBelowHead(x: Ranked, s: seq<Ranked>, tail: seq<Ranked>)
    requires NonIncreasing(s) && s != [] && s[0].score >= x.score
    requires NonIncreasing(tail) && multiset(tail) == multiset(s[1..]) + multiset{x}
    ensures NonIncreasing([s[0]] + tail)
    ensures multiset([s[0]] + tail) == multiset(s) + multiset{x}
  {
    assert s == [s[0]] + s[1..];
    forall j | 0 <= j < |tail| ensures tail[j].score <= s[0].score {
      assert tail[j] in multiset(tail);
      if tail[j] != x {
        assert tail[j] in multiset(s[1..]);
        var m :| 0 <= m < |s[1..]| && s[1..][m] == tail[j];
        assert s[m + 1] == tail[j];
      }
    }
    var r := [s[0]] + tail;
    forall i, j | 0 <= i < j < |r| ensures r[i].score >= r[j].score {
      if i > 0 {
        assert r[i] == tail[i - 1] && r[j] == tail[j - 1];
      } else {
        assert r[j] == tail[j - 1];
      }
    }
  }

  /** `sort_values(ascending=False)` on the rank: one non-increasing order of the entries. */
  function SortDescending(s: seq<Ranked>): (r: seq<Ranked>)
    ensures NonIncreasing(r)
    ensures multiset(r) == multiset(s)
  {
    if s == [] then []
    else
      assert s == [s[0]] + s[1..];
      Insert(s[0], SortDescending(s[1..]))
  }

  /** The length of Python's slice `s[0:n]`: a negative `n` counts back from the end. */
  function SliceLength(len: nat, n: int): (k: nat)
    ensures k <= len
  {
    if n >= 0 then (if n < len then n else len)
    else if len + n > 0 then len + n else 0
  }

  /** The slice `[0:n]` of the descending sort: the entries the top-n step keeps, best first.
      With a non-negative `n`, exactly `min(n, len)` entries, every one of them ranked at least as
      high as any entry left out. */
  function TopN(entries: seq<Ranked>, n: int): (top: seq<Ranked>)
    ensures |top| == SliceLength(|entries|, n)
    ensures n >= 0 ==> |top| == if n < |entries| then n else |entries|
    ensures n == 0 ==> top == []
    ensures NonIncreasing(top)
    ensures multiset(top) <= multiset(entries)
    ensures forall i, y :: 0 <= i < |top| && y in multiset(entries) - multiset(top) ==> top[i].score >= y.score
  {
    var sorted := SortDescending(entries);
    var k := SliceLength(|entries|, n);
    assert |sorted| == |multiset(sorted)| == |entries|;
    PrefixOfDescending(sorted, k);
    sorted[..k]
  }

  /** A prefix of a non-increasing sequence ranks at least as high as everything after it. */
  lemma PrefixOfDescending(sorted: seq<Ranked>, k: nat)
    requires NonIncreasing(sorted) && k <= |sorted|
    ensures multiset(sorted[..k]) <= multiset(sorted)
    ensures multiset(sorted) - multiset(sorted[..k]) == multiset(sorted[k..])
    ensures forall i, y :: 0 <= i < k && y in multiset(sorted) - multiset(sorted[..k]) ==> sorted[..k][i].score >= y.score
  {
    var top := sorted[..k];
    assert sorted == top + sorted[k..];
    forall i, y | 0 <= i < k && y in multiset(sorted[k..]) ensures top[i].score >= y.score {
      var j :| 0 <= j < |sorted[k..]| && sorted[k..][j] == y;
      assert sorted[k + j] == y;
    }
  }

  function Keys(s: seq<Ranked>): (keys: seq<string>)
    ensures |keys| == |s|
    ensures forall i :: 0 <= i < |s| ==> keys[i] == s[i].key
  {
    if s == [] then [] else [s[0].key] + Keys(s[1..])
  }

  // ---------------------------------------------------------------- reindex

  /** One row of a reindexed matrix: the key, and its weeks, or no values (a row of NaN) when the
      matrix has no row of that key. */
  datatype Reindexed = Reindexed(key: string, weeks: Option<seq<real>>)

  /** The error pandas raises when reindexing a matrix whose index repeats a label. */
  datatype DuplicateLabel = DuplicateLabel(code: string)

  predicate UniqueRowCodes(rows: seq<Row>) {
    forall i, j :: 0 <= i < j < |rows| ==> rows[i].code != rows[j].code
  }

  /** The first row with that code, if any. */
  function RowFor(rows: seq<Row>, code: string): (r: Option<Row>)
    ensures r.Some? <==> exists k :: 0 <= k < |rows| && rows[k].code == code
    ensures r.Some? ==> r.value in rows && r.value.code == code
  {
    if rows == [] then None
    else if rows[0].code == code then Some(rows[0])
    else
      var r := RowFor(rows[1..], code);
      assert forall k :: 1 <= k < |rows| ==> rows[k] == rows[1..][k - 1];
      r
  }

  /** The first repeated code of a sequence of rows, if any. */
  function FirstDuplicate(rows: seq<Row>): (d: Option<string>)
    ensures d.None? <==> UniqueRowCodes(rows)
  {
    if rows == [] then None
    else if RowFor(rows[1..], rows[0].code).Some? then Some(rows[0].code)
    else
      var d := FirstDuplicate(rows[1..]);
      assert forall k :: 1 <= k < |rows| ==> rows[k] == rows[1..][k - 1];
      if d.None? then
        assert UniqueRowCodes(rows) by {
          forall i, j | 0 <= i < j < |rows| ensures rows[i].code != rows[j].code {
            if i > 0 { assert rows[1..][i - 1].code != rows[1..][j - 1].code; }
          }
        }
        d
      else d
  }

  /** `reindex(keys)` on a matrix indexed by code: one row per key, in the order of the keys;
      repeated labels in the matrix are an error. */
  function Reindex(rows: seq<Row>, keys: seq<string>): (r: Result<seq<Reindexed>, DuplicateLabel>)
    ensures r.Success? <==> UniqueRowCodes(rows)
    ensures r.Success? ==> |r.value| == |keys|
    ensures r.Success? ==> forall i :: 0 <= i < |keys| ==>
      (&& r.value[i].key == keys[i]
       && (r.value[i].weeks.Some? <==> exists k :: 0 <= k < |rows| && rows[k].code == keys[i])
       && (forall k :: 0 <= k < |rows| && rows[k].code == keys[i] ==> r.value[i].weeks == Some(rows[k].weeks)))
  {
    match FirstDuplicate(rows)
    case Some(code) => Failure(DuplicateLabel(code))
    case None =>
      var out := seq(|keys|, i requires 0 <= i < |keys| =>
        var row := RowFor(rows, keys[i]);
        Reindexed(keys[i], if row.Some? then Some(row.value.weeks) else None));
      assert forall i, k :: 0 <= i < |keys| && 0 <= k < |rows| && rows[k].code == keys[i] ==>
        RowFor(rows, keys[i]) == Some(rows[k]);
      Success(out)
  }

  /** The top-n step of `prepare_top_n`: rank the catalogue, keep the first `n` codes, restrict
      the matrix to them and reindex it in rank order. */
  function TopNMatrix(rows: seq<Row>, ranking: seq<Ranked>, n: int): (r: Result<seq<Reindexed>, DuplicateLabel>)
    ensures var top := TopN(ranking, n);
      && (r.Success? <==> UniqueRowCodes(Isin(rows, Keys(top))))
      && (r.Success? ==>
            (|r.value| == |top| && forall i :: 0 <= i < |top| ==> r.value[i].key == top[i].key))
      && (r.Success? ==> forall i :: 0 <= i < |top| ==>
            && (r.value[i].weeks.Some? <==> exists k :: 0 <= k < |rows| && rows[k].code == top[i].key)
            && (forall k :: 0 <= k < |rows| && rows[k].code == top[i].key ==>
                  r.value[i].weeks == Some(rows[k].weeks)))
  {
    var keys := Keys(TopN(ranking, n));
    var kept := Isin(rows, keys);
    forall k | 0 <= k < |rows| && rows[k].code in keys ensures rows[k] in kept {
      IsinKeeps(rows, keys, k);
    }
    Reindex(kept, keys)
  }

  /** The filter keeps every row whose code is a key. */
  lemma {:induction false} IsinKeeps(rows: seq<Row>, keys: seq<string>, k: nat)
    requires k < |rows| && rows[k].code in keys
    ensures rows[k] in Isin(rows, keys)
  {
    IsinCons(rows, keys);
    if k > 0 {
      assert rows[1..][k - 1] == rows[k];
      IsinKeeps(rows[1..], keys, k - 1);
    }
  }

  // ---------------------------------------------------------------- complex_region_query

  /** `any([resi == t for t in targets])`. */
  function AnyEqual(resi: int, targets: seq<int>): (found: bool)
    ensures found <==> resi in targets
  {
    if targets == [] then false else targets[0] == resi || AnyEqual(resi, targets[1..])
  }

  /** `complex_region_query`: the entry is on the target protein and at one of the target residues. */
  function ComplexRegionQuery(protein: string, resi: int, targetProtein: string, targetResi: seq<int>): (matches: bool)
    ensures matches <==> protein == targetProtein && exists k :: 0 <= k < |targetResi| && targetResi[k] == resi
  {
    protein == targetProtein && AnyEqual(resi, targetResi)
  }
}
