/**
  GenerateBulkInsertSql: checks the table name, returns "" for a null or
  empty collection, and otherwise builds

      insert into <table> (<columns>) <NL>values<NL>(<row 1>),<NL>...(<row n>)

  appending one "(...),<NL>" per item and trimming the tail with
  TrimEnd('\n'), TrimEnd('\r'), TrimEnd(',').
 */
module StatementAssembly {
  import opened Wrappers
  import opened DotNetText
  import opened SqlSyntax
  import opened Records
  import opened ColumnSelection
  import opened LiteralFormatting

  /** Environment.NewLine. */
  datatype NewLine = Lf | CrLf
  {
    function Text(): string
    {
      if Lf? then "\n" else "\r\n"
    }
  }

  /** ArgumentNullException, with the name of the offending parameter. */
  datatype Error = ArgumentNullException(paramName: string)

  /** columnNamesList: the names of ALL properties of T, editable or not. */
  function PropertyNames(properties: seq<Property>): (r: seq<string>)
    ensures |r| == |properties|
    ensures forall p :: p in properties ==> p.name in r
  {
    var names := seq(|properties|, k requires 0 <= k < |properties| => properties[k].name);
    assert forall k :: 0 <= k < |properties| ==> names[k] == properties[k].name;
    names
  }

  predicate WellTypedItems(items: seq<Item>)
  {
    forall i :: 0 <= i < |items| ==> WellTypedItem(items[i])
  }

  /** What one column name contributes to an item's row: nothing when the
      property is found on the item and is not editable, else its literal. */
  function Cell(item: Item, name: string): (r: seq<string>)
    requires WellTypedItem(item)
    ensures |r| <= 1
    ensures |r| == 1 ==> IsValueToken(r[0])
    ensures item.Null? ==> r == ["null"]
    ensures GetProperty(item, name).None? ==> r == ["null"]
    ensures GetProperty(item, name).Some? ==>
      (r == [] <==> !PropertyShouldBeEditable(GetProperty(item, name).value.property))
  {
    var property := GetProperty(item, name);
    if property.Some? && !PropertyShouldBeEditable(property.value.property) then []
    else [FormatInsertSqlColumnDataBasedOnDataType(property)]
  }

  /** valuesSqlList after the inner loop has visited `names`. */
  function RowValues(item: Item, names: seq<string>): (r: seq<string>)
    requires WellTypedItem(item)
    ensures |r| <= |names|
    ensures item.Null? ==> |r| == |names|
    ensures forall k :: 0 <= k < |r| ==> IsValueToken(r[k])
    decreases |names|
  {
    if names == [] then []
    else RowValues(item, names[..|names| - 1]) + Cell(item, names[|names| - 1])
  }

  /** "(" + string.Join(',', valuesSqlList) + ")". */
  function Tuple(values: seq<string>): string
  {
    "(" + Join(",", values) + ")"
  }

  function Header(tableName: string, properties: seq<Property>, newLine: NewLine): (r: string)
    ensures "insert into " + tableName + " (" <= r
    ensures |r| >= 6 + |newLine.Text()| && r[|r| - 6 - |newLine.Text()|..] == "values" + newLine.Text()
  {
    var opening := "insert into " + tableName + " (" + ColumnList(properties) + ") " + newLine.Text();
    var r := opening + ("values" + newLine.Text());
    assert "insert into " + tableName + " (" + ColumnList(properties) + ") " + newLine.Text() + "values" + newLine.Text() == r;
    assert r[|opening|..] == "values" + newLine.Text();
    r
  }

  /** The row tuple of each item, in collection order. */
  function RowTuples(properties: seq<Property>, items: seq<Item>): seq<string>
    requires WellTypedItems(items)
  {
    seq(|items|, i requires 0 <= i < |items| => Tuple(RowValues(items[i], PropertyNames(properties))))
  }

  /** The statement for a non-empty collection: the header, then the row
      tuples separated by a comma and a line break. */
  function InsertStatement(tableName: string, properties: seq<Property>, items: seq<Item>, newLine: NewLine): string
    requires WellTypedItems(items)
  {
    Header(tableName, properties, newLine) + Join("," + newLine.Text(), RowTuples(properties, items))
  }

  /** What GenerateBulkInsertSql returns (or throws). */
  function BulkInsertSql(
    properties: seq<Property>, collection: Option<seq<Item>>, tableName: Option<string>, newLine: NewLine
  ): (r: Result<string, Error>)
    requires collection.Some? ==> WellTypedItems(collection.value)
    ensures r.Failure? <==> IsNullOrWhiteSpace(tableName)
    ensures r.Failure? ==> r.error == ArgumentNullException("tableName")
    ensures r == Success("") <==> !IsNullOrWhiteSpace(tableName) && (collection.None? || |collection.value| == 0)
    ensures r.Success? && r.value != "" ==> "insert into " + tableName.value + " (" <= r.value
  {
    if IsNullOrWhiteSpace(tableName) then Failure(ArgumentNullException("tableName"))
    else if collection.None? || |collection.value| == 0 then Success("")
    else Success(InsertStatement(tableName.value, properties, collection.value, newLine))
  }

  /** What the loop has appended to sbMain after the given row tuples: each
      tuple followed by a comma and a line break (AppendLine). */
  function AppendedRows(tuples: seq<string>, newLine: NewLine): string
    decreases |tuples|
  {
    if tuples == [] then ""
    else AppendedRows(tuples[..|tuples| - 1], newLine) + tuples[|tuples| - 1] + "," + newLine.Text()
  }

  /** The generator.  It reads its arguments and changes nothing, so equal
      arguments always give equal text. */
  method GenerateBulkInsertSql(
    properties: seq<Property>, collection: Option<seq<Item>>, tableName: Option<string>, newLine: NewLine
  ) returns (r: Result<string, Error>)
    requires collection.Some? ==> WellTypedItems(collection.value)
    ensures r.Failure? <==> IsNullOrWhiteSpace(tableName)
    ensures r.Failure? ==> r.error == ArgumentNullException("tableName")
    ensures r == Success("") <==> !IsNullOrWhiteSpace(tableName) && (collection.None? || |collection.value| == 0)
    ensures r == BulkInsertSql(properties, collection, tableName, newLine)
  {
    if IsNullOrWhiteSpace(tableName) {
      return Failure(ArgumentNullException("tableName"));
    }
    if collection.None? || |collection.value| == 0 {
      return Success("");
    }
    var items := collection.value;
    var col := Header(tableName.value, properties, newLine);
    var sbMain := AppendRows(col, properties, items, newLine);
    TrimmedStatement(tableName.value, properties, items, newLine);
    r := Success(TrimEnd(TrimEnd(TrimEnd(sbMain, '\n'), '\r'), ','));
  }

  /** The outer loop: after the header, one AppendLine per item of its
      parenthesised values and a trailing comma. */
  method AppendRows(col: string, properties: seq<Property>, items: seq<Item>, newLine: NewLine)
    returns (sbMain: string)
    requires WellTypedItems(items)
    ensures sbMain == col + AppendedRows(RowTuples(properties, items), newLine)
  {
    var columnNamesList := PropertyNames(properties);
    ghost var tuples := RowTuples(properties, items);
    sbMain := col;
    for i := 0 to |items|
      invariant sbMain == col + AppendedRows(tuples[..i], newLine)
    {
      var item := items[i];
      var valuesSqlList := RowValuesOf(item, columnNamesList);
      assert tuples[i] == Tuple(valuesSqlList);
      var line := "(" + Join(",", valuesSqlList) + "),";
      AppendedRowsStep(col, tuples, i, line, newLine);
      sbMain := sbMain + (line + newLine.Text());
    }
    assert tuples[..|items|] == tuples;
  }

  /** The inner loop: one literal per property name, skipping the properties
      the item has but that are not editable. */
  method RowValuesOf(item: Item, columnNamesList: seq<string>) returns (valuesSqlList: seq<string>)
    requires WellTypedItem(item)
    ensures valuesSqlList == RowValues(item, columnNamesList)
    ensures |valuesSqlList| <= |columnNamesList|
  {
    valuesSqlList := [];
    for j := 0 to |columnNamesList|
      invariant valuesSqlList == RowValues(item, columnNamesList[..j])
    {
      RowValuesStep(item, columnNamesList, j);
      var property := GetProperty(item, columnNamesList[j]);
      if property.Some? {
        if !PropertyShouldBeEditable(property.value.property) {
          assert Cell(item, columnNamesList[j]) == [];
          continue;
        }
      }
      assert Cell(item, columnNamesList[j]) == [FormatInsertSqlColumnDataBasedOnDataType(property)];
      valuesSqlList := valuesSqlList + [FormatInsertSqlColumnDataBasedOnDataType(property)];
    }
    assert columnNamesList[..|columnNamesList|] == columnNamesList;
  }

  /** One more column name extends the row by that name's cell. */
  lemma RowValuesStep(item: Item, names: seq<string>, j: nat)
    requires WellTypedItem(item) && j < |names|
    ensures RowValues(item, names[..j + 1]) == RowValues(item, names[..j]) + Cell(item, names[j])
  {
    assert names[..j + 1][..j] == names[..j];
  }

  /** One AppendLine on the builder that holds the header and the first i rows. */
  lemma AppendedRowsStep(header: string, tuples: seq<string>, i: nat, line: string, newLine: NewLine)
    requires i < |tuples| && line == tuples[i] + ","
    ensures header + AppendedRows(tuples[..i + 1], newLine)
         == (header + AppendedRows(tuples[..i], newLine)) + (line + newLine.Text())
  {
    assert tuples[..i + 1][..i] == tuples[..i];
    var appended := AppendedRows(tuples[..i], newLine);
    assert header + appended + (line + newLine.Text()) == header + (appended + (line + newLine.Text()));
  }

  lemma TrimmedStatement(tableName: string, properties: seq<Property>, items: seq<Item>, newLine: NewLine)
    requires WellTypedItems(items) && |items| > 0
    ensures TrimEnd(TrimEnd(TrimEnd(Header(tableName, properties, newLine)
                + AppendedRows(RowTuples(properties, items), newLine), '\n'), '\r'), ',')
         == InsertStatement(tableName, properties, items, newLine)
  {
    var tuples := RowTuples(properties, items);
    forall k | 0 <= k < |tuples|
      ensures EndsWithParen(tuples[k])
    {
    }
    TrimmedRows(Header(tableName, properties, newLine), tuples, newLine);
  }

  predicate EndsWithParen(t: string)
  {
    |t| > 0 && t[|t| - 1] == ')'
  }

  /** The appended rows are the tuples joined by ",NL", plus a last ",NL". */
  lemma {:induction false} AppendedRowsJoin(tuples: seq<string>, newLine: NewLine)
    requires |tuples| > 0
    ensures AppendedRows(tuples, newLine) == Join("," + newLine.Text(), tuples) + "," + newLine.Text()
    decreases |tuples|
  {
    var init := tuples[..|tuples| - 1];
    if |init| == 0 {
      assert tuples == [tuples[0]];
    } else {
      AppendedRowsJoin(init, newLine);
      assert tuples == init + [tuples[|tuples| - 1]];
      JoinSnoc("," + newLine.Text(), init, tuples[|tuples| - 1]);
    }
  }

  /** Trimming '\n', then '\r', then ',' removes exactly the last ",NL". */
  lemma TrimmedRows(header: string, tuples: seq<string>, newLine: NewLine)
    requires |tuples| > 0
    requires forall k :: 0 <= k < |tuples| ==> EndsWithParen(tuples[k])
    ensures TrimEnd(TrimEnd(TrimEnd(header + AppendedRows(tuples, newLine), '\n'), '\r'), ',')
         == header + Join("," + newLine.Text(), tuples)
  {
    AppendedRowsJoin(tuples, newLine);
    var x := header + Join("," + newLine.Text(), tuples);
    JoinedEndsWithParen(header, tuples, "," + newLine.Text());
    assert header + AppendedRows(tuples, newLine) == x + "," + newLine.Text();
    TrimLineEnd(x, newLine);
  }

  /** The three trims undo one ",NL" after a text that ends with ')'. */
  lemma TrimLineEnd(x: string, newLine: NewLine)
    requires EndsWithParen(x)
    ensures TrimEnd(TrimEnd(TrimEnd(x + "," + newLine.Text(), '\n'), '\r'), ',') == x
  {
    var s1 := x + ",";
    TrimLast(x, ',');
    if newLine.Lf? {
      assert x + "," + newLine.Text() == s1 + ['\n'];
      TrimLast(s1, '\n');
      assert TrimEnd(s1, '\r') == s1;
    } else {
      assert x + "," + newLine.Text() == (s1 + ['\r']) + ['\n'];
      TrimLast(s1 + ['\r'], '\n');
      TrimLast(s1, '\r');
    }
  }

  /** One trailing c is removed, and the trim stops before the character ahead of it. */
  lemma TrimLast(s: string, c: char)
    requires |s| > 0 && s[|s| - 1] != c
    ensures TrimEnd(s + [c], c) == s
  {
    assert (s + [c])[..|s|] == s;
  }

  /** Tuples that end with ')' joined after a header end with ')'. */
  lemma JoinedEndsWithParen(header: string, tuples: seq<string>, separator: string)
    requires |tuples| > 0
    requires forall k :: 0 <= k < |tuples| ==> EndsWithParen(tuples[k])
    ensures EndsWithParen(header + Join(separator, tuples))
  {
    JoinEndsWithLast(separator, tuples);
    var j := Join(separator, tuples);
    var last := tuples[|tuples| - 1];
    assert EndsWithParen(last);
    assert j[|j| - 1] == last[|last| - 1] by {
      assert j[|j| - |last|..][|last| - 1] == j[|j| - 1];
    }
    var x := header + j;
    assert x[|x| - 1] == j[|j| - 1];
  }

  // ---------------------------------------------------------------------------
  // Properties of the statement

  /** A row's text splits at its top-level commas into exactly its values, so
      a SQL lexer sees as many values as the row was built from; no quote or
      comma inside a value can shift the values after it. */
  lemma RowTextSplits(item: Item, names: seq<string>)
    requires WellTypedItem(item)
    requires |RowValues(item, names)| > 0
    ensures SplitValues(Join(",", RowValues(item, names))) == RowValues(item, names)
  {
    SplitJoinedValues(RowValues(item, names));
  }

  /** The row holds one value per property of `editable`, in order, and the
      k-th value is the literal of the k-th property as read from the item. */
  predicate RowAligned(item: Item, row: seq<string>, editable: seq<Property>)
    requires WellTypedItem(item)
  {
    && item.Instance?
    && |row| == |editable|
    && forall k :: 0 <= k < |row| ==>
         && editable[k].name in item.properties
         && item.properties[editable[k].name].property == editable[k]
         && row[k] == FormatInsertSqlColumnDataBasedOnDataType(Some(item.properties[editable[k].name]))
  }

  lemma AlignedAppend(item: Item, row: seq<string>, editable: seq<Property>, p: Property)
    requires WellTypedItem(item) && RowAligned(item, row, editable)
    requires p.name in item.properties && item.properties[p.name].property == p
    ensures RowAligned(item, row + [FormatInsertSqlColumnDataBasedOnDataType(Some(item.properties[p.name]))], editable + [p])
  {
  }

  /** For an object of type T, the row holds one value per column, in column
      order: the k-th value is the literal of the k-th editable property,
      read from the item. */
  lemma {:induction false} InstanceRowAligned(item: Item, properties: seq<Property>)
    requires WellTypedItem(item) && IsInstanceOf(item, properties)
    ensures RowAligned(item, RowValues(item, PropertyNames(properties)), EditableProperties(properties))
    ensures |RowValues(item, PropertyNames(properties))| == |ColumnNames(properties)|
    decreases |properties|
  {
    var n := |properties|;
    if n == 0 {
      assert PropertyNames(properties) == [];
    } else {
      var init := properties[..n - 1];
      assert forall p :: p in init ==> p in properties;
      InstanceRowAligned(item, init);
      AlignedStep(item, properties);
    }
  }

  /** One more property of T keeps the row aligned with the editable properties. */
  lemma AlignedStep(item: Item, properties: seq<Property>)
    requires WellTypedItem(item) && IsInstanceOf(item, properties) && |properties| > 0
    requires RowAligned(item, RowValues(item, PropertyNames(properties[..|properties| - 1])),
                        EditableProperties(properties[..|properties| - 1]))
    ensures RowAligned(item, RowValues(item, PropertyNames(properties)), EditableProperties(properties))
  {
    var n := |properties|;
    var init := properties[..n - 1];
    var last := properties[n - 1];
    assert last in properties;
    var row := RowValues(item, PropertyNames(init));
    RowValuesSnoc(item, properties);
    var field := item.properties[last.name];
    assert GetProperty(item, last.name) == Some(field);
    if PropertyShouldBeEditable(last) {
      assert RowValues(item, PropertyNames(properties)) == row + [FormatInsertSqlColumnDataBasedOnDataType(Some(field))];
      assert EditableProperties(properties) == EditableProperties(init) + [last];
      AlignedAppend(item, row, EditableProperties(init), last);
    } else {
      assert RowValues(item, PropertyNames(properties)) == row;
      assert EditableProperties(properties) == EditableProperties(init);
    }
  }

  /** The row and the editable properties of T, one property at a time. */
  lemma RowValuesSnoc(item: Item, properties: seq<Property>)
    requires WellTypedItem(item) && |properties| > 0
    ensures var init := properties[..|properties| - 1];
      var last := properties[|properties| - 1];
      && RowValues(item, PropertyNames(properties)) == RowValues(item, PropertyNames(init)) + Cell(item, last.name)
      && EditableProperties(properties)
         == EditableProperties(init) + (if PropertyShouldBeEditable(last) then [last] else [])
  {
    var n := |properties|;
    var names := PropertyNames(properties);
    assert names[..n - 1] == PropertyNames(properties[..n - 1]);
  }

  /** For a null item every property, editable or not, contributes the token null. */
  lemma {:induction false} NullItemRow(names: seq<string>)
    ensures RowValues(Null, names) == seq(|names|, _ => "null")
    decreases |names|
  {
    if names != [] {
      NullItemRow(names[..|names| - 1]);
    }
  }

  /** So a null item's row matches the column list in length exactly when T has
      no non-editable property. */
  lemma NullItemRowArity(properties: seq<Property>)
    ensures |RowValues(Null, PropertyNames(properties))| == |ColumnNames(properties)|
        <==> forall p :: p in properties ==> PropertyShouldBeEditable(p)
  {
    NullItemRow(PropertyNames(properties));
    AllEditableIffSameLength(properties);
  }

  lemma {:induction false} AllEditableIffSameLength(properties: seq<Property>)
    ensures |EditableProperties(properties)| == |properties|
        <==> forall p :: p in properties ==> PropertyShouldBeEditable(p)
    decreases |properties|
  {
    if properties != [] {
      var init := properties[..|properties| - 1];
      AllEditableIffSameLength(init);
      assert properties == init + [properties[|properties| - 1]];
    }
  }

  /** The shape of a generated statement: the header, then one tuple per item in
      collection order, joined by a comma and a line break, ending with ')' and
      so with no trailing comma, CR or LF. */
  lemma StatementShape(
    properties: seq<Property>, collection: Option<seq<Item>>, tableName: Option<string>, newLine: NewLine)
    requires collection.Some? ==> WellTypedItems(collection.value)
    requires !IsNullOrWhiteSpace(tableName) && collection.Some? && |collection.value| > 0
    ensures var r := BulkInsertSql(properties, collection, tableName, newLine);
      var tuples := RowTuples(properties, collection.value);
      && r.Success?
      && r.value == Header(tableName.value, properties, newLine) + Join("," + newLine.Text(), tuples)
      && |tuples| == |collection.value|
      && (forall i :: 0 <= i < |tuples| ==>
            tuples[i] == "(" + Join(",", RowValues(collection.value[i], PropertyNames(properties))) + ")")
      && EndsWithParen(r.value)
  {
    var tuples := RowTuples(properties, collection.value);
    forall k | 0 <= k < |tuples|
      ensures EndsWithParen(tuples[k])
    {
    }
    JoinedEndsWithParen(Header(tableName.value, properties, newLine), tuples, "," + newLine.Text());
  }

  /** The rows part of a statement, split at the row separators ",<NL>" that
      stand outside string literals. */
  function SplitRows(t: string, newLine: NewLine): seq<string>
  {
    SplitOutside(t, "," + newLine.Text(), false, "")
  }

  /** Tuples joined by a row separator split back into the same tuples. */
  lemma {:induction false} SplitJoinedTuples(rows: seq<seq<string>>, tuples: seq<string>, separator: string)
    requires RowSeparator(separator)
    requires |tuples| == |rows| > 0
    requires forall i :: 0 <= i < |rows| ==> tuples[i] == Tuple(rows[i])
    requires forall i, k :: 0 <= i < |rows| && 0 <= k < |rows[i]| ==> IsValueToken(rows[i][k])
    ensures SplitOutside(Join(separator, tuples), separator, false, "") == tuples
    decreases |tuples|
  {
    if |tuples| == 1 {
      ScanTuple(rows[0], "", separator, "");
      assert Tuple(rows[0]) + "" == tuples[0];
      assert "" + tuples[0] == tuples[0];
    } else {
      var rest := Join(separator, tuples[1..]);
      assert Join(separator, tuples) == tuples[0] + (separator + rest);
      ScanTuple(rows[0], separator + rest, separator, "");
      assert "" + tuples[0] == tuples[0];
      assert (separator + rest)[|separator|..] == rest;
      SplitJoinedTuples(rows[1..], tuples[1..], separator);
      assert tuples == [tuples[0]] + tuples[1..];
    }
  }

  /** After the header, the statement splits at its row separators into
      exactly one tuple per item, whatever quotes, commas or line breaks the
      string values hold: the statement inserts |collection| rows. */
  lemma RowCount(
    properties: seq<Property>, collection: Option<seq<Item>>, tableName: Option<string>, newLine: NewLine)
    requires collection.Some? ==> WellTypedItems(collection.value)
    requires !IsNullOrWhiteSpace(tableName) && collection.Some? && |collection.value| > 0
    ensures var r := BulkInsertSql(properties, collection, tableName, newLine);
      var header := Header(tableName.value, properties, newLine);
      && r.Success?
      && header <= r.value
      && SplitRows(r.value[|header|..], newLine) == RowTuples(properties, collection.value)
      && |SplitRows(r.value[|header|..], newLine)| == |collection.value|
  {
    var items := collection.value;
    var names := PropertyNames(properties);
    var rows := seq(|items|, i requires 0 <= i < |items| => RowValues(items[i], names));
    var tuples := RowTuples(properties, items);
    SplitJoinedTuples(rows, tuples, "," + newLine.Text());
    StatementShape(properties, collection, tableName, newLine);
    var header := Header(tableName.value, properties, newLine);
    var body := Join("," + newLine.Text(), tuples);
    assert (header + body)[|header|..] == body;
  }
}
