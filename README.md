# Dapper.BulkExtensions — bulk INSERT generation, modelled in Dafny

`BulkInsertExtensions.GenerateBulkInsertSql<T>(collection, tableName)` turns a
list of records into one PostgreSQL statement

    insert into <table> ("Col1","Col2",...) <NL>values<NL>(v11,v12,...),<NL>...(vn1,vn2,...)

It rejects a null or blank table name with `ArgumentNullException("tableName")`,
returns the empty string for a null or empty collection, lists in the header
the properties of `T` that `propertyShouldBeEditable` accepts (a property is
dropped only when its first custom attribute is `[Editable(false)]`), and, for
each item, walks all the properties of `T` by name: a property the item has
but that is not editable is skipped (which keeps an object's row aligned with
the header), and every other name gets one SQL literal from
`FormatInsertSqlColumnDataBasedOnDataType`. A null item therefore gets one
`null` per property of `T`, editable or not. The literals are chosen by a
switch on the full name of the property type: strings quoted with `'` doubled (a null string becomes `''`),
Guids and `DateTime`s (as `yyyy-MM-dd HH:mm:ss`) quoted, the five numeric
types bare, anything else quoted with `'` doubled, and `null` for a null value
or a property the item does not have. The rows are appended with `,` and
`Environment.NewLine`, and the tail is trimmed with `TrimEnd('\n')`,
`TrimEnd('\r')`, `TrimEnd(',')`.

Modules, one per concern of the source:

- `Wrappers` — `Option` and `Result`.
- `DotNetText` — the .NET string operations the generator calls: `string.Join`,
  `TrimEnd(char)`, `Replace("'", "''")`, `string.IsNullOrWhiteSpace`.
- `DotNetValues` — `Convert.ToString` of the values a property can hold
  (integers, decimals as units and scale, Guids, `DateTime`s, booleans, text)
  and `DateTime.ToString("yyyy-MM-dd HH:mm:ss")`. The integer, decimal, Guid
  and `yyyy-MM-dd HH:mm:ss` texts come with a reader that recovers the value;
  the general `DateTime` text and the Boolean text do not.
- `SqlSyntax` — how a SQL lexer reads the output: string literals with doubled
  quotes, and splitting at separators that stand outside string literals.
- `Records` — what reflection provides: a property's name, the full name of
  its type and its custom attributes; an item is `Null` or an object whose
  run-time type exposes properties by name.
- `ColumnSelection` — `propertyShouldBeEditable` and the header's column list.
- `LiteralFormatting` — `FormatInsertSqlColumnDataBasedOnDataType`.
- `StatementAssembly` — `GenerateBulkInsertSql`, an imperative method that
  checks its arguments, builds the `StringBuilder` text with the source's outer
  loop in `AppendRows` and its inner loop (including the `continue` for
  non-editable properties) in `RowValuesOf`, and trims the tail; it is proved
  equal to the functional definition `BulkInsertSql`. The module also states
  the properties of the statement.

The property type is kept as its .NET full name, so the switch compares
strings exactly as the source does; in particular `int?`, whose full name is
``System.Nullable`1[[...]]``, matches no named arm and is emitted quoted.

Column names are emitted in double quotes, and the header line ends with `) `
(a space) before the line break.

Texts are produced under the invariant culture (`.` as decimal separator);
every statement below about values not spilling into neighbouring columns
holds under that culture only.

## Model

| member | source | states |
|---|---|---|
| StatementAssembly.BulkInsertSql | Dapper.BulkExtensions/BulkInsertExtensions.cs:9-46 | The functional definition of the generator: Failure exactly when the table name is null or white space, with ArgumentNullException("tableName"); Success("") exactly when the name is valid and the collection is null or empty; any other text starts with "insert into <table> (". Its shape is characterised by StatementShape, RowCount and InstanceRowAligned. |
| StatementAssembly.GenerateBulkInsertSql | Dapper.BulkExtensions/BulkInsertExtensions.cs:9-46 | Fails exactly when the table name is null or white space, with ArgumentNullException("tableName"); returns "" exactly when the name is valid and the collection is null or empty; otherwise the built text equals the statement BulkInsertSql describes (loops proved by invariants). |
| StatementAssembly.AppendRows | Dapper.BulkExtensions/BulkInsertExtensions.cs:30-44 | The outer loop leaves in the builder the header followed by, for each item in order, its tuple, a comma and a line break (loop proved by invariants). |
| StatementAssembly.Header | Dapper.BulkExtensions/BulkInsertExtensions.cs:25-26 | The header starts with "insert into <table> (" and ends with "values" followed by the line break. |
| StatementAssembly.PropertyNames | Dapper.BulkExtensions/BulkInsertExtensions.cs:19 | columnNamesList: one name per property of T, and every property's name is in it. |
| StatementAssembly.Tuple | Dapper.BulkExtensions/BulkInsertExtensions.cs:43 | Definition of "(" + string.Join(',', valuesSqlList) + ")"; ScanTuple and RowTextSplits prove it splits back into its values. |
| StatementAssembly.Cell | Dapper.BulkExtensions/BulkInsertExtensions.cs:33-41 | One column name contributes at most one value token: nothing exactly when the item has that property and it is not editable; "null" when the item is null or has no property of that name. |
| StatementAssembly.RowValues | Dapper.BulkExtensions/BulkInsertExtensions.cs:33-42 | A row has at most one value per property name of T, exactly one per name for a null item, and every value is a single SQL value token. |
| StatementAssembly.RowValuesOf | Dapper.BulkExtensions/BulkInsertExtensions.cs:32-42 | The inner loop builds exactly RowValues: for each property name in order, nothing when the item has that property and it is not editable, otherwise its literal; so at most one value per name (loop proved by invariants). |
| StatementAssembly.StatementShape | Dapper.BulkExtensions/BulkInsertExtensions.cs:25-45 | A non-empty collection gives the header followed by one "(v1,...,vn)" tuple per item, in collection order, joined by "," and NewLine, ending with ')' (no trailing comma, CR or LF). |
| StatementAssembly.RowCount | Dapper.BulkExtensions/BulkInsertExtensions.cs:30-45 | After the header, splitting the statement at ",NewLine" separators outside string literals yields exactly the item tuples, so the statement carries exactly as many rows as the collection has items, whatever quotes, commas or line breaks the values hold (under the invariant culture). |
| StatementAssembly.SplitJoinedTuples | Dapper.BulkExtensions/BulkInsertExtensions.cs:43 | Tuples of value tokens joined by a row separator split back into the same tuples. |
| StatementAssembly.RowTextSplits | Dapper.BulkExtensions/BulkInsertExtensions.cs:41-43 | The text of a row splits at its top-level commas into exactly its values: under the invariant culture no value can spill into the next column. |
| StatementAssembly.InstanceRowAligned | Dapper.BulkExtensions/BulkInsertExtensions.cs:21-42 | For an object of type T the row has one value per listed column, and the k-th value is the literal of the k-th editable property read from the item: values line up with the header. |
| StatementAssembly.NullItemRow | Dapper.BulkExtensions/BulkInsertExtensions.cs:35-41 | A null item contributes "null" for every property of T, editable or not. |
| StatementAssembly.NullItemRowArity | Dapper.BulkExtensions/BulkInsertExtensions.cs:21-41 | A null item's row has as many values as the header has columns if and only if every property of T is editable. |
| StatementAssembly.AllEditableIffSameLength | Dapper.BulkExtensions/BulkInsertExtensions.cs:21-22 | The editable filter keeps every property if and only if all properties are editable. |
| StatementAssembly.TrimmedRows | Dapper.BulkExtensions/BulkInsertExtensions.cs:43-45 | TrimEnd('\n'), TrimEnd('\r'), TrimEnd(',') remove exactly the last ",NewLine" the loop appended, for both line-break conventions. |
| StatementAssembly.TrimmedStatement | Dapper.BulkExtensions/BulkInsertExtensions.cs:28-45 | The trimmed builder contents equal the header plus the tuples joined by ",NewLine". |
| StatementAssembly.AppendedRowsJoin | Dapper.BulkExtensions/BulkInsertExtensions.cs:43 | Appending "tuple," with AppendLine for every item equals joining the tuples with ",NewLine" and adding one trailing ",NewLine". |
| ColumnSelection.EditableProperties | Dapper.BulkExtensions/BulkInsertExtensions.cs:21-22 | The filtered properties are exactly the properties that propertyShouldBeEditable accepts, and never more than T has. |
| ColumnSelection.EditablePropertiesAppend | Dapper.BulkExtensions/BulkInsertExtensions.cs:21-22 | The filter keeps the order of the properties: filtering a concatenation concatenates the filtered parts. |
| ColumnSelection.PropertyShouldBeEditable | Dapper.BulkExtensions/BulkInsertExtensions.cs:48-59 | A property whose first custom attribute is [Editable(false)] is refused; a property without any [Editable(false)] is editable. |
| ColumnSelection.LaterAttributesIgnored | Dapper.BulkExtensions/BulkInsertExtensions.cs:48-59 | Only the first custom attribute decides: two properties whose attribute lists start with the same attribute are treated alike, so an [Editable(false)] further down is ignored. |
| ColumnSelection.QuoteName | Dapper.BulkExtensions/BulkInsertExtensions.cs:23 | Definition of $"\"{x.Name}\""; characterised by QuoteNameInjective and QuotedPlainIsToken. |
| ColumnSelection.ColumnList | Dapper.BulkExtensions/BulkInsertExtensions.cs:26 | Definition of string.Join(',', inserColumnsCollection); ColumnListSplits proves it splits back into exactly ColumnNames. |
| ColumnSelection.ColumnNames | Dapper.BulkExtensions/BulkInsertExtensions.cs:21-23 | As many names as editable properties, and a double-quoted name is in the list if and only if some property of that name is editable. |
| ColumnSelection.ColumnNamesAppend | Dapper.BulkExtensions/BulkInsertExtensions.cs:21-23 | The column list keeps property order: the names of a concatenation are the names of the parts, concatenated. |
| ColumnSelection.QuoteNameInjective | Dapper.BulkExtensions/BulkInsertExtensions.cs:23 | Distinct property names give distinct quoted column names. |
| ColumnSelection.ColumnListSplits | Dapper.BulkExtensions/BulkInsertExtensions.cs:23-26 | With C#-style property names, the header's column list splits at its commas into exactly the quoted editable names. |
| LiteralFormatting.FormatInsertSqlColumnDataBasedOnDataType | Dapper.BulkExtensions/BulkInsertExtensions.cs:61-96 | Under the invariant culture every literal, for every type and every value, is one SQL value token: a bare token without quote, comma or line break, or one string literal whose inner quotes are all doubled. |
| LiteralFormatting.NullRendering | Dapper.BulkExtensions/BulkInsertExtensions.cs:66-95 | A missing property renders as null; a null value renders as '' for System.String and as null for every other type. |
| LiteralFormatting.StringLiteralRoundTrip | Dapper.BulkExtensions/BulkInsertExtensions.cs:71-74 | A string property's literal reads back, as standard SQL reads literals, as the string itself; a null string reads back as the empty string. |
| LiteralFormatting.StringLiteralEscaping | Dapper.BulkExtensions/BulkInsertExtensions.cs:71-74 | The literal is the text with every quote doubled, between quotes; its inside has only paired quotes and undoubling it gives the text back. |
| LiteralFormatting.GuidLiteral | Dapper.BulkExtensions/BulkInsertExtensions.cs:75 | A Guid renders as its 36-character 8-4-4-4-12 text in quotes (38 characters), which reads back as the same Guid. |
| LiteralFormatting.DateTimeLiteral | Dapper.BulkExtensions/BulkInsertExtensions.cs:76-79 | A DateTime renders as 'yyyy-MM-dd HH:mm:ss', 21 characters, whose inside reads back as the sortable text. |
| LiteralFormatting.NumericLiteral | Dapper.BulkExtensions/BulkInsertExtensions.cs:80-85 | A non-null Int16, Int32, Int64, Decimal or Double renders unquoted as a bare token that parses back to the same number. |
| LiteralFormatting.FallbackLiteral | Dapper.BulkExtensions/BulkInsertExtensions.cs:86-89 | Any other type renders a non-null value quoted with quotes doubled, reading back as its Convert.ToString text. |
| LiteralFormatting.NullableIsNotNamed | Dapper.BulkExtensions/BulkInsertExtensions.cs:69-86 | No Nullable<T> full name equals one of the switch's named type names. |
| LiteralFormatting.NullableNumberIsQuoted | Dapper.BulkExtensions/BulkInsertExtensions.cs:69-89 | A non-null int?, long?, short?, decimal? or double? falls to the default arm and is emitted as its number text between quotes. |
| SqlSyntax.QuotedDoubledRoundTrip | Dapper.BulkExtensions/BulkInsertExtensions.cs:74 | Quoting a text after doubling its quotes gives a literal that SQL reads back as the original text. |
| SqlSyntax.DoubleQuotesInverse | Dapper.BulkExtensions/BulkInsertExtensions.cs:74 | Replace("'", "''") always yields text with paired quotes, and undoubling it restores the input. |
| SqlSyntax.UndoubleQuotesInverse | Dapper.BulkExtensions/BulkInsertExtensions.cs:74 | On text with paired quotes, undoubling and then doubling again restores the text: the escaping is a bijection. |
| SqlSyntax.SplitJoinedValues | Dapper.BulkExtensions/BulkInsertExtensions.cs:43 | Value tokens joined by commas split back into the same tokens (which makes the no-spill statements hold for the invariant-culture texts). |
| SqlSyntax.ScanJoinedTokens | Dapper.BulkExtensions/BulkInsertExtensions.cs:43 | No ",NewLine" row separator starts among the values of a tuple, so a tuple is never split at its commas. |
| DotNetText.IsNullOrWhiteSpace | Dapper.BulkExtensions/BulkInsertExtensions.cs:11 | True exactly for null or for a text that TrimStart leaves empty, i.e. made only of white space. |
| DotNetText.TrimStartWhiteSpace | Dapper.BulkExtensions/BulkInsertExtensions.cs:11 | The reference definition (String.TrimStart) that IsNullOrWhiteSpace is proved against: TrimStart leaves nothing exactly when every character is white space, and otherwise leaves a text that starts with a non-white character. |
| DotNetText.DoubleQuotes | Dapper.BulkExtensions/BulkInsertExtensions.cs:74 | Replace("'", "''") never shortens the text and leaves a text without quotes unchanged. |
| DotNetText.TrimEnd | Dapper.BulkExtensions/BulkInsertExtensions.cs:45 | TrimEnd(c) returns a prefix that does not end in c, and everything it removed is c. |
| DotNetText.DoubleQuotesKeepsOtherChars | Dapper.BulkExtensions/BulkInsertExtensions.cs:74 | Doubling quotes neither adds nor removes any other character. |
| DotNetText.Join | Dapper.BulkExtensions/BulkInsertExtensions.cs:43 | Definition of string.Join; characterised by JoinSnoc, JoinEndsWithLast, SplitJoinedValues and SplitJoinedTuples. |
| DotNetText.JoinSnoc | Dapper.BulkExtensions/BulkInsertExtensions.cs:43 | Joining one more part appends the separator and that part. |
| DotNetValues.ConvertToString | Dapper.BulkExtensions/BulkInsertExtensions.cs:74-89 | Convert.ToString returns a string value as itself; a Guid as 36 characters that parse back to it; an integer or a decimal as a numeral that parses back to the same number (and scale). |
| DotNetValues.IntTextRoundTrip | Dapper.BulkExtensions/BulkInsertExtensions.cs:80-85 | Convert.ToString of an integer parses back to the same integer. |
| DotNetValues.DecimalTextRoundTrip | Dapper.BulkExtensions/BulkInsertExtensions.cs:83-85 | Convert.ToString of a decimal (units, scale) parses back to the same units and scale, trailing zeros included. |
| DotNetValues.GeneralText | Dapper.BulkExtensions/BulkInsertExtensions.cs:89 | Convert.ToString of a DateTime (reached by DateTime? in the default arm) under the invariant culture, "MM/dd/yyyy HH:mm:ss": always 19 characters with the separators in place. |
| DotNetValues.SortableText | Dapper.BulkExtensions/BulkInsertExtensions.cs:79 | "yyyy-MM-dd HH:mm:ss" is always 19 characters for a valid DateTime; SortableTextFields gives the layout. |
| DotNetValues.SortableTextFields | Dapper.BulkExtensions/BulkInsertExtensions.cs:79 | "yyyy-MM-dd HH:mm:ss" is 19 characters with the separators in place, and each field reads back as its component. |
| DotNetValues.GuidTextRoundTrip | Dapper.BulkExtensions/BulkInsertExtensions.cs:75 | A Guid's text is 36 characters without a quote and parses back to the same Guid. |
| Records.GetProperty | Dapper.BulkExtensions/BulkInsertExtensions.cs:35 | A null item has no property (item?. yields null); on an object a property is found if and only if its run-time type has one of that name, and on a well-typed item a found property has the requested name and a value of its declared type. |

## Left out

- Reflection itself (`typeof(T).GetProperties()`, `GetType().GetProperty`, `GetValue`) is a parameter: the properties of `T` in the order `GetProperties` returns (which also decides which custom attribute is "first"), and per item a map from property name to property and value. `AmbiguousMatchException` for duplicate names and properties hidden by a run-time subclass are not modelled.
- The `Task<string>` wrapper is dropped; the method returns its string (or the exception) directly.
- `Environment.NewLine` is a parameter with the two values `\n` and `\r\n`.
- StatementAssembly.GenerateBulkInsertSql: the table name is copied into the statement verbatim, as in the source; nothing is proved about a table name that itself contains quotes or separators.
- DotNetValues.ConvertToString: `Convert.ToString` is modelled under the invariant culture; a culture with a different decimal separator or `DateTime` time separator is not modelled.
- DotNetValues.ConvertToString: `double` is modelled as a finite decimal (units, scale); the round-trip "R" shortest form, exponent notation, `NaN` and infinities are not modelled.
- `DateTime` keeps only year, month, day, hour, minute and second; ticks below a second and `Kind` are not modelled, because the `yyyy-MM-dd HH:mm:ss` format drops them.
- `Convert.ToString` returning null (possible for a user type's `ToString`) is not modelled; every value has a text.
- ColumnSelection.PropertyShouldBeEditable: attributes are a closed type; an attribute from another assembly whose full name is also `System.ComponentModel.DataAnnotations.EditableAttribute` is not modelled, and `ConstructorArguments.First()` always finds the boolean, since `EditableAttribute` has only that constructor.
- Culture: under a culture whose decimal separator is `,` (de-DE, for instance) the decimal 1.5 is rendered `1,5` and becomes two values in its row, so RowCount, RowTextSplits and the value-token property of FormatInsertSqlColumnDataBasedOnDataType do not hold there; only the invariant culture is modelled.
- LiteralFormatting.StringLiteralRoundTrip: the reading of literals is the standard one, which PostgreSQL follows only with `standard_conforming_strings` on; with it off a backslash escapes, and a text such as `a\` does not read back.
- ColumnSelection.PropertyShouldBeEditable: an `OtherAttribute` whose full name is `System.ComponentModel.DataAnnotations.EditableAttribute` can be built in the model and is treated as editable; in .NET that name always denotes `EditableAttribute`, which is `Editable(allowEdit)`.
- Records.GetProperty: `GetValue` failures are not modelled: an indexer (`TargetParameterCountException`), a property without a getter, or a getter that throws.
- Text is a sequence of Dafny characters, which are Unicode scalar values; UTF-16 strings holding lone surrogates cannot be represented.
- The test project's console output and database access are not part of this model.
