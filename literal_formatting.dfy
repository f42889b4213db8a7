/**
  The SQL literal of one property value: a switch on the full name of the
  property type.  Nullable value types (System.Nullable`1[[...]]) match none
  of the named arms and take the last one, so a non-null int? is quoted.
 */
module LiteralFormatting {
  import opened Wrappers
  import opened DotNetText
  import opened DotNetValues
  import opened SqlSyntax
  import opened Records

  predicate IsNumericType(typeName: string)
  {
    typeName in {Int16Type, Int32Type, Int64Type, DecimalType, DoubleType}
  }

  /** The arms of the switch that are named; everything else is the default arm. */
  predicate IsNamedType(typeName: string)
  {
    typeName == StringType || typeName == GuidType || typeName == DateTimeType || IsNumericType(typeName)
  }

  /** FormatInsertSqlColumnDataBasedOnDataType: `property` is the property found
      on the item (None when the item is null or lacks it), with its value.
      Every result is one SQL value token, so it cannot spill into a
      neighbouring column. */
  function FormatInsertSqlColumnDataBasedOnDataType(property: Option<Field>): (r: string)
    requires property.Some? ==> WellTypedField(property.value)
    ensures IsValueToken(r)
  {
    match property
    case None => "null"
    case Some(Field(info, value)) =>
      var typeName := info.propertyType;
      if typeName == StringType then
        if value.None? then "''"
        else
          QuotedDoubledIsToken(ConvertToString(value.value));
          Quoted(DoubleQuotes(ConvertToString(value.value)))
      else if typeName == GuidType then
        if value.None? then "null"
        else
          GuidTextRoundTrip(value.value.guid);
          QuotedQuoteFree(ConvertToString(value.value));
          Quoted(ConvertToString(value.value))
      else if typeName == DateTimeType then
        if value.None? then "null"
        else
          SortableTextQuoteFree(value.value.dateTime);
          QuotedQuoteFree(SortableText(value.value.dateTime));
          Quoted(SortableText(value.value.dateTime))
      else if IsNumericType(typeName) then
        if value.None? then "null"
        else
          NumeralIsBareToken(value.value);
          ConvertToString(value.value)
      else
        if value.None? then "null"
        else
          QuotedDoubledIsToken(ConvertToString(value.value));
          Quoted(DoubleQuotes(ConvertToString(value.value)))
  }

  lemma SortableTextQuoteFree(d: DateTime)
    requires ValidDateTime(d)
    ensures QuoteFree(SortableText(d))
  {
    var t := SortableText(d);
    SortableTextFields(d);
    forall i | 0 <= i < |t|
      ensures t[i] != '\''
    {
      if i < 4 { assert t[i] == t[..4][i]; }
      else if 5 <= i < 7 { assert t[i] == t[5..7][i - 5]; }
      else if 8 <= i < 10 { assert t[i] == t[8..10][i - 8]; }
      else if 11 <= i < 13 { assert t[i] == t[11..13][i - 11]; }
      else if 14 <= i < 16 { assert t[i] == t[14..16][i - 14]; }
      else if 17 <= i < 19 { assert t[i] == t[17..19][i - 17]; }
    }
  }

  lemma NumeralIsBareToken(v: Value)
    requires v.Integer? || v.Number?
    ensures IsBareToken(ConvertToString(v))
  {
    if v.Integer? {
      DecimalTextChars(v.integer, 0);
    } else {
      DecimalTextChars(v.units, v.scale);
    }
  }

  /** A missing property (null item, or no such property on its type) is the bare
      token null; so is a null value of any type but string, where it is ''. */
  lemma NullRendering(property: Option<Field>)
    requires property.Some? ==> WellTypedField(property.value)
    requires property.Some? ==> property.value.value.None?
    ensures FormatInsertSqlColumnDataBasedOnDataType(property)
         == if property.Some? && property.value.property.propertyType == StringType then "''" else "null"
  {
  }

  /** A string value renders as a literal that reads back as the string itself;
      a null string reads back as the empty string, not as SQL NULL. */
  lemma StringLiteralRoundTrip(info: Property, value: Option<Value>)
    requires info.propertyType == StringType
    requires WellTypedField(Field(info, value))
    ensures ParseStringLiteral(FormatInsertSqlColumnDataBasedOnDataType(Some(Field(info, value))))
         == Some(if value.Some? then value.value.text else "")
  {
    if value.Some? {
      QuotedDoubledRoundTrip(value.value.text);
    } else {
      assert "''"[1..] == "'";
    }
  }

  /** The literal of a string holds its text with every quote doubled and no
      odd run of quotes, and undoubling the inside gives the text back. */
  lemma StringLiteralEscaping(info: Property, s: string)
    requires info.propertyType == StringType
    ensures var r := FormatInsertSqlColumnDataBasedOnDataType(Some(Field(info, Some(Text(s)))));
      && r == "'" + DoubleQuotes(s) + "'"
      && PairedQuotes(r[1..|r| - 1])
      && UndoubleQuotes(r[1..|r| - 1]) == s
  {
    var r := FormatInsertSqlColumnDataBasedOnDataType(Some(Field(info, Some(Text(s)))));
    assert r[1..|r| - 1] == DoubleQuotes(s);
    DoubleQuotesInverse(s);
  }

  /** A Guid renders as its 36-character text in quotes, reading back as the Guid. */
  lemma GuidLiteral(info: Property, g: Guid)
    requires info.propertyType == GuidType
    ensures var r := FormatInsertSqlColumnDataBasedOnDataType(Some(Field(info, Some(Uuid(g)))));
      && r == Quoted(GuidText(g))
      && |r| == 38
      && ParseStringLiteral(r) == Some(GuidText(g))
      && ParseGuidText(GuidText(g)) == Some(g)
  {
    GuidTextRoundTrip(g);
    QuotedQuoteFree(GuidText(g));
  }

  /** A DateTime renders as 'yyyy-MM-dd HH:mm:ss': 19 characters between the
      quotes, each component reading back from its place. */
  lemma DateTimeLiteral(info: Property, d: DateTime)
    requires info.propertyType == DateTimeType && ValidDateTime(d)
    ensures var r := FormatInsertSqlColumnDataBasedOnDataType(Some(Field(info, Some(Moment(d)))));
      && r == Quoted(SortableText(d))
      && |r| == 21
      && ParseStringLiteral(r) == Some(SortableText(d))
  {
    SortableTextFields(d);
    SortableTextQuoteFree(d);
    QuotedQuoteFree(SortableText(d));
  }

  /** A non-null number renders unquoted and reads back as the same number. */
  lemma NumericLiteral(info: Property, v: Value)
    requires IsNumericType(info.propertyType) && HoldsType(info.propertyType, v)
    ensures var r := FormatInsertSqlColumnDataBasedOnDataType(Some(Field(info, Some(v))));
      && IsBareToken(r)
      && ParseNumeral(r) == Some(if v.Integer? then (v.integer, 0) else (v.units, v.scale))
  {
    NumeralIsBareToken(v);
    if v.Integer? {
      IntTextRoundTrip(v.integer);
    } else {
      DecimalTextRoundTrip(v.units, v.scale);
    }
  }

  /** Any other type renders a non-null value as a quoted literal with quotes
      doubled, reading back as its Convert.ToString text. */
  lemma FallbackLiteral(info: Property, v: Value)
    requires !IsNamedType(info.propertyType) && HoldsType(info.propertyType, v)
    ensures var r := FormatInsertSqlColumnDataBasedOnDataType(Some(Field(info, Some(v))));
      && r == Quoted(DoubleQuotes(ConvertToString(v)))
      && ParseStringLiteral(r) == Some(ConvertToString(v))
  {
    QuotedDoubledRoundTrip(ConvertToString(v));
  }

  /** No Nullable<T> full name is one of the named arms. */
  lemma NullableIsNotNamed(inner: string)
    ensures !IsNamedType(NullableOf(inner))
  {
    var n := NullableOf(inner);
    assert n[7] == 'N';
    assert StringType[7] == 'S' && GuidType[7] == 'G' && DateTimeType[7] == 'D';
    assert Int16Type[7] == 'I' && Int32Type[7] == 'I' && Int64Type[7] == 'I';
    assert DecimalType[7] == 'D' && DoubleType[7] == 'D';
  }

  /** A non-null int? (or long?, short?) is emitted as a quoted literal, and a
      non-null decimal? or double? too: they fall to the default arm. */
  lemma NullableNumberIsQuoted(info: Property, inner: string, v: Value)
    requires info.propertyType == NullableOf(inner)
    requires v.Integer? || v.Number?
    ensures FormatInsertSqlColumnDataBasedOnDataType(Some(Field(info, Some(v))))
         == "'" + ConvertToString(v) + "'"
  {
    NullableIsNotNamed(inner);
    NumeralIsBareToken(v);
    NumeralQuoteFree(ConvertToString(v));
  }

  lemma NumeralQuoteFree(t: string)
    requires IsBareToken(t)
    ensures DoubleQuotes(t) == t
  {
    QuoteFreeUndoubled(t);
    UndoubleQuotesInverse(t);
  }
}
