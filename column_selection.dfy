/**
  The column list of the statement: the properties of T that may be written,
  in GetProperties order, each name in double quotes, joined by commas.
 */
module ColumnSelection {
  import opened DotNetText
  import opened SqlSyntax
  import opened Records

  /** A property is left out only when its FIRST custom attribute is
      [Editable(false)]; an [Editable(false)] in any later position is ignored. */
  function PropertyShouldBeEditable(p: Property): (r: bool)
    ensures (forall a :: a in p.customAttributes ==> a != Editable(false)) ==> r
    ensures |p.customAttributes| > 0 && p.customAttributes[0] == Editable(false) ==> !r
  {
    if |p.customAttributes| > 0 && p.customAttributes[0] == Editable(false) then
      assert p.customAttributes[0] in p.customAttributes;
      false
    else
      true
  }

  /** Only the first custom attribute decides: two properties whose attribute
      lists start alike are treated alike, whatever follows. */
  lemma LaterAttributesIgnored(p: Property, q: Property)
    requires |p.customAttributes| > 0 && |q.customAttributes| > 0
    requires p.customAttributes[0] == q.customAttributes[0]
    ensures PropertyShouldBeEditable(p) == PropertyShouldBeEditable(q)
  {
  }

  /** propertyInfo.Where(x => propertyShouldBeEditable(x)), order kept. */
  function EditableProperties(properties: seq<Property>): (r: seq<Property>)
    ensures |r| <= |properties|
    ensures forall p :: p in r <==> p in properties && PropertyShouldBeEditable(p)
    decreases |properties|
  {
    if properties == [] then []
    else
      var last := properties[|properties| - 1];
      EditableProperties(properties[..|properties| - 1]) + (if PropertyShouldBeEditable(last) then [last] else [])
  }

  /** The filter keeps order: filtering a concatenation concatenates the filtered parts. */
  lemma {:induction false} EditablePropertiesAppend(a: seq<Property>, b: seq<Property>)
    ensures EditableProperties(a + b) == EditableProperties(a) + EditableProperties(b)
    decreases |b|
  {
    if b == [] {
      assert a + b == a;
    } else {
      var b' := b[..|b| - 1];
      var last := b[|b| - 1];
      var kept := if PropertyShouldBeEditable(last) then [last] else [];
      assert (a + b)[..|a + b| - 1] == a + b';
      assert (a + b)[|a + b| - 1] == last;
      assert EditableProperties(a + b) == EditableProperties(a + b') + kept;
      assert EditableProperties(b) == EditableProperties(b') + kept;
      EditablePropertiesAppend(a, b');
      assert EditableProperties(a) + EditableProperties(b') + kept == EditableProperties(a) + (EditableProperties(b') + kept);
    }
  }

  /** The name in double quotes, as the header shows it. */
  function QuoteName(name: string): string
  {
    "\"" + name + "\""
  }

  /** The quoted names of the editable properties, in order: one column per
      editable property, and a name is listed exactly when some editable
      property has it. */
  function ColumnNames(properties: seq<Property>): (r: seq<string>)
    ensures |r| == |EditableProperties(properties)|
    ensures forall name ::
      (QuoteName(name) in r <==> exists p :: p in properties && PropertyShouldBeEditable(p) && p.name == name)
  {
    var editable := EditableProperties(properties);
    var names := seq(|editable|, k requires 0 <= k < |editable| => QuoteName(editable[k].name));
    QuotedNamesExactly(properties, names);
    names
  }

  /** string.Join(',', inserColumnsCollection). */
  function ColumnList(properties: seq<Property>): string
  {
    Join(",", ColumnNames(properties))
  }

  lemma QuoteNameInjective(a: string, b: string)
    requires QuoteName(a) == QuoteName(b)
    ensures a == b
  {
    assert a == QuoteName(a)[1..|QuoteName(a)| - 1];
  }

  /** Quoting the names of the editable properties lists a name exactly when
      some editable property has it: a name shared by no editable property
      never appears. */
  lemma QuotedNamesExactly(properties: seq<Property>, names: seq<string>)
    requires |names| == |EditableProperties(properties)|
    requires forall k :: 0 <= k < |names| ==> names[k] == QuoteName(EditableProperties(properties)[k].name)
    ensures forall name ::
      (QuoteName(name) in names <==> exists p :: p in properties && PropertyShouldBeEditable(p) && p.name == name)
  {
    var editable := EditableProperties(properties);
    forall name
      ensures QuoteName(name) in names <==> exists p :: p in properties && PropertyShouldBeEditable(p) && p.name == name
    {
      if QuoteName(name) in names {
        var k :| 0 <= k < |names| && names[k] == QuoteName(name);
        QuoteNameInjective(editable[k].name, name);
        assert editable[k] in editable;
      }
      if p :| p in properties && PropertyShouldBeEditable(p) && p.name == name {
        assert p in editable;
        var k :| 0 <= k < |editable| && editable[k] == p;
        assert names[k] == QuoteName(name);
      }
    }
  }

  /** The header lists the columns in property order: the columns of a
      concatenation are the columns of its parts, one after the other. */
  lemma ColumnNamesAppend(a: seq<Property>, b: seq<Property>)
    ensures ColumnNames(a + b) == ColumnNames(a) + ColumnNames(b)
  {
    EditablePropertiesAppend(a, b);
    var ea: seq<Property> := EditableProperties(a);
    var eb: seq<Property> := EditableProperties(b);
    assert EditableProperties(a + b) == ea + eb;
    var left: seq<string> := ColumnNames(a + b);
    var right: seq<string> := ColumnNames(a) + ColumnNames(b);
    assert |left| == |right|;
    forall k | 0 <= k < |left|
      ensures left[k] == right[k]
    {
      ColumnNameAt(a + b, k);
      if k < |ea| {
        ColumnNameAt(a, k);
      } else {
        ColumnNameAt(b, k - |ea|);
      }
    }
  }

  /** The k-th column is the quoted name of the k-th editable property. */
  lemma ColumnNameAt(properties: seq<Property>, k: nat)
    requires k < |EditableProperties(properties)|
    ensures k < |ColumnNames(properties)|
    ensures ColumnNames(properties)[k] == QuoteName(EditableProperties(properties)[k].name)
  {
  }

  /** A property name the way C# allows it: no comma, single quote or line break. */
  predicate PlainName(name: string)
  {
    forall i :: 0 <= i < |name| ==> name[i] != ',' && name[i] != '\'' && name[i] != '\r' && name[i] != '\n'
  }

  /** A C#-style name in double quotes is one bare token. */
  lemma QuotedPlainIsToken(name: string)
    requires PlainName(name)
    ensures IsBareToken(QuoteName(name))
  {
    var q := QuoteName(name);
    forall i | 0 <= i < |q|
      ensures q[i] != '\'' && q[i] != ',' && q[i] != '\r' && q[i] != '\n'
    {
      if 0 < i < |q| - 1 {
        assert q[i] == name[i - 1];
      }
    }
  }

  /** With plain names, the column list splits at its commas into exactly the
      quoted editable names: the header names as many columns as there are
      editable properties. */
  lemma ColumnListSplits(properties: seq<Property>)
    requires forall p :: p in properties ==> PlainName(p.name)
    requires |EditableProperties(properties)| > 0
    ensures SplitValues(ColumnList(properties)) == ColumnNames(properties)
  {
    var editable := EditableProperties(properties);
    var columns := ColumnNames(properties);
    forall k | 0 <= k < |columns|
      ensures IsValueToken(columns[k])
    {
      assert columns[k] == QuoteName(editable[k].name);
      assert editable[k] in editable;
      QuotedPlainIsToken(editable[k].name);
    }
    SplitJoinedValues(columns);
  }
}
