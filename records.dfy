/**
  What reflection gives the generator: the properties of the record type T in
  the order GetProperties returns them (name, the full name of the property
  type, custom attributes in the order CustomAttributes returns them) and, for
  each item, the properties its run-time type exposes by name
  together with their values.
 */
module Records {
  import opened Wrappers
  import opened DotNetValues

  // Full names of the property types the formatting switch singles out.
  const StringType := "System.String"
  const GuidType := "System.Guid"
  const DateTimeType := "System.DateTime"
  const Int16Type := "System.Int16"
  const Int32Type := "System.Int32"
  const Int64Type := "System.Int64"
  const DecimalType := "System.Decimal"
  const DoubleType := "System.Double"
  const BooleanType := "System.Boolean"

  /** The full name .NET gives Nullable<T>, from T's assembly-qualified name. */
  function NullableOf(assemblyQualifiedName: string): string
  {
    "System.Nullable`1[[" + assemblyQualifiedName + "]]"
  }

  /** A custom attribute.  EditableAttribute has a single constructor, taking
      the boolean allowEdit; every other attribute is known by its full name. */
  datatype Attribute = Editable(allowEdit: bool) | OtherAttribute(fullName: string)

  /** A PropertyInfo: name, full name of the property type, custom attributes. */
  datatype Property = Property(name: string, propertyType: string, customAttributes: seq<Attribute>)

  /** A property found on an item, with the value GetValue reads from it (None for null). */
  datatype Field = Field(property: Property, value: Option<Value>)

  /** An element of the collection: a null reference, or an object whose run-time
      type exposes these properties by name. */
  datatype Item = Null | Instance(properties: map<string, Field>)

  /** What the .NET type system guarantees of a value held by a property of the
      named type. */
  predicate HoldsType(typeName: string, v: Value)
  {
    && ValidValue(v)
    && (typeName == StringType ==> v.Text?)
    && (typeName == GuidType ==> v.Uuid?)
    && (typeName == DateTimeType ==> v.Moment?)
    && (typeName == Int16Type ==> v.Integer? && -0x8000 <= v.integer < 0x8000)
    && (typeName == Int32Type ==> v.Integer? && -0x8000_0000 <= v.integer < 0x8000_0000)
    && (typeName == Int64Type ==>
          v.Integer? && -0x8000_0000_0000_0000 <= v.integer < 0x8000_0000_0000_0000)
    && (typeName == DecimalType ==>
          v.Number? && v.scale <= 28 && Magnitude(v.units) < 0x1_0000_0000_0000_0000_0000_0000)
    && (typeName == DoubleType ==> v.Number?)
    && (typeName == BooleanType ==> v.Boolean?)
  }

  predicate WellTypedField(f: Field)
  {
    f.value.Some? ==> HoldsType(f.property.propertyType, f.value.value)
  }

  /** An object as the run time presents it: each property is found under its
      own name and holds a value of its declared type. */
  predicate WellTypedItem(item: Item)
  {
    item.Instance? ==>
      forall name :: name in item.properties ==>
        item.properties[name].property.name == name && WellTypedField(item.properties[name])
  }

  /** item?.GetType().GetProperty(name): None when the item is null or its
      run-time type has no property of that name. */
  function GetProperty(item: Item, name: string): (r: Option<Field>)
    ensures item.Null? ==> r.None?
    ensures item.Instance? ==> (r.Some? <==> name in item.properties)
    ensures WellTypedItem(item) && r.Some? ==> r.value.property.name == name && WellTypedField(r.value)
  {
    match item
    case Null => None
    case Instance(properties) => if name in properties then Some(properties[name]) else None
  }

  /** The item is an object of type T: each property of T is found on it under
      its own name, with the same metadata. */
  predicate IsInstanceOf(item: Item, properties: seq<Property>)
  {
    && item.Instance?
    && forall p :: p in properties ==> p.name in item.properties && item.properties[p.name].property == p
  }
}
