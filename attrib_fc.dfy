/** The pure field-metadata helpers of an attribute-backed feature layer:
    the alias lookup, the date-type check, the re-keying of an attribute map
    from aliases to field names, and the column list handed to a data grid. */
module AttribFC {
  import opened Wrappers

  /** One entry of a layer's field definitions. The alias and the type are
      optional properties of the source's field objects. */
  datatype Field = Field(name: string, alias: Option<string>, fieldType: Option<string>)

  /** The field type whose values are dates. */
  const DateFieldType: string := "esriFieldTypeDate"

  /** JavaScript truthiness of an optional string: present and not empty. */
  predicate Truthy(s: Option<string>)
  {
    s.Some? && |s.value| > 0
  }

  // ---------------------------------------------------------------------------
  // Array.prototype.find on field names
  // ---------------------------------------------------------------------------

  /** `fields.find(field => field.name === name)`: the position of the first
      field with that name, None when there is none. */
  function FindNamed(fields: seq<Field>, name: string): (r: Option<nat>)
    ensures r.Some? ==> r.value < |fields| && fields[r.value].name == name
  {
    if fields == [] then None
    else if fields[0].name == name then Some(0)
    else match FindNamed(fields[1..], name)
      case None => None
      case Some(i) => Some(i + 1)
  }

  /** find reports nothing exactly when no field has the name, and otherwise the
      first field that has it. */
  lemma {:induction false} FindNamedIsFirst(fields: seq<Field>, name: string)
    ensures FindNamed(fields, name).None? <==> forall i :: 0 <= i < |fields| ==> fields[i].name != name
    ensures FindNamed(fields, name).Some? ==>
      forall i :: 0 <= i < FindNamed(fields, name).value ==> fields[i].name != name
  {
    if fields != [] && fields[0].name != name {
      FindNamedIsFirst(fields[1..], name);
      assert forall i :: 1 <= i < |fields| ==> fields[i] == fields[1..][i - 1];
    }
  }

  /** The first field with the given name, as find returns it. */
  function FieldNamed(fields: seq<Field>, name: string): (r: Option<Field>)
    ensures r.Some? ==> r.value in fields && r.value.name == name
  {
    match FindNamed(fields, name)
    case None => None
    case Some(i) => Some(fields[i])
  }

  /** FieldNamed is the field at the first position carrying the name. */
  lemma FieldNamedAt(fields: seq<Field>, name: string, i: nat)
    requires i < |fields| && fields[i].name == name
    requires forall k :: 0 <= k < i ==> fields[k].name != name
    ensures FieldNamed(fields, name) == Some(fields[i])
  {
    FindNamedIsFirst(fields, name);
    var j := FindNamed(fields, name).value;
    assert fields[j].name == name;
    assert !(j < i) && !(i < j);
  }

  /** FieldNamed is None exactly when no field has the name. */
  lemma FieldNamedAbsent(fields: seq<Field>, name: string)
    ensures FieldNamed(fields, name).None? <==> forall f :: f in fields ==> f.name != name
  {
    FindNamedIsFirst(fields, name);
  }

  // ---------------------------------------------------------------------------
  // aliasedFieldNameDirect
  // ---------------------------------------------------------------------------

  /** aliasedFieldNameDirect(attribName, fields): the alias of the first field
      named attribName when that alias is present and not empty, otherwise
      attribName itself. A missing fields list leaves the name as it is. */
  function AliasedFieldNameDirect(attribName: string, fields: Option<seq<Field>>): (fName: string)
    ensures fName == attribName || (fields.Some? && exists f :: f in fields.value && f.name == attribName && f.alias == Some(fName))
  {
    if fields.None? then attribName
    else match FieldNamed(fields.value, attribName)
      case None => attribName
      case Some(f) => if Truthy(f.alias) then f.alias.value else attribName
  }

  /** No fields, or no field with the name: the name comes back unchanged. */
  lemma AliasedNameWithoutMatch(attribName: string, fields: Option<seq<Field>>)
    requires fields.None? || forall f :: f in fields.value ==> f.name != attribName
    ensures AliasedFieldNameDirect(attribName, fields) == attribName
  {
    if fields.Some? {
      FieldNamedAbsent(fields.value, attribName);
    }
  }

  /** Only the first field with the name is consulted: its non-empty alias is
      used, and an absent or empty alias gives back the name, whatever later
      fields with the same name say. */
  lemma AliasedNameFirstMatch(attribName: string, fields: seq<Field>, i: nat)
    requires i < |fields| && fields[i].name == attribName
    requires forall k :: 0 <= k < i ==> fields[k].name != attribName
    ensures Truthy(fields[i].alias) ==> AliasedFieldNameDirect(attribName, Some(fields)) == fields[i].alias.value
    ensures !Truthy(fields[i].alias) ==> AliasedFieldNameDirect(attribName, Some(fields)) == attribName
  {
    FieldNamedAt(fields, attribName, i);
  }

  // ---------------------------------------------------------------------------
  // checkDateType
  // ---------------------------------------------------------------------------

  /** The checkDateType callback: true when the first field named attribName has
      a type, and that type is the date type; false otherwise, including when
      there are no fields or no field of that name. */
  function CheckDateType(attribName: string, fields: Option<seq<Field>>): (isDate: bool)
    ensures isDate ==> fields.Some? && exists f :: f in fields.value && f.name == attribName && f.fieldType == Some(DateFieldType)
  {
    if fields.None? then false
    else match FieldNamed(fields.value, attribName)
      case None => false
      case Some(f) => if Truthy(f.fieldType) then f.fieldType.value == DateFieldType else false
  }

  /** The date check in full: true exactly when the fields are there and the
      first field with the name has the date type. */
  lemma CheckDateTypeExactly(attribName: string, fields: seq<Field>, i: nat)
    requires i < |fields| && fields[i].name == attribName
    requires forall k :: 0 <= k < i ==> fields[k].name != attribName
    ensures CheckDateType(attribName, Some(fields)) <==> fields[i].fieldType == Some(DateFieldType)
  {
    FieldNamedAt(fields, attribName, i);
  }

  /** No fields, or no field with the name: not a date. */
  lemma CheckDateTypeWithoutMatch(attribName: string, fields: Option<seq<Field>>)
    requires fields.None? || forall f :: f in fields.value ==> f.name != attribName
    ensures !CheckDateType(attribName, fields)
  {
    if fields.Some? {
      FieldNamedAbsent(fields.value, attribName);
    }
  }

  // ---------------------------------------------------------------------------
  // unAliasAttribs
  // ---------------------------------------------------------------------------

  /** The value unAliasAttribs stores for one field: the attribute under the
      field's name when there is one, else the attribute under its alias, else
      nothing (the source stores undefined). */
  function ValueFor<V>(attribs: map<string, V>, field: Field): (v: Option<V>)
    ensures field.name in attribs ==> v == Some(attribs[field.name])
    ensures field.name !in attribs && field.alias.Some? && field.alias.value in attribs ==> v == Some(attribs[field.alias.value])
    ensures v.None? <==> field.name !in attribs && (field.alias.None? || field.alias.value !in attribs)
  {
    if field.name in attribs then Some(attribs[field.name])
    else if field.alias.Some? && field.alias.value in attribs then Some(attribs[field.alias.value])
    else None
  }

  /** The dictionary the forEach has built after visiting fields in order. */
  function UnAliased<V>(attribs: map<string, V>, fields: seq<Field>): map<string, Option<V>>
  {
    if fields == [] then map[]
    else
      var last := fields[|fields| - 1];
      UnAliased(attribs, fields[..|fields| - 1])[last.name := ValueFor(attribs, last)]
  }

  /** The set of names that the fields carry. */
  function Names(fields: seq<Field>): set<string>
  {
    set f | f in fields :: f.name
  }

  /** unAliasAttribs(attribs, fields): a fresh dictionary with one entry per
      field name, filled field by field. */
  method UnAliasAttribs<V>(attribs: map<string, V>, fields: seq<Field>) returns (newA: map<string, Option<V>>)
    ensures newA == UnAliased(attribs, fields)
  {
    newA := map[];
    for i := 0 to |fields|
      invariant newA == UnAliased(attribs, fields[..i])
    {
      assert fields[..i + 1][..i] == fields[..i];
      newA := newA[fields[i].name := ValueFor(attribs, fields[i])];
    }
    assert fields[..|fields|] == fields;
  }

  /** The keys of the result are exactly the field names: every field gets an
      entry, even one with no value, and nothing else is carried over. */
  lemma {:induction false} UnAliasedKeys<V>(attribs: map<string, V>, fields: seq<Field>)
    ensures UnAliased(attribs, fields).Keys == Names(fields)
  {
    if fields != [] {
      var init := fields[..|fields| - 1];
      UnAliasedKeys(attribs, init);
      assert fields == init + [fields[|fields| - 1]];
      assert Names(fields) == Names(init) + {fields[|fields| - 1].name};
    }
  }

  /** For a field that no later field shares a name with, its entry is the value
      ValueFor picks: the last field of a repeated name decides. */
  lemma {:induction false} UnAliasedLastWins<V>(attribs: map<string, V>, fields: seq<Field>, i: nat)
    requires i < |fields|
    requires forall k :: i < k < |fields| ==> fields[k].name != fields[i].name
    ensures fields[i].name in UnAliased(attribs, fields)
    ensures UnAliased(attribs, fields)[fields[i].name] == ValueFor(attribs, fields[i])
  {
    var init := fields[..|fields| - 1];
    if i < |fields| - 1 {
      assert forall k :: i < k < |init| ==> init[k] == fields[k];
      UnAliasedLastWins(attribs, init, i);
    }
  }

  /** The name key wins over the alias key when both are present. */
  lemma NameKeyWins<V>(attribs: map<string, V>, fields: seq<Field>, i: nat)
    requires i < |fields| && fields[i].name in attribs
    requires fields[i].alias.Some? && fields[i].alias.value in attribs
    requires forall k :: i < k < |fields| ==> fields[k].name != fields[i].name
    ensures fields[i].name in UnAliased(attribs, fields)
    ensures UnAliased(attribs, fields)[fields[i].name] == Some(attribs[fields[i].name])
  {
    UnAliasedLastWins(attribs, fields, i);
  }

  /** An attribute stored under an alias is moved to its field name, and a
      field with no matching attribute still gets a key, with no value. */
  lemma AliasKeyIsRenamed()
    ensures UnAliased(map["POP" := 5], [Field("population", Some("POP"), None), Field("area", None, None)])
         == map["population" := Some(5), "area" := None]
  {
    var f1, f2 := Field("population", Some("POP"), None), Field("area", None, None);
    var fields := [f1, f2];
    assert fields[..1] == [f1] && [f1][..0] == [];
    assert ValueFor(map["POP" := 5], f1) == Some(5);
  }

  // ---------------------------------------------------------------------------
  // getFormattedAttributes: the column list
  // ---------------------------------------------------------------------------

  /** A data-grid column: the attribute key it shows and its heading. */
  datatype Column = Column(data: string, title: string)

  /** `{ data: field.name, title: field.alias || field.name }`. */
  function ColumnOf(field: Field): (c: Column)
    ensures c.data == field.name
    ensures Truthy(field.alias) ==> c.title == field.alias.value
    ensures !Truthy(field.alias) ==> c.title == field.name
  {
    Column(field.name, if Truthy(field.alias) then field.alias.value else field.name)
  }

  /** `fields.filter(field => attributes.hasOwnProperty(field.name))`, where
      attributes are those of the first feature. */
  function KeptFields<V>(fields: seq<Field>, attributes: map<string, V>): seq<Field>
  {
    if fields == [] then []
    else (if fields[0].name in attributes then [fields[0]] else []) + KeptFields(fields[1..], attributes)
  }

  /** The filter keeps exactly the fields whose name is an attribute key. */
  lemma {:induction false} KeptFieldsMembers<V>(fields: seq<Field>, attributes: map<string, V>)
    ensures forall f :: f in KeptFields(fields, attributes) <==> f in fields && f.name in attributes
  {
    if fields != [] {
      KeptFieldsMembers(fields[1..], attributes);
      assert fields == [fields[0]] + fields[1..];
    }
  }

  /** The filter keeps the fields in their order: filtering a concatenation is
      concatenating the filtered parts. */
  lemma {:induction false} KeptFieldsAppend<V>(a: seq<Field>, b: seq<Field>, attributes: map<string, V>)
    ensures KeptFields(a + b, attributes) == KeptFields(a, attributes) + KeptFields(b, attributes)
  {
    if a == [] {
      assert a + b == b;
    } else {
      assert (a + b)[0] == a[0] && (a + b)[1..] == a[1..] + b;
      KeptFieldsAppend(a[1..], b, attributes);
      var h := if a[0].name in attributes then [a[0]] else [];
      assert KeptFields(a + b, attributes) == h + KeptFields(a[1..] + b, attributes);
      assert KeptFields(a, attributes) == h + KeptFields(a[1..], attributes);
    }
  }

  /** The filter never keeps more fields than it was given. */
  lemma {:induction false} KeptFieldsLength<V>(fields: seq<Field>, attributes: map<string, V>)
    ensures |KeptFields(fields, attributes)| <= |fields|
  {
    if fields != [] {
      KeptFieldsLength(fields[1..], attributes);
    }
  }

  /** The columns of getFormattedAttributes, given the field definitions and the
      attributes of the first feature. */
  function FormattedColumns<V>(fields: seq<Field>, attributes: map<string, V>): (columns: seq<Column>)
    ensures |columns| == |KeptFields(fields, attributes)|
  {
    var kept := KeptFields(fields, attributes);
    seq(|kept|, i requires 0 <= i < |kept| => ColumnOf(kept[i]))
  }

  /** Every column shows an attribute key of the first feature, each column
      comes from a field, and every field whose name is such a key yields a
      column. */
  lemma FormattedColumnsCover<V>(fields: seq<Field>, attributes: map<string, V>)
    ensures forall c :: c in FormattedColumns(fields, attributes) ==> c.data in attributes
    ensures forall c :: c in FormattedColumns(fields, attributes) ==> exists f :: f in fields && c == ColumnOf(f)
    ensures forall f :: f in fields && f.name in attributes ==> ColumnOf(f) in FormattedColumns(fields, attributes)
  {
    KeptFieldsMembers(fields, attributes);
    var kept := KeptFields(fields, attributes);
    var columns := FormattedColumns(fields, attributes);
    forall c | c in columns
      ensures c.data in attributes && exists f :: f in fields && c == ColumnOf(f)
    {
      var i :| 0 <= i < |columns| && columns[i] == c;
      assert kept[i] in kept;
      assert c == ColumnOf(kept[i]);
    }
    forall f | f in fields && f.name in attributes
      ensures ColumnOf(f) in columns
    {
      assert f in kept;
      var i :| 0 <= i < |kept| && kept[i] == f;
      assert columns[i] == ColumnOf(f);
    }
  }

  /** A column's heading is the name aliasedFieldNameDirect gives its key, when
      the field is the first one with that name. */
  lemma ColumnTitleIsAliasedName(fields: seq<Field>, i: nat)
    requires i < |fields|
    requires forall k :: 0 <= k < i ==> fields[k].name != fields[i].name
    ensures ColumnOf(fields[i]).title == AliasedFieldNameDirect(fields[i].name, Some(fields))
  {
    AliasedNameFirstMatch(fields[i].name, fields, i);
  }
}
