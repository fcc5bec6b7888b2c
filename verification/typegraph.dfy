/** The records the generator assembles before rendering: struct fields,
    structs, enums, flag lists and the per-artifact type file, plus the
    table from schema value types to Go types. */
module TypeGraph {
  import opened Sequences

  /** One field of a generated struct. `jsonName` is the schema key, kept
      verbatim for the wire format; `name` is the Go identifier. */
  datatype Field = Field(name: string, jsonName: string, typ: string, description: seq<string>)

  /** A generated struct type. */
  datatype Struct = Struct(name: string, description: string, fields: seq<Field>)

  /** One legal raw value of an enumerated attribute and the identifier
      synthesised for it. */
  datatype EnumValue = EnumValue(value: string, ident: string)

  /** A generated enum type. */
  datatype EnumFile = EnumFile(name: string, values: seq<EnumValue>)

  /** A generated flag-list type: the flags that may be OR-combined. */
  datatype FlagList = FlagList(name: string, flags: seq<string>)

  /** Everything one artifact renders: the main struct, the nested structs,
      enums and flag lists the attribute walker registered. */
  datatype TypeFile = TypeFile(mainType: Struct, objects: seq<Struct>, enums: seq<EnumFile>, flagLists: seq<FlagList>)

  /** Sort keys: the field name and the enum name. */
  function FieldName(f: Field): string { f.name }
  function EnumName(e: EnumFile): string { e.name }

  /** The names of fields and of enums, in list order. */
  function FieldNames(fs: seq<Field>): seq<string> { Names(fs, FieldName) }
  function EnumNames(es: seq<EnumFile>): seq<string> { Names(es, EnumName) }

  /** The number of enum values held by `es` altogether. */
  function TotalValues(es: seq<EnumFile>): nat
  {
    if |es| == 0 then 0 else TotalValues(es[..|es| - 1]) + |es[|es| - 1].values|
  }

  /** The value-type tags of the schema that the generator maps to Go types. */
  datatype ValType =
    | DataArray | Enumerated | Boolean | Number | Integer | String | Color
    | Colorlist | Colorscale | Angle | SubplotId | FlagListType | Any | InfoArray

  /** `valTypeMap`: the Go type written for a leaf attribute of each value type.
      Enumerated and flag-list attributes get a synthesised type instead, and the
      table marks them with the placeholder "NO-TYPE". */
  function GoType(t: ValType): (r: string)
    ensures r == "NO-TYPE" <==> t.Enumerated? || t.FlagListType?
    ensures r == "interface{}" <==> t.DataArray? || t.Any? || t.InfoArray?
    ensures r == "float64" <==> t.Number? || t.Angle?
    ensures r == "String" <==> t.String? || t.SubplotId?
    ensures r == "int64" <==> t.Integer?
    ensures r == "Bool" <==> t.Boolean?
    ensures r == "Color" <==> t.Color?
    ensures r == "ColorList" <==> t.Colorlist?
    ensures r == "ColorScale" <==> t.Colorscale?
  {
    match t
    case DataArray => "interface{}"
    case Enumerated => "NO-TYPE"
    case Boolean => "Bool"
    case Number => "float64"
    case Integer => "int64"
    case String => "String"
    case Color => "Color"
    case Colorlist => "ColorList"
    case Colorscale => "ColorScale"
    case Angle => "float64"
    case SubplotId => "String"
    case FlagListType => "NO-TYPE"
    case Any => "interface{}"
    case InfoArray => "interface{}"
  }
}
