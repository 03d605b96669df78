/**
 * The shared data model of the query-template engine: component types,
 * parameter values, parsed parameters, parse errors, parse results and the
 * descriptors held by the component registry.
 */
module QueryModel {
  import opened Wrappers
  import opened Text

  /** The closed set of render component types a placeholder may name. */
  datatype RenderComponentType = StringInput | NumberInput | FormTypes | Tags
  {
    function Name(): string {
      match this
      case StringInput => "StringInput"
      case NumberInput => "NumberInput"
      case FormTypes => "FormTypes"
      case Tags => "Tags"
    }
  }

  /** The four types in declaration order (the order of the parser's set of valid types). */
  const AllComponentTypes: seq<RenderComponentType> := [StringInput, NumberInput, FormTypes, Tags]

  /** The component type called `name`, if there is one. */
  function ComponentTypeNamed(name: string): (r: Option<RenderComponentType>)
    ensures r.Some? ==> r.value.Name() == name
    ensures r.None? <==> forall t: RenderComponentType :: t.Name() != name
  {
    if name == "StringInput" then Some(StringInput)
    else if name == "NumberInput" then Some(NumberInput)
    else if name == "FormTypes" then Some(FormTypes)
    else if name == "Tags" then Some(Tags)
    else None
  }

  /**
   * A parameter value: `string | number | string[]`. Numbers are integers
   * here; JavaScript's floating point is not part of this model.
   */
  datatype Value = Str(s: string) | Num(n: int) | StrArray(items: seq<string>)

  /** `String(value)`: text as is, a number in decimal, an array joined with commas. */
  function ValueToText(v: Value): string {
    match v
    case Str(s) => s
    case Num(n) => IntToString(n)
    case StrArray(items) => Join(items, ",")
  }

  /**
   * One placeholder found in a query. `index` is its position in the values
   * array; `startIndex` and `endIndex` delimit `rawMatch` in the query.
   */
  datatype QueryParameter = QueryParameter(
    labelText: string,  // the source's `label` (a keyword here)
    componentType: RenderComponentType,
    defaultValue: string,
    index: nat,
    rawMatch: string,
    startIndex: nat,
    endIndex: nat)

  /** A syntax error and the span `[startIndex, endIndex)` it refers to. */
  datatype QueryParseError = QueryParseError(message: string, startIndex: nat, endIndex: nat)

  /** The result of parsing: parameters in order of appearance, and all errors. */
  datatype ParsedQuery = ParsedQuery(
    originalQuery: string,
    parameters: seq<QueryParameter>,
    isValid: bool,
    errors: seq<QueryParseError>)

  /**
   * A registry descriptor: `compile` gives the text to insert for a value,
   * `defaultValue` is what `getDefaultValue()` returns, and the optional
   * `validate` gives an error message or `None` for a valid value.
   */
  datatype RenderComponentConfig = RenderComponentConfig(
    typeName: string,
    displayName: string,
    compile: Value -> string,
    defaultValue: Value,
    validate: Option<Value -> Option<string>>)
}
