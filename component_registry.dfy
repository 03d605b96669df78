/**
 * The component registry: a mutable map from component type name to its
 * descriptor, seeded with the four built-in descriptors and open to
 * overwriting through `register`.
 */
module ComponentRegistry {
  import opened Wrappers
  import opened Text
  import opened QueryModel
  import opened QueryParser
  import opened QueryCompiler

  // ---------------------------------------------------------------------------
  // The built-in descriptors
  // ---------------------------------------------------------------------------

  /** StringInput and FormTypes: `String(value ?? '')` in single quotes, each quote doubled. */
  function QuoteCompile(v: Value): string
  {
    QuoteSql(ValueToText(v))
  }

  /**
   * NumberInput: a text is read with `parseFloat`, anything else with
   * `Number` (an array through its comma-joined text); NaN compiles to `0`.
   */
  function NumberCompile(v: Value): string
  {
    var num := match v
      case Str(s) => ParseNumber(s)
      case Num(n) => Some(n)
      case StrArray(items) => StrictNumber(Join(items, ","));
    if num.None? then "0" else IntToString(num.value)
  }

  const NotANumber := "Value must be a number"

  /** NumberInput's validator: a number, or a text `parseFloat` reads. */
  function NumberValidate(v: Value): Option<string>
  {
    if NumericValue(v).None? then Some(NotANumber) else None
  }

  /** The built-in descriptor of each component type. */
  function DefaultConfig(t: RenderComponentType): (c: RenderComponentConfig)
    ensures c.typeName == t.Name()
  {
    match t
    case StringInput => RenderComponentConfig("StringInput", "Text Input", QuoteCompile, Str(""), None)
    case NumberInput => RenderComponentConfig("NumberInput", "Number Input", NumberCompile, Num(0), Some(NumberValidate))
    case FormTypes => RenderComponentConfig("FormTypes", "Form Type", QuoteCompile, Str(""), None)
    case Tags => RenderComponentConfig("Tags", "Tags", CompileTagsValue, StrArray([]), None)
  }

  /** The registry after the first `n` built-in descriptors have been set, in declaration order. */
  function DefaultsUpTo(n: nat): map<string, RenderComponentConfig>
    requires n <= |AllComponentTypes|
  {
    if n == 0 then map[]
    else DefaultsUpTo(n - 1)[AllComponentTypes[n - 1].Name() := DefaultConfig(AllComponentTypes[n - 1])]
  }

  /** The registry a new service holds. */
  function DefaultRegistry(): map<string, RenderComponentConfig>
  {
    map["StringInput" := DefaultConfig(StringInput), "NumberInput" := DefaultConfig(NumberInput),
        "FormTypes" := DefaultConfig(FormTypes), "Tags" := DefaultConfig(Tags)]
  }

  /** Setting the built-in descriptors one by one: each goes under a name not yet taken, and all four give the registry above. */
  lemma DefaultsInOrder(i: nat)
    requires i < |AllComponentTypes|
    ensures DefaultConfig(AllComponentTypes[i]).typeName == ValidTypeNames[i] && ValidTypeNames[i] !in DefaultsUpTo(i)
    ensures DefaultsUpTo(|AllComponentTypes|) == DefaultRegistry()
  {
    assert DefaultsUpTo(1) == map["StringInput" := DefaultConfig(StringInput)];
    assert DefaultsUpTo(2) == map["StringInput" := DefaultConfig(StringInput), "NumberInput" := DefaultConfig(NumberInput)];
    assert DefaultsUpTo(3) == map["StringInput" := DefaultConfig(StringInput), "NumberInput" := DefaultConfig(NumberInput),
                                  "FormTypes" := DefaultConfig(FormTypes)];
  }

  /** The built-in registry is well formed: four distinct names, each holding its own descriptor. */
  lemma DefaultRegistryWellFormed()
    ensures Distinct(ValidTypeNames)
    ensures forall k :: k in DefaultRegistry() <==> k in ValidTypeNames
    ensures forall k :: k in DefaultRegistry() ==> DefaultRegistry()[k].typeName == k
  {
  }

  /** A key order holding each key once. */
  predicate Distinct(order: seq<string>)
  {
    forall i, j :: 0 <= i < j < |order| ==> order[i] != order[j]
  }

  // ---------------------------------------------------------------------------
  // The service
  // ---------------------------------------------------------------------------

  /**
   * `ComponentRegistryService`. The JavaScript `Map` is the map `registry`
   * together with `order`, its keys in insertion order.
   */
  class ComponentRegistryService {
    var registry: map<string, RenderComponentConfig>
    var order: seq<string>

    /** `order` lists the keys once each; every descriptor sits under its own type name. */
    ghost predicate Valid()
      reads this
    {
      && Distinct(order)
      && (forall k :: k in registry <==> k in order)
      && (forall k :: k in registry ==> registry[k].typeName == k)
    }

    /** A new registry holds the four built-in descriptors, in declaration order. */
    constructor()
      ensures Valid()
      ensures registry == DefaultRegistry() && order == ValidTypeNames
    {
      registry := map[];
      order := [];
      new;
      RegisterDefaults();
    }

    /** `Map.set`: a new key goes last in the order, an existing key keeps its place. */
    method Set(key: string, config: RenderComponentConfig)
      modifies this
      ensures registry == old(registry)[key := config]
      ensures order == if key in old(registry) then old(order) else old(order) + [key]
    {
      if key !in registry {
        order := order + [key];
      }
      registry := registry[key := config];
    }

    /** `registerDefaults`: sets each built-in descriptor, as the constructor does once. */
    method RegisterDefaults()
      requires registry == map[] && order == []
      modifies this
      ensures Valid()
      ensures registry == DefaultRegistry() && order == ValidTypeNames
    {
      for i := 0 to |AllComponentTypes|
        invariant registry == DefaultsUpTo(i)
        invariant order == ValidTypeNames[..i]
      {
        var config := DefaultConfig(AllComponentTypes[i]);
        DefaultsInOrder(i);
        Set(config.typeName, config);
        assert ValidTypeNames[..i + 1] == ValidTypeNames[..i] + [ValidTypeNames[i]];
      }
      DefaultsInOrder(0);
      DefaultRegistryWellFormed();
      assert ValidTypeNames[..|AllComponentTypes|] == ValidTypeNames;
    }

    /** `register`: adds a descriptor or overwrites the one of the same type; every other entry stays. */
    method Register(config: RenderComponentConfig)
      requires Valid()
      modifies this
      ensures Valid()
      ensures registry == old(registry)[config.typeName := config]
      ensures order == if config.typeName in old(registry) then old(order) else old(order) + [config.typeName]
      ensures GetConfig(config.typeName) == Some(config)
      ensures forall v :: CompileValue(config.typeName, v) == config.compile(v)
      ensures GetDefaultValue(config.typeName) == config.defaultValue
      ensures forall v :: Validate(config.typeName, v) == (if config.validate.Some? then config.validate.value(v) else None)
      ensures forall t :: t != config.typeName ==> GetConfig(t) == old(GetConfig(t))
    {
      Set(config.typeName, config);
    }

    /** `getConfig`: the descriptor of a registered type, `None` for any other. */
    function GetConfig(t: string): (r: Option<RenderComponentConfig>)
      requires Valid()
      reads this
      ensures r.Some? <==> IsRegistered(t)
      ensures r.Some? ==> r.value == registry[t] && r.value.typeName == t
    {
      if t in registry then Some(registry[t]) else None
    }

    /** `getAllTypes`: every registered type once, in insertion order. */
    function GetAllTypes(): (r: seq<string>)
      requires Valid()
      reads this
      ensures r == order
      ensures Distinct(r) && forall t :: t in r <==> IsRegistered(t)
    {
      order
    }

    /** `isRegistered`. */
    predicate IsRegistered(t: string)
      reads this
    {
      t in registry
    }

    /** `compileValue`: the registered descriptor's `compile`, else single-quote wrapping with quotes doubled. */
    function CompileValue(t: string, v: Value): (r: string)
      reads this
      ensures IsRegistered(t) ==> r == registry[t].compile(v)
      ensures !IsRegistered(t) ==> UnquoteSql(r) == Some(ValueToText(v))
    {
      if t in registry then registry[t].compile(v)
      else
        QuoteRoundTrip(ValueToText(v));
        QuoteCompile(v)
    }

    /** `getDefaultValue`: the registered descriptor's default, else the empty text. */
    function GetDefaultValue(t: string): (r: Value)
      reads this
      ensures IsRegistered(t) ==> r == registry[t].defaultValue
      ensures !IsRegistered(t) ==> r == Str("")
    {
      if t in registry then registry[t].defaultValue else Str("")
    }

    /** `validate`: the registered descriptor's validator, or no error when there is none. */
    function Validate(t: string, v: Value): (r: Option<string>)
      reads this
      ensures r.Some? ==> IsRegistered(t) && registry[t].validate.Some?
      ensures IsRegistered(t) && registry[t].validate.Some? ==> r == registry[t].validate.value(v)
    {
      if t in registry && registry[t].validate.Some? then registry[t].validate.value(v) else None
    }
  }

  /**
   * Registering a descriptor for an existing type overrides it: the registry
   * then hands out the new descriptor and compiles with it.
   */
  method OverrideExample() returns (r: ComponentRegistryService)
    ensures r.Valid()
    ensures r.GetConfig("StringInput").Some? && r.GetConfig("StringInput").value.displayName == "Custom Input"
    ensures r.CompileValue("StringInput", Str("x")) == "custom(x)"
    ensures r.GetAllTypes() == ValidTypeNames
  {
    r := new ComponentRegistryService();
    var custom := RenderComponentConfig("StringInput", "Custom Input", v => "custom(" + ValueToText(v) + ")", Str("default"), None);
    assert "StringInput" in r.registry by { DefaultRegistryTypes(); }
    r.Register(custom);
    assert ValueToText(Str("x")) == "x";
  }

  // ---------------------------------------------------------------------------
  // What the registry promises
  // ---------------------------------------------------------------------------

  /** The built-in registry holds exactly the four component types, each under its own name. */
  lemma DefaultRegistryTypes()
    ensures forall t: RenderComponentType :: t.Name() in DefaultRegistry() && DefaultRegistry()[t.Name()] == DefaultConfig(t)
    ensures forall k :: k in DefaultRegistry() <==> k in ValidTypeNames
    ensures "Unknown" !in DefaultRegistry()
  {
    DefaultRegistryWellFormed();
  }

  /** A new registry looks every built-in type up to its built-in behaviour, and an unknown type to the fallbacks. */
  lemma NewRegistryBehaviour(r: ComponentRegistryService, t: RenderComponentType, v: Value)
    requires r.registry == DefaultRegistry()
    ensures r.IsRegistered(t.Name()) && !r.IsRegistered("Unknown")
    ensures r.CompileValue(t.Name(), v) == DefaultConfig(t).compile(v)
    ensures r.GetDefaultValue(t.Name()) == DefaultConfig(t).defaultValue
    ensures r.GetDefaultValue("Unknown") == Str("")
    ensures r.Validate(t.Name(), v) ==
      (if DefaultConfig(t).validate.Some? then DefaultConfig(t).validate.value(v) else None)
    ensures r.Validate("Unknown", v) == None
  {
    DefaultRegistryTypes();
  }

  /** StringInput and FormTypes quote the value's text, doubling quotes; the quoting undoes. */
  lemma BuiltinQuoting(t: RenderComponentType, v: Value)
    requires t == StringInput || t == FormTypes
    ensures DefaultConfig(t).compile(v) == QuoteSql(ValueToText(v))
    ensures UnquoteSql(DefaultConfig(t).compile(v)) == Some(ValueToText(v))
    ensures DefaultConfig(t).defaultValue == Str("") && DefaultConfig(t).validate.None?
  {
    QuoteRoundTrip(ValueToText(v));
  }

  /** NumberInput compiles a number to its decimal text, which reads back as the number; NaN gives `0`. */
  lemma BuiltinNumber(v: Value)
    ensures var c := DefaultConfig(NumberInput);
            && (v.Num? ==> c.compile(v) == IntToString(v.n) && ParseNumber(c.compile(v)) == Some(v.n))
            && (v.Str? && ParseNumber(v.s).None? ==> c.compile(v) == "0")
            && c.defaultValue == Num(0)
  {
    if v.Num? {
      NumberRoundTrip(v.n);
    }
  }

  /** NumberInput's validator rejects exactly what is not a number, with one fixed message. */
  lemma BuiltinNumberValidation(v: Value)
    ensures var validate := DefaultConfig(NumberInput).validate;
            && validate.Some?
            && (validate.value(v) == Some(NotANumber) <==> NumericValue(v).None?)
            && (validate.value(v) == None <==> NumericValue(v).Some?)
  {
  }

  /** Tags compile to the quoted tags joined with commas, `''` when there are none; the default is no tags. */
  lemma BuiltinTags(v: Value)
    ensures var c := DefaultConfig(Tags);
            && (TagsOf(v) == [] ==> c.compile(v) == "''")
            && (TagsOf(v) != [] ==> c.compile(v) == Join(QuoteEach(TagsOf(v)), ","))
            && c.defaultValue == StrArray([]) && c.validate.None?
  {
  }

  /**
   * An array holding one `0x`, `0o` or `0b` literal is a number to `Number`:
   * NumberInput's descriptor serialises it in decimal, while the compiler,
   * finding it not NaN, returns the literal as written.
   */
  lemma NonDecimalArrayNumber(t: string, radix: nat)
    requires |t| > 2 && PrefixRadix(t) == Some(radix) && AllRadixDigits(t[2..], radix)
    ensures NumberCompile(StrArray([t])) == IntToString(RadixValue(t[2..], radix))
    ensures CompileNumberValue(StrArray([t])) == t
  {
    NonDecimalNumber(t, radix);
    assert Join([t], ",") == t;
  }

  /** `0x10` is a hexadecimal literal worth 16, whose decimal text is `16`. */
  lemma HexSixteen(t: string)
    requires t == "0x10"
    ensures |t| > 2 && PrefixRadix(t) == Some(16) && AllRadixDigits(t[2..], 16)
    ensures RadixValue(t[2..], 16) == 16 && IntToString(16) == "16"
  {
    assert t[2..] == "10" && t[2..][..1] == "1";
    assert RadixValue("1", 16) == 1 by { assert "1"[..0] == ""; }
    assert NatToString(1) == "1";
  }

  /** `['0x10']` compiles to `16` through the descriptor and to `0x10` through the compiler. */
  lemma HexArrayExample()
    ensures NumberCompile(StrArray(["0x10"])) == "16"
    ensures CompileNumberValue(StrArray(["0x10"])) == "0x10"
  {
    HexSixteen("0x10");
    NonDecimalArrayNumber("0x10", 16);
  }

  /**
   * The compiler keeps its own serialisation, but on every value that passes
   * its validation it agrees with the built-in descriptors, and its type
   * defaults are theirs; NumberInput's two validators reject the same values.
   */
  lemma CompilerAgreesWithBuiltins(p: QueryParameter, v: Value)
    ensures ValidateValue(p, v).None? ==> QueryCompiler.CompileValue(p.componentType, v) == DefaultConfig(p.componentType).compile(v)
    ensures TypeDefault(p.componentType) == DefaultConfig(p.componentType).defaultValue
    ensures p.componentType == NumberInput ==>
              (ValidateValue(p, v).Some? <==> DefaultConfig(NumberInput).validate.value(v).Some?)
  {
  }
}
