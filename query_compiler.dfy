/**
 * The query compiler: re-parses a template, picks each placeholder's value by
 * position (falling back to defaults), validates and serialises it, splices
 * the results into the template from right to left and finally unescapes
 * literal braces.
 */
module QueryCompiler {
  import opened Wrappers
  import opened Text
  import opened QueryModel
  import opened QueryParser

  /** The compiled query, whether compilation succeeded, and the error messages. */
  datatype CompileResult = CompileResult(compiledQuery: string, success: bool, errors: seq<string>)

  // ---------------------------------------------------------------------------
  // Serialising one value
  // ---------------------------------------------------------------------------

  /** `compileStringValue`: the value's text in single quotes, each quote doubled. */
  function CompileStringValue(v: Value): (r: string)
    ensures UnquoteSql(r) == Some(ValueToText(v))
  {
    QuoteRoundTrip(ValueToText(v));
    QuoteSql(ValueToText(v))
  }

  /**
   * `compileNumberValue`: a text is read with `parseFloat`, a number is taken
   * as is; NaN compiles to `0`. An array (never passed here once validated) is
   * NaN unless `Number` reads its comma-joined text, which is then returned.
   */
  function CompileNumberValue(v: Value): string
  {
    match v
    case Str(s) => (match ParseNumber(s) case None => "0" case Some(n) => IntToString(n))
    case Num(n) => IntToString(n)
    case StrArray(items) => if StrictNumber(Join(items, ",")).None? then "0" else Join(items, ",")
  }

  /** Keeps the non-empty texts, in order (`NonEmptyDropsBlanks` says it drops only those). */
  function NonEmpty(parts: seq<string>): (r: seq<string>)
    ensures forall i :: 0 <= i < |r| ==> r[i] != ""
  {
    if parts == [] then []
    else (if parts[0] == "" then [] else [parts[0]]) + NonEmpty(parts[1..])
  }

  /** Trims each text. */
  function TrimEach(parts: seq<string>): (r: seq<string>)
    ensures |r| == |parts| && forall i :: 0 <= i < |r| ==> r[i] == Trim(parts[i])
  {
    if parts == [] then [] else [Trim(parts[0])] + TrimEach(parts[1..])
  }

  /** The tags a value stands for: an array as is, a text split on commas with blank pieces dropped, a number none. */
  function TagsOf(v: Value): seq<string>
  {
    match v
    case StrArray(items) => items
    case Str(s) => NonEmpty(TrimEach(Split(s, ',')))
    case Num(_) => []
  }

  /** Quotes each text. */
  function QuoteEach(tags: seq<string>): (r: seq<string>)
    ensures |r| == |tags|
    ensures forall i :: 0 <= i < |r| ==> UnquoteSql(r[i]) == Some(tags[i])
  {
    if tags == [] then []
    else
      QuoteRoundTrip(tags[0]);
      [QuoteSql(tags[0])] + QuoteEach(tags[1..])
  }

  /** `compileTagsValue`: the quoted tags joined with bare commas, or `''` when there are none. */
  function CompileTagsValue(v: Value): string
  {
    var tags := TagsOf(v);
    if |tags| == 0 then "''" else Join(QuoteEach(tags), ",")
  }

  /** `compileValue`: the serialisation chosen by the component type. */
  function CompileValue(t: RenderComponentType, v: Value): string
  {
    match t
    case StringInput => CompileStringValue(v)
    case NumberInput => CompileNumberValue(v)
    case FormTypes => CompileStringValue(v)
    case Tags => CompileTagsValue(v)
  }

  // ---------------------------------------------------------------------------
  // Choosing and validating a value
  // ---------------------------------------------------------------------------

  /** The default value of a component type when the placeholder gives none. */
  function TypeDefault(t: RenderComponentType): Value
  {
    match t
    case NumberInput => Num(0)
    case Tags => StrArray([])
    case StringInput => Str("")
    case FormTypes => Str("")
  }

  /** `getDefaultValueForType`: the placeholder's own default text, or else the type's default. */
  function GetDefaultValueForType(p: QueryParameter): Value
  {
    if p.defaultValue != "" then Str(p.defaultValue) else TypeDefault(p.componentType)
  }

  /**
   * The value the compiler uses for `p`: the entry of `values` at `p.index`
   * unless it is missing (`None`, or past the end) or the empty text; an empty
   * array counts as given.
   */
  function EffectiveValue(p: QueryParameter, values: seq<Option<Value>>): Value
  {
    if p.index < |values| && values[p.index].Some? && values[p.index].value != Str("") then values[p.index].value
    else GetDefaultValueForType(p)
  }

  /** The number a value stands for when validated: a text through `parseFloat`, a number as is, an array never. */
  function NumericValue(v: Value): Option<int>
  {
    match v
    case Str(s) => ParseNumber(s)
    case Num(n) => Some(n)
    case StrArray(_) => None
  }

  function NumericMessage(labelText: string, v: Value): string
  {
    "Parameter \"" + labelText + "\" expects a numeric value, got: " + ValueToText(v)
  }

  function TagsMessage(labelText: string): string
  {
    "Parameter \"" + labelText + "\" expects an array or comma-separated string of tags"
  }

  /** `validateValue`: a NumberInput needs a number, Tags an array or a text; other types take anything. */
  function ValidateValue(p: QueryParameter, v: Value): Option<string>
  {
    match p.componentType
    case NumberInput => if NumericValue(v).None? then Some(NumericMessage(p.labelText, v)) else None
    case Tags => if v.Num? then Some(TagsMessage(p.labelText)) else None
    case StringInput => None
    case FormTypes => None
  }

  /** `getDefaultValues`: each parameter's default, in order. */
  function GetDefaultValues(parsed: ParsedQuery): (r: seq<Value>)
    ensures |r| == |parsed.parameters|
    ensures forall i :: 0 <= i < |r| ==> r[i] == GetDefaultValueForType(parsed.parameters[i])
  {
    seq(|parsed.parameters|, i requires 0 <= i < |parsed.parameters| => GetDefaultValueForType(parsed.parameters[i]))
  }

  /** A values array with every entry given. */
  function Supplied(vs: seq<Value>): (r: seq<Option<Value>>)
    ensures |r| == |vs| && forall i :: 0 <= i < |r| ==> r[i] == Some(vs[i])
  {
    seq(|vs|, i requires 0 <= i < |vs| => Some(vs[i]))
  }

  // ---------------------------------------------------------------------------
  // The whole compilation, as a specification
  // ---------------------------------------------------------------------------

  /** The spans of `ps` lie in order within `q[from..]`, none overlapping the next. */
  predicate Placed(q: string, ps: seq<QueryParameter>, from: nat)
    ensures Placed(q, ps, from) ==> from <= |q|
    decreases |ps|
  {
    if ps == [] then from <= |q|
    else from <= ps[0].startIndex <= ps[0].endIndex && Placed(q, ps[1..], ps[0].endIndex)
  }

  /** What replaces the span of `p`: the compiled value, or the span's own text when validation fails. */
  function Piece(q: string, p: QueryParameter, values: seq<Option<Value>>): string
    requires p.startIndex <= p.endIndex <= |q|
  {
    var v := EffectiveValue(p, values);
    if ValidateValue(p, v).Some? then q[p.startIndex..p.endIndex] else CompileValue(p.componentType, v)
  }

  /** `q[from..]` with the span of each parameter in `ps` replaced by its piece; the text between spans is kept. */
  function Render(q: string, ps: seq<QueryParameter>, values: seq<Option<Value>>, from: nat): string
    requires Placed(q, ps, from)
    decreases |ps|
  {
    if ps == [] then q[from..]
    else
      PlacedWithin(q, ps, from);
      q[from..ps[0].startIndex] + Piece(q, ps[0], values) + Render(q, ps[1..], values, ps[0].endIndex)
  }

  /** The validation errors of `ps`, in the order the compiler meets them: right to left. */
  function RightToLeftErrors(ps: seq<QueryParameter>, values: seq<Option<Value>>): seq<string>
  {
    if ps == [] then []
    else
      var err := ValidateValue(ps[0], EffectiveValue(ps[0], values));
      RightToLeftErrors(ps[1..], values) + (if err.Some? then [err.value] else [])
  }

  /** The validation errors of `ps`, left to right. */
  function ValidationErrors(ps: seq<QueryParameter>, values: seq<Option<Value>>): seq<string>
  {
    if ps == [] then []
    else
      var err := ValidateValue(ps[0], EffectiveValue(ps[0], values));
      (if err.Some? then [err.value] else []) + ValidationErrors(ps[1..], values)
  }

  /** The messages of parse errors, in order. */
  function Messages(errors: seq<QueryParseError>): (r: seq<string>)
    ensures |r| == |errors| && forall i :: 0 <= i < |r| ==> r[i] == errors[i].message
  {
    seq(|errors|, i requires 0 <= i < |errors| => errors[i].message)
  }

  /** Compilation of `q` given its parse. */
  function CompileParsed(q: string, parsed: ParsedQuery, values: seq<Option<Value>>): CompileResult
    requires Placed(q, parsed.parameters, 0)
  {
    if !parsed.isValid then CompileResult(q, false, Messages(parsed.errors))
    else if |parsed.parameters| == 0 then CompileResult(UnescapeBraces(q), true, [])
    else
      var errors := RightToLeftErrors(parsed.parameters, values);
      CompileResult(UnescapeBraces(Render(q, parsed.parameters, values, 0)), errors == [], errors)
  }

  /** `compileQuery` as a function of the template and the values. */
  function Compile(q: string, values: seq<Option<Value>>): CompileResult
  {
    ParsePlaced(q);
    CompileParsed(q, Parse(q), values)
  }

  // ---------------------------------------------------------------------------
  // Placement of the parsed spans
  // ---------------------------------------------------------------------------

  /** Placed spans lie within the query. */
  lemma {:induction false} PlacedWithin(q: string, ps: seq<QueryParameter>, from: nat)
    requires Placed(q, ps, from)
    ensures from <= |q|
    ensures forall i :: 0 <= i < |ps| ==> from <= ps[i].startIndex <= ps[i].endIndex <= |q|
    decreases |ps|
  {
    if ps != [] {
      PlacedWithin(q, ps[1..], ps[0].endIndex);
      assert forall i :: 1 <= i < |ps| ==> ps[i] == ps[1..][i - 1];
    }
  }

  /** Spans inside the query, in order and not overlapping, are placed. */
  lemma {:induction false} PlacedFromOrder(q: string, ps: seq<QueryParameter>, from: nat)
    requires from <= |q|
    requires forall i :: 0 <= i < |ps| ==> from <= ps[i].startIndex <= ps[i].endIndex <= |q|
    requires forall i, j :: 0 <= i < j < |ps| ==> ps[i].endIndex <= ps[j].startIndex
    ensures Placed(q, ps, from)
    decreases |ps|
  {
    if ps != [] {
      var rest := ps[1..];
      assert forall i :: 0 <= i < |rest| ==> rest[i] == ps[i + 1];
      PlacedFromOrder(q, rest, ps[0].endIndex);
    }
  }

  /** The parameters of any parse are placed in the query. */
  lemma ParsePlaced(q: string)
    ensures Placed(q, Parse(q).parameters, 0)
  {
    ParseParameterSpans(q);
    ParseInOrder(q);
    var ps := Parse(q).parameters;
    assert forall i :: 0 <= i < |ps| ==> ps[i] in ps;
    PlacedFromOrder(q, ps, 0);
  }

  /** `Compile` reads the parse it is given. */
  lemma CompileOfParse(q: string, values: seq<Option<Value>>, parsed: ParsedQuery)
    requires parsed == Parse(q)
    ensures Placed(q, parsed.parameters, 0)
    ensures forall i, j :: 0 <= i < j < |parsed.parameters| ==> parsed.parameters[i].startIndex < parsed.parameters[j].startIndex
    ensures Compile(q, values) == CompileParsed(q, parsed, values)
  {
    ParsePlaced(q);
    ParseInOrder(q);
  }

  /** Where the spans after the first `i` may start: the end of span `i - 1`, or 0. */
  function EndBefore(ps: seq<QueryParameter>, i: nat): nat
    requires i <= |ps|
  {
    if i == 0 then 0 else ps[i - 1].endIndex
  }

  /** The parameters from `i` on are placed after the end of the one before. */
  lemma {:induction false} PlacedSuffix(q: string, ps: seq<QueryParameter>, i: nat)
    requires Placed(q, ps, 0) && i <= |ps|
    ensures Placed(q, ps[i..], EndBefore(ps, i))
  {
    if i > 0 {
      PlacedSuffixFrom(q, ps, 0, i);
    }
  }

  lemma {:induction false} PlacedSuffixFrom(q: string, ps: seq<QueryParameter>, from: nat, i: nat)
    requires Placed(q, ps, from) && 0 < i <= |ps|
    ensures Placed(q, ps[i..], ps[i - 1].endIndex)
    decreases i
  {
    if i > 1 {
      PlacedSuffixFrom(q, ps[1..], ps[0].endIndex, i - 1);
      assert ps[1..][i - 1..] == ps[i..];
    }
  }

  // ---------------------------------------------------------------------------
  // The service's operation
  // ---------------------------------------------------------------------------

  /** The sequence in reverse. */
  function Reverse<T>(s: seq<T>): (r: seq<T>)
    ensures |r| == |s| && forall k :: 0 <= k < |s| ==> r[k] == s[|s| - 1 - k]
  {
    if s == [] then [] else Reverse(s[1..]) + [s[0]]
  }

  /**
   * Reversing parameters of strictly increasing start orders them by
   * decreasing start, and it keeps them all: the only result a sort by
   * descending `startIndex` can have.
   */
  lemma ReverseSortsDescending(ps: seq<QueryParameter>)
    requires forall i, j :: 0 <= i < j < |ps| ==> ps[i].startIndex < ps[j].startIndex
    ensures var r := Reverse(ps);
            && (forall i, j :: 0 <= i < j < |r| ==> r[i].startIndex > r[j].startIndex)
            && multiset(r) == multiset(ps)
  {
    ReverseMultiset(ps);
  }

  lemma {:induction false} ReverseMultiset<T>(s: seq<T>)
    ensures multiset(Reverse(s)) == multiset(s)
  {
    if s != [] {
      ReverseMultiset(s[1..]);
      assert s == [s[0]] + s[1..];
    }
  }

  /** Splicing `piece` over `[s, e)` of a text that agrees with `q` up to `e`. */
  lemma SpliceText(q: string, x: nat, s: nat, e: nat, piece: string, tail: string)
    requires x <= s <= e <= |q|
    ensures var c := q[..e] + tail;
            && c[s..e] == q[s..e]
            && c == c[..s] + c[s..e] + c[e..]
            && c[..s] + piece + c[e..] == q[..x] + (q[x..s] + piece + tail)
  {
    var c := q[..e] + tail;
    assert c[..s] == q[..s] == q[..x] + q[x..s];
    assert c[e..] == tail;
    assert c == c[..s] + c[s..e] + c[e..];
  }

  /** One more span spliced from the right keeps the loop's invariant. */
  lemma SpliceStep(q: string, ps: seq<QueryParameter>, values: seq<Option<Value>>, i: nat, c: string)
    requires 0 < i <= |ps| && Placed(q, ps[i - 1..], EndBefore(ps, i - 1))
    requires Placed(q, ps[i..], EndBefore(ps, i)) && ps[i - 1].endIndex <= |q|
    requires c == q[..ps[i - 1].endIndex] + Render(q, ps[i..], values, EndBefore(ps, i))
    ensures var p := ps[i - 1];
            && p.startIndex <= p.endIndex <= |c|
            && c[p.startIndex..p.endIndex] == q[p.startIndex..p.endIndex]
            && c == c[..p.startIndex] + c[p.startIndex..p.endIndex] + c[p.endIndex..]
            && c[..p.startIndex] + Piece(q, p, values) + c[p.endIndex..]
               == q[..EndBefore(ps, i - 1)] + Render(q, ps[i - 1..], values, EndBefore(ps, i - 1))
  {
    var p := ps[i - 1];
    var x := EndBefore(ps, i - 1);
    PlacedWithin(q, ps[i - 1..], x);
    assert ps[i - 1..][0] == p && ps[i - 1..][1..] == ps[i..];
    var tail := Render(q, ps[i..], values, p.endIndex);
    assert Render(q, ps[i - 1..], values, x) == q[x..p.startIndex] + Piece(q, p, values) + tail;
    SpliceText(q, x, p.startIndex, p.endIndex, Piece(q, p, values), tail);
  }

  /**
   * One turn of the splicing loop keeps its invariant: a rejected parameter
   * adds its error and leaves the text, an accepted one has its span replaced
   * by its compiled value.
   */
  lemma SpliceIteration(q: string, ps: seq<QueryParameter>, values: seq<Option<Value>>, i: nat, c: string, errors: seq<string>)
    requires Placed(q, ps, 0) && 0 < i <= |ps|
    requires Placed(q, ps[i..], EndBefore(ps, i))
    requires c == q[..EndBefore(ps, i)] + Render(q, ps[i..], values, EndBefore(ps, i))
    requires errors == RightToLeftErrors(ps[i..], values)
    ensures var p := ps[i - 1];
            var v := EffectiveValue(p, values);
            var err := ValidateValue(p, v);
            && p.startIndex <= p.endIndex <= |c|
            && Placed(q, ps[i - 1..], EndBefore(ps, i - 1))
            && (err.Some? ==> && c == q[..EndBefore(ps, i - 1)] + Render(q, ps[i - 1..], values, EndBefore(ps, i - 1))
                              && errors + [err.value] == RightToLeftErrors(ps[i - 1..], values))
            && (err.None? ==> && c[..p.startIndex] + CompileValue(p.componentType, v) + c[p.endIndex..]
                                 == q[..EndBefore(ps, i - 1)] + Render(q, ps[i - 1..], values, EndBefore(ps, i - 1))
                              && errors == RightToLeftErrors(ps[i - 1..], values))
  {
    PlacedSuffix(q, ps, i - 1);
    assert EndBefore(ps, i) == ps[i - 1].endIndex;
    SpliceStep(q, ps, values, i, c);
    assert ps[i - 1..][0] == ps[i - 1] && ps[i - 1..][1..] == ps[i..];
  }

  /** `compileQuery`: parse, give up on a syntax error, else splice every placeholder and unescape braces. */
  method CompileQuery(query: string, values: seq<Option<Value>>) returns (r: CompileResult)
    ensures r == Compile(query, values)
  {
    var parsed := ParseQuery(query);
    CompileOfParse(query, values, parsed);
    if !parsed.isValid {
      return CompileResult(query, false, Messages(parsed.errors));
    }
    if |parsed.parameters| == 0 {
      return CompileResult(UnescapeBraces(query), true, []);
    }
    var compiledQuery, errors := SpliceFromRight(query, parsed.parameters, values);
    compiledQuery := UnescapeBraces(compiledQuery);
    r := CompileResult(compiledQuery, |errors| == 0, errors);
  }

  /**
   * The loop of `compileQuery`: the parameters sorted by descending start are
   * validated and spliced in turn, so each splice still finds its span at its
   * original offsets.
   */
  method SpliceFromRight(query: string, ps: seq<QueryParameter>, values: seq<Option<Value>>) returns (compiledQuery: string, errors: seq<string>)
    requires Placed(query, ps, 0)
    requires forall i, j :: 0 <= i < j < |ps| ==> ps[i].startIndex < ps[j].startIndex
    ensures compiledQuery == Render(query, ps, values, 0)
    ensures errors == RightToLeftErrors(ps, values)
  {
    errors := [];
    compiledQuery := query;
    ReverseSortsDescending(ps);
    var sortedParams := Reverse(ps);
    PlacedSuffix(query, ps, |ps|);
    PlacedWithin(query, ps, 0);
    for k := 0 to |sortedParams|
      invariant Placed(query, ps[|ps| - k..], EndBefore(ps, |ps| - k))
      invariant compiledQuery == query[..EndBefore(ps, |ps| - k)] + Render(query, ps[|ps| - k..], values, EndBefore(ps, |ps| - k))
      invariant errors == RightToLeftErrors(ps[|ps| - k..], values)
    {
      var param := sortedParams[k];
      ghost var i := |ps| - k;
      assert param == ps[i - 1];
      SpliceIteration(query, ps, values, i, compiledQuery, errors);
      var effectiveValue := EffectiveValue(param, values);
      var validationError := ValidateValue(param, effectiveValue);
      if validationError.Some? {
        errors := errors + [validationError.value];
        continue;
      }
      var compiledValue := CompileValue(param.componentType, effectiveValue);
      compiledQuery := compiledQuery[..param.startIndex] + compiledValue + compiledQuery[param.endIndex..];
    }
    assert ps[0..] == ps;
  }

  // ---------------------------------------------------------------------------
  // What compilation promises
  // ---------------------------------------------------------------------------

  /** A template with a syntax error comes back untouched, unsuccessful, with the parse messages in order. */
  lemma CompileInvalidQuery(q: string, values: seq<Option<Value>>)
    requires !Parse(q).isValid
    ensures Compile(q, values) == CompileResult(q, false, Messages(Parse(q).errors))
    ensures Compile(q, values).errors != []
  {
    CompileOfParse(q, values, Parse(q));
  }

  /** A valid template without placeholders only has its escaped braces unescaped. */
  lemma CompileWithoutParameters(q: string, values: seq<Option<Value>>)
    requires Parse(q).isValid && Parse(q).parameters == []
    ensures Compile(q, values) == CompileResult(UnescapeBraces(q), true, [])
  {
    CompileOfParse(q, values, Parse(q));
  }

  /** Text with neither braces nor backslashes compiles to itself, whatever the values. */
  lemma CompileBraceFree(q: string, values: seq<Option<Value>>)
    requires forall k :: 0 <= k < |q| ==> !IsBrace(q[k]) && q[k] != '\\'
    ensures Compile(q, values) == CompileResult(q, true, [])
  {
    ParseBraceFree(q);
    UnescapeWithoutEscapedBraces(q);
    CompileOfParse(q, values, Parse(q));
  }

  /** The value of `p` passes validation. */
  predicate Accepted(p: QueryParameter, values: seq<Option<Value>>)
  {
    ValidateValue(p, EffectiveValue(p, values)).None?
  }

  /** No error is reported exactly when every value passes validation. */
  lemma {:induction false} NoErrorsWhenAllAccepted(ps: seq<QueryParameter>, values: seq<Option<Value>>)
    ensures RightToLeftErrors(ps, values) == [] <==> forall i :: 0 <= i < |ps| ==> Accepted(ps[i], values)
  {
    if ps != [] {
      NoErrorsWhenAllAccepted(ps[1..], values);
      assert forall i :: 1 <= i < |ps| ==> ps[i] == ps[1..][i - 1];
    }
  }

  /** Compilation succeeds exactly when the template parses and every placeholder's value passes validation. */
  lemma CompileSuccess(q: string, values: seq<Option<Value>>)
    ensures Compile(q, values).success <==>
              Parse(q).isValid && forall i :: 0 <= i < |Parse(q).parameters| ==> Accepted(Parse(q).parameters[i], values)
  {
    CompileOfParse(q, values, Parse(q));
    NoErrorsWhenAllAccepted(Parse(q).parameters, values);
  }

  lemma {:induction false} ReverseAppend<T>(a: seq<T>, b: seq<T>)
    ensures Reverse(a + b) == Reverse(b) + Reverse(a)
  {
    if a != [] {
      ReverseAppend(a[1..], b);
      assert (a + b)[1..] == a[1..] + b;
    } else {
      assert a + b == b;
    }
  }

  /** The errors come out right to left: the left-to-right validation errors, reversed. */
  lemma {:induction false} RightToLeftIsReversed(ps: seq<QueryParameter>, values: seq<Option<Value>>)
    ensures RightToLeftErrors(ps, values) == Reverse(ValidationErrors(ps, values))
  {
    if ps != [] {
      RightToLeftIsReversed(ps[1..], values);
      var err := ValidateValue(ps[0], EffectiveValue(ps[0], values));
      var head := if err.Some? then [err.value] else [];
      ReverseAppend(head, ValidationErrors(ps[1..], values));
      assert Reverse(head) == head;
    }
  }

  /** A valid template reports the validation errors of its placeholders from the last to the first. */
  lemma CompileErrorsRightToLeft(q: string, values: seq<Option<Value>>)
    requires Parse(q).isValid
    ensures Compile(q, values).errors == Reverse(ValidationErrors(Parse(q).parameters, values))
  {
    CompileOfParse(q, values, Parse(q));
    RightToLeftIsReversed(Parse(q).parameters, values);
  }

  lemma TextSplits(q: string, a: nat, b: nat, c: nat)
    requires a <= b <= c <= |q|
    ensures q[a..] == q[a..b] + q[b..c] + q[c..]
  {
  }

  /** When every value fails validation, every span keeps its text. */
  lemma {:induction false} RenderAllRejected(q: string, ps: seq<QueryParameter>, values: seq<Option<Value>>, from: nat)
    requires Placed(q, ps, from)
    requires forall i :: 0 <= i < |ps| ==> !Accepted(ps[i], values)
    ensures Render(q, ps, values, from) == q[from..]
    decreases |ps|
  {
    if ps != [] {
      PlacedWithin(q, ps, from);
      assert !Accepted(ps[0], values);
      assert forall i :: 0 <= i < |ps[1..]| ==> ps[1..][i] == ps[i + 1];
      RenderAllRejected(q, ps[1..], values, ps[0].endIndex);
      TextSplits(q, from, ps[0].startIndex, ps[0].endIndex);
    }
  }

  /** One placeholder whose value passes: the template with that one span replaced, then unescaped. */
  lemma CompileSingleParameter(q: string, values: seq<Option<Value>>)
    requires Parse(q).isValid && |Parse(q).parameters| == 1
    requires Accepted(Parse(q).parameters[0], values)
    ensures var p := Parse(q).parameters[0];
            && p.startIndex <= p.endIndex <= |q|
            && Compile(q, values) == CompileResult(
                 UnescapeBraces(q[..p.startIndex] + CompileValue(p.componentType, EffectiveValue(p, values)) + q[p.endIndex..]),
                 true, [])
  {
    CompileOfParse(q, values, Parse(q));
    CompileOneParsed(q, Parse(q), values);
  }

  lemma CompileOneParsed(q: string, parsed: ParsedQuery, values: seq<Option<Value>>)
    requires Placed(q, parsed.parameters, 0) && parsed.isValid && |parsed.parameters| == 1
    requires Accepted(parsed.parameters[0], values)
    ensures var p := parsed.parameters[0];
            && p.startIndex <= p.endIndex <= |q|
            && CompileParsed(q, parsed, values) == CompileResult(
                 UnescapeBraces(q[..p.startIndex] + CompileValue(p.componentType, EffectiveValue(p, values)) + q[p.endIndex..]),
                 true, [])
  {
    var ps := parsed.parameters;
    PlacedWithin(q, ps, 0);
    assert ps[1..] == [];
    assert Render(q, ps, values, 0) == q[..ps[0].startIndex] + Piece(q, ps[0], values) + q[ps[0].endIndex..];
    NoErrorsWhenAllAccepted(ps, values);
  }

  /** Only the values that end up used matter: values giving each parameter the same effective value compile alike. */
  lemma {:induction false} RenderSameEffective(q: string, ps: seq<QueryParameter>, v1: seq<Option<Value>>, v2: seq<Option<Value>>, from: nat)
    requires Placed(q, ps, from)
    requires forall i :: 0 <= i < |ps| ==> EffectiveValue(ps[i], v1) == EffectiveValue(ps[i], v2)
    ensures Render(q, ps, v1, from) == Render(q, ps, v2, from)
    ensures RightToLeftErrors(ps, v1) == RightToLeftErrors(ps, v2)
    decreases |ps|
  {
    if ps != [] {
      PlacedWithin(q, ps, from);
      assert EffectiveValue(ps[0], v1) == EffectiveValue(ps[0], v2);
      assert forall i :: 0 <= i < |ps[1..]| ==> ps[1..][i] == ps[i + 1];
      RenderSameEffective(q, ps[1..], v1, v2, ps[0].endIndex);
    }
  }

  /** Supplying the values of `getDefaultValues` compiles exactly as supplying none. */
  lemma CompileWithDefaults(q: string)
    ensures Compile(q, Supplied(GetDefaultValues(Parse(q)))) == Compile(q, [])
  {
    var parsed := Parse(q);
    var ps := parsed.parameters;
    var defaults := Supplied(GetDefaultValues(parsed));
    CompileOfParse(q, defaults, parsed);
    CompileOfParse(q, [], parsed);
    ParseNumbering(q);
    forall i | 0 <= i < |ps|
      ensures EffectiveValue(ps[i], defaults) == EffectiveValue(ps[i], [])
    {
      assert ps[i].index == i;
    }
    RenderSameEffective(q, ps, defaults, [], 0);
  }

  /** A number, or a text `parseFloat` reads, compiles to text that reads back as the same number. */
  lemma NumberCompileRoundTrip(v: Value)
    requires NumericValue(v).Some?
    ensures ParseNumber(CompileNumberValue(v)) == NumericValue(v)
  {
    NumberRoundTrip(NumericValue(v).value);
  }

  /** Once a NumberInput value passes validation, its compiled text is its number: the `0` fallback is not taken. */
  lemma AcceptedNumberCompiles(p: QueryParameter, v: Value)
    requires p.componentType == NumberInput && ValidateValue(p, v).None?
    ensures NumericValue(v).Some? && CompileValue(p.componentType, v) == IntToString(NumericValue(v).value)
  {
  }

  /** A text `parseFloat` cannot read compiles to `0` and fails a NumberInput's validation with the value quoted back. */
  lemma NonNumericText(p: QueryParameter, s: string)
    requires p.componentType == NumberInput && ParseNumber(s).None?
    ensures CompileNumberValue(Str(s)) == "0"
    ensures ValidateValue(p, Str(s)) == Some("Parameter \"" + p.labelText + "\" expects a numeric value, got: " + s)
  {
  }

  lemma {:induction false} TrimEachTrimmed(tags: seq<string>)
    requires forall i :: 0 <= i < |tags| ==> Trim(tags[i]) == tags[i]
    ensures TrimEach(tags) == tags
  {
    if tags != [] {
      TrimEachTrimmed(tags[1..]);
    }
  }

  lemma {:induction false} NonEmptyKeepsFilled(tags: seq<string>)
    requires forall i :: 0 <= i < |tags| ==> tags[i] != ""
    ensures NonEmpty(tags) == tags
  {
    if tags != [] {
      NonEmptyKeepsFilled(tags[1..]);
    }
  }

  /** `NonEmpty` drops exactly the empty texts: every other text stays, as often as it occurs. */
  lemma {:induction false} NonEmptyDropsBlanks(parts: seq<string>)
    ensures multiset(NonEmpty(parts)) == multiset(parts)["" := 0]
  {
    if parts != [] {
      NonEmptyDropsBlanks(parts[1..]);
      assert parts == [parts[0]] + parts[1..];
      assert multiset(parts) == multiset{parts[0]} + multiset(parts[1..]);
    }
  }

  /**
   * `NonEmpty` keeps order: it filters a concatenation part by part. With
   * `NonEmptySingle` this fixes the result as the non-empty texts in their
   * original order.
   */
  lemma {:induction false} NonEmptyAppend(a: seq<string>, b: seq<string>)
    ensures NonEmpty(a + b) == NonEmpty(a) + NonEmpty(b)
  {
    if a != [] {
      var ab := a + b;
      assert ab[0] == a[0] && ab[1..] == a[1..] + b;
      NonEmptyAppend(a[1..], b);
      var head := if a[0] == "" then [] else [a[0]];
      assert NonEmpty(ab) == head + (NonEmpty(a[1..]) + NonEmpty(b));
      assert NonEmpty(a) == head + NonEmpty(a[1..]);
    } else {
      assert a + b == b;
    }
  }

  /** A single text survives `NonEmpty` exactly when it is not empty. */
  lemma NonEmptySingle(t: string)
    ensures NonEmpty([t]) == (if t == "" then [] else [t])
  {
    assert [t][1..] == [];
  }

  /**
   * Tags written as one comma-separated text read back as the same tags, when
   * each is non-blank, trimmed and free of commas; both forms compile alike.
   */
  lemma TagsTextRoundTrip(tags: seq<string>)
    requires forall i :: 0 <= i < |tags| ==> tags[i] != "" && Trim(tags[i]) == tags[i] && ',' !in tags[i]
    ensures TagsOf(Str(Join(tags, ","))) == tags
    ensures CompileTagsValue(Str(Join(tags, ","))) == CompileTagsValue(StrArray(tags))
  {
    if tags == [] {
      assert Split("", ',') == [""];
      TrimSpec("");
    } else {
      SplitJoin(tags, ',');
      TrimEachTrimmed(tags);
      NonEmptyKeepsFilled(tags);
    }
  }

  /** `O'Brien` compiles to `'O''Brien'`. */
  lemma QuoteExample()
    ensures CompileStringValue(Str("O'Brien")) == "'O''Brien'"
  {
    assert "O'Brien" == "O" + "'" + "Brien";
    QuoteBetween("O", "Brien");
    assert "'" + "O" + "''" + "Brien" + "'" == "'O''Brien'";
  }
}
