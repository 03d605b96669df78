/**
 * The query parser: finds the `{Label:Type:Default}` placeholders of a query
 * template, numbers the well-formed ones, reports malformed ones and
 * unbalanced braces with their spans, and undoes `\{` / `\}` escapes.
 */
module QueryParser {
  import opened Wrappers
  import opened Text
  import opened QueryModel

  /** The parser's set of valid component type names, in insertion order. */
  const ValidTypeNames: seq<string> := ["StringInput", "NumberInput", "FormTypes", "Tags"]

  /** The valid names as the error message lists them. */
  const ValidTypesList := "StringInput, NumberInput, FormTypes, Tags"

  const EmptyDefinition := "Empty parameter definition"
  const MissingLabel := "Parameter must have a label"
  const UnmatchedClosing := "Unmatched closing brace"
  const UnmatchedOpening := "Unmatched opening brace"

  function InvalidTypeMessage(typeName: string): string {
    "Invalid component type: " + typeName + ". Valid types are: " + ValidTypesList
  }

  /** The valid names are those of the four component types, listed in insertion order, not sorted. */
  lemma ValidTypeNamesInInsertionOrder()
    ensures |ValidTypeNames| == |AllComponentTypes|
    ensures forall i :: 0 <= i < |ValidTypeNames| ==> ValidTypeNames[i] == AllComponentTypes[i].Name()
    ensures Join(ValidTypeNames, ", ") == ValidTypesList
  {
    ValidTypesListJoin();
  }

  lemma ValidTypesListJoin()
    ensures Join(ValidTypeNames, ", ") == ValidTypesList
  {
    JoinFour("StringInput", "NumberInput", "FormTypes", "Tags", ", ");
  }

  /** Four texts joined: each separator sits between two neighbours. */
  lemma JoinFour(a: string, b: string, c: string, d: string, sep: string)
    ensures Join([a, b, c, d], sep) == a + sep + b + sep + c + sep + d
  {
    assert Join([d], sep) == d;
    assert [c, d][1..] == [d];
    var cd := Join([c, d], sep);
    assert cd == c + sep + d;
    assert [b, c, d][1..] == [c, d];
    var bcd := Join([b, c, d], sep);
    assert bcd == b + sep + cd;
    assert [a, b, c, d][1..] == [b, c, d];
    assert Join([a, b, c, d], sep) == a + sep + (b + sep + (c + sep + d));
  }

  // ---------------------------------------------------------------------------
  // The placeholder pattern /(?<!\\)\{([^{}]*?)(?<!\\)\}/g as a scanner
  // ---------------------------------------------------------------------------

  predicate IsBrace(c: char) { c == '{' || c == '}' }

  /** The character at `i` follows a backslash. */
  predicate Escaped(q: string, i: nat)
    requires i < |q|
  {
    0 < i && q[i - 1] == '\\'
  }

  /**
   * `q[s..e]` matches the placeholder pattern: a `{` and a `}`, neither
   * preceded by a backslash, with no brace of either kind between them.
   */
  predicate IsOccurrence(q: string, s: nat, e: nat) {
    && s + 2 <= e <= |q|
    && q[s] == '{' && !Escaped(q, s)
    && q[e - 1] == '}' && !Escaped(q, e - 1)
    && forall k :: s < k < e - 1 ==> !IsBrace(q[k])
  }

  /** The first brace at or after `from`, or `|q|` when there is none. */
  function NextBrace(q: string, from: nat): (j: nat)
    requires from <= |q|
    ensures from <= j <= |q|
    ensures j < |q| ==> IsBrace(q[j])
    ensures forall k :: from <= k < j ==> !IsBrace(q[k])
    decreases |q| - from
  {
    if from == |q| || IsBrace(q[from]) then from else NextBrace(q, from + 1)
  }

  /** The end of the match that starts at `p`, if the pattern matches there. */
  function MatchAt(q: string, p: nat): (r: Option<nat>)
    requires p < |q|
    ensures forall e: nat :: IsOccurrence(q, p, e) <==> r == Some(e)
  {
    if q[p] != '{' || Escaped(q, p) then None
    else
      var c := NextBrace(q, p + 1);
      if c < |q| && q[c] == '}' && q[c - 1] != '\\' then Some(c + 1) else None
  }

  /** The leftmost match starting at or after `from`, as `(start, end)`: one `exec` of the global regex. */
  function FindOccurrence(q: string, from: nat): (r: Option<(nat, nat)>)
    requires from <= |q|
    ensures r.Some? ==> from <= r.value.0 && IsOccurrence(q, r.value.0, r.value.1)
    ensures forall s, e :: from <= s && IsOccurrence(q, s, e) ==> r.Some? && r.value.0 <= s
    decreases |q| - from
  {
    if from == |q| then None
    else
      match MatchAt(q, from)
      case Some(e) => Some((from, e))
      case None => FindOccurrence(q, from + 1)
  }

  /** `hasParameters`: the pattern matches somewhere, a malformed `{}` included. */
  function HasParameters(query: string): (r: bool)
    ensures r <==> exists s, e :: IsOccurrence(query, s, e)
  {
    FindOccurrence(query, 0).Some?
  }

  // ---------------------------------------------------------------------------
  // One placeholder's content
  // ---------------------------------------------------------------------------

  /** Either a parameter or the error a malformed placeholder produces. */
  datatype ContentResult = Parameter(parameter: QueryParameter) | Error(error: QueryParseError)

  /** `content.split(':')`: colon-free parts which, joined with `:`, restore the content. */
  function SplitByColons(content: string): (parts: seq<string>)
    ensures |parts| >= 1 && Join(parts, ":") == content
    ensures forall i :: 0 <= i < |parts| ==> ':' !in parts[i]
  {
    JoinSplit(content, ':');
    SplitHasNoSeparator(content, ':');
    Split(content, ':')
  }

  /**
   * Reads `Label:Type:Default` from the text between the braces. Every error
   * spans the whole placeholder; a parameter carries the given index and span.
   */
  function ParseParameterContent(content: string, index: nat, rawMatch: string, startIndex: nat, endIndex: nat): (r: ContentResult)
    ensures r.Error? ==> r.error.startIndex == startIndex && r.error.endIndex == endIndex
    ensures r.Parameter? ==> && r.parameter.index == index && r.parameter.rawMatch == rawMatch
                             && r.parameter.startIndex == startIndex && r.parameter.endIndex == endIndex
                             && r.parameter.labelText != ""
    ensures (forall k :: 0 <= k < |content| ==> IsWhitespace(content[k])) ==>
              r == Error(QueryParseError(EmptyDefinition, startIndex, endIndex))
  {
    TrimSpec(content);
    if Trim(content) == "" then
      Error(QueryParseError(EmptyDefinition, startIndex, endIndex))
    else
      var parts := SplitByColons(content);
      var labelText := Trim(parts[0]);
      var typeName := if |parts| > 1 then Trim(parts[1]) else "";
      if labelText == "" then
        Error(QueryParseError(MissingLabel, startIndex, endIndex))
      else if typeName != "" && ComponentTypeNamed(typeName).None? then
        Error(QueryParseError(InvalidTypeMessage(typeName), startIndex, endIndex))
      else
        var componentType := if typeName != "" then ComponentTypeNamed(typeName).value else StringInput;
        var defaultValue := if |parts| > 2 then Trim(Join(parts[2..], ":")) else "";
        Parameter(QueryParameter(labelText, componentType, defaultValue, index, rawMatch, startIndex, endIndex))
  }

  /** A colon in the content makes it more than white space. */
  lemma ColonIsNotBlank(content: string, at: nat)
    requires at < |content| && content[at] == ':'
    ensures Trim(content) != ""
  {
    TrimSpec(content);
    assert !IsWhitespace(content[at]);
  }

  /** `{Label}`: the trimmed label, type StringInput, empty default. */
  lemma {:induction false} LabelOnlyContent(labelPart: string, index: nat, startIndex: nat, endIndex: nat)
    requires ':' !in labelPart && Trim(labelPart) != ""
    ensures var raw := "{" + labelPart + "}";
            ParseParameterContent(labelPart, index, raw, startIndex, endIndex)
            == Parameter(QueryParameter(Trim(labelPart), StringInput, "", index, raw, startIndex, endIndex))
  {
    SplitWithoutSeparator(labelPart, ':');
  }

  /** `{Label:Type}`: a blank type means StringInput, an unknown one is an error; the default is empty. */
  lemma {:induction false} LabelTypeContent(labelPart: string, typeText: string, index: nat, raw: string, startIndex: nat, endIndex: nat)
    requires ':' !in labelPart && ':' !in typeText && Trim(labelPart) != ""
    ensures var r := ParseParameterContent(labelPart + ":" + typeText, index, raw, startIndex, endIndex);
            var t := Trim(typeText);
            && (t == "" ==> r == Parameter(QueryParameter(Trim(labelPart), StringInput, "", index, raw, startIndex, endIndex)))
            && (t != "" && ComponentTypeNamed(t).Some? ==>
                  r == Parameter(QueryParameter(Trim(labelPart), ComponentTypeNamed(t).value, "", index, raw, startIndex, endIndex)))
            && (t != "" && ComponentTypeNamed(t).None? ==>
                  r == Error(QueryParseError(InvalidTypeMessage(t), startIndex, endIndex)))
  {
    var content := labelPart + ":" + typeText;
    ColonIsNotBlank(content, |labelPart|);
    SplitAfterFirst(labelPart, ':', typeText);
    SplitWithoutSeparator(typeText, ':');
    assert SplitByColons(content) == [labelPart, typeText];
  }

  /** How `a:b:rest` splits when `a` and `b` hold no colon. */
  lemma ThreePartSplit(a: string, b: string, rest: string)
    requires ':' !in a && ':' !in b
    ensures SplitByColons(a + ":" + b + ":" + rest) == [a, b] + Split(rest, ':')
  {
    assert a + ":" + b + ":" + rest == a + [':'] + (b + [':'] + rest);
    SplitAfterFirst(a, ':', b + [':'] + rest);
    SplitAfterFirst(b, ':', rest);
  }

  /**
   * `{Label:Type:Default}`: everything after the second colon, further colons
   * included, is the default, trimmed; `{URL::http://x}` has default `http://x`.
   */
  lemma {:induction false} FullContent(labelPart: string, typeText: string, rest: string, index: nat, raw: string, startIndex: nat, endIndex: nat)
    requires ':' !in labelPart && ':' !in typeText && Trim(labelPart) != ""
    ensures var r := ParseParameterContent(labelPart + ":" + typeText + ":" + rest, index, raw, startIndex, endIndex);
            var t := Trim(typeText);
            && (t == "" ==> r == Parameter(QueryParameter(Trim(labelPart), StringInput, Trim(rest), index, raw, startIndex, endIndex)))
            && (t != "" && ComponentTypeNamed(t).Some? ==>
                  r == Parameter(QueryParameter(Trim(labelPart), ComponentTypeNamed(t).value, Trim(rest), index, raw, startIndex, endIndex)))
            && (t != "" && ComponentTypeNamed(t).None? ==>
                  r == Error(QueryParseError(InvalidTypeMessage(t), startIndex, endIndex)))
  {
    var content := labelPart + ":" + typeText + ":" + rest;
    ColonIsNotBlank(content, |labelPart|);
    ThreePartSplit(labelPart, typeText, rest);
    var parts := SplitByColons(content);
    assert parts[0] == labelPart && parts[1] == typeText && |parts| > 2;
    assert parts[2..] == Split(rest, ':');
    JoinSplit(rest, ':');
    assert Trim(Join(parts[2..], ":")) == Trim(rest);
  }

  /** A blank first part is a missing label, whatever follows. */
  lemma {:induction false} BlankLabelContent(labelPart: string, rest: string, index: nat, raw: string, startIndex: nat, endIndex: nat)
    requires ':' !in labelPart && Trim(labelPart) == ""
    ensures ParseParameterContent(labelPart + ":" + rest, index, raw, startIndex, endIndex)
            == Error(QueryParseError(MissingLabel, startIndex, endIndex))
  {
    var content := labelPart + ":" + rest;
    ColonIsNotBlank(content, |labelPart|);
    SplitAfterFirst(labelPart, ':', rest);
    assert SplitByColons(content)[0] == labelPart;
  }

  // ---------------------------------------------------------------------------
  // The occurrence loop, as a specification
  // ---------------------------------------------------------------------------

  /** The parameters and the errors the occurrence loop collects, in order. */
  datatype ScanResult = ScanResult(parameters: seq<QueryParameter>, errors: seq<QueryParseError>)

  /** What the occurrence loop collects from `from` on, numbering parameters from `index`. */
  function ScanFrom(q: string, from: nat, index: nat): ScanResult
    requires from <= |q|
  {
    ScanWith(q, from, index, ParseParameterContent)
  }

  /**
   * The occurrence loop for a given reader of placeholder contents. Keeping
   * the reader a parameter lets the facts about the loop be proved once,
   * without unfolding how one placeholder is read.
   */
  function ScanWith(q: string, from: nat, index: nat, readContent: (string, nat, string, nat, nat) -> ContentResult): ScanResult
    requires from <= |q|
    decreases |q| - from
  {
    match FindOccurrence(q, from)
    case None => ScanResult([], [])
    case Some(occurrence) =>
      var s := occurrence.0;
      var e := occurrence.1;
      var c := readContent(q[s + 1..e - 1], index, q[s..e], s, e);
      if c.Error? then
        var rest := ScanWith(q, e, index, readContent);
        ScanResult(rest.parameters, [c.error] + rest.errors)
      else
        var rest := ScanWith(q, e, index + 1, readContent);
        ScanResult([c.parameter] + rest.parameters, rest.errors)
  }

  /** One step of the loop: the occurrence found at `from` contributes its parameter or its error. */
  lemma {:induction false} ScanStep(q: string, from: nat, index: nat, s: nat, e: nat, readContent: (string, nat, string, nat, nat) -> ContentResult)
    requires from <= |q| && FindOccurrence(q, from) == Some((s, e))
    ensures e <= |q| && s + 2 <= e
    ensures var c := readContent(q[s + 1..e - 1], index, q[s..e], s, e);
            && (c.Error? ==> ScanWith(q, from, index, readContent) == ScanResult(ScanWith(q, e, index, readContent).parameters, [c.error] + ScanWith(q, e, index, readContent).errors))
            && (c.Parameter? ==> ScanWith(q, from, index, readContent) == ScanResult([c.parameter] + ScanWith(q, e, index + 1, readContent).parameters, ScanWith(q, e, index + 1, readContent).errors))
  {
  }

  /** The loop's invariant survives one more occurrence. */
  lemma ScanAdvance(q: string, from: nat, index: nat, s: nat, e: nat, c: ContentResult, ps: seq<QueryParameter>, es: seq<QueryParseError>)
    requires from <= |q| && FindOccurrence(q, from) == Some((s, e))
    requires s + 2 <= e <= |q| && c == ParseParameterContent(q[s + 1..e - 1], index, q[s..e], s, e)
    requires ps + ScanFrom(q, from, index).parameters == ScanFrom(q, 0, 0).parameters
    requires es + ScanFrom(q, from, index).errors == ScanFrom(q, 0, 0).errors
    ensures c.Error? ==> && ps + ScanFrom(q, e, index).parameters == ScanFrom(q, 0, 0).parameters
                         && (es + [c.error]) + ScanFrom(q, e, index).errors == ScanFrom(q, 0, 0).errors
    ensures c.Parameter? ==> && (ps + [c.parameter]) + ScanFrom(q, e, index + 1).parameters == ScanFrom(q, 0, 0).parameters
                             && es + ScanFrom(q, e, index + 1).errors == ScanFrom(q, 0, 0).errors
  {
    ScanStep(q, from, index, s, e, ParseParameterContent);
    if c.Error? {
      assert (es + [c.error]) + ScanFrom(q, e, index).errors == es + ([c.error] + ScanFrom(q, e, index).errors);
    } else {
      assert (ps + [c.parameter]) + ScanFrom(q, e, index + 1).parameters == ps + ([c.parameter] + ScanFrom(q, e, index + 1).parameters);
    }
  }

  /** A reader of placeholder contents that keeps the number and the span it is given. */
  ghost predicate KeepsSpan(readContent: (string, nat, string, nat, nat) -> ContentResult)
  {
    forall content, index, raw, s, e ::
      var c := readContent(content, index, raw, s, e);
      && (c.Error? ==> c.error.startIndex == s && c.error.endIndex == e)
      && (c.Parameter? ==> && c.parameter.index == index && c.parameter.rawMatch == raw
                           && c.parameter.startIndex == s && c.parameter.endIndex == e)
  }

  lemma ParseParameterContentKeepsSpan()
    ensures KeepsSpan(ParseParameterContent)
  {
  }

  /** The loop numbers the parameters it collects consecutively from `index`; errors take no number. */
  lemma {:induction false} ScanNumbering(q: string, from: nat, index: nat, readContent: (string, nat, string, nat, nat) -> ContentResult)
    requires from <= |q| && KeepsSpan(readContent)
    ensures var ps := ScanWith(q, from, index, readContent).parameters;
            forall i :: 0 <= i < |ps| ==> ps[i].index == index + i
    decreases |q| - from
  {
    match FindOccurrence(q, from)
    case None =>
    case Some(occurrence) =>
      var s, e := occurrence.0, occurrence.1;
      ScanStep(q, from, index, s, e, readContent);
      var c := readContent(q[s + 1..e - 1], index, q[s..e], s, e);
      if c.Error? {
        ScanNumbering(q, e, index, readContent);
      } else {
        ScanNumbering(q, e, index + 1, readContent);
        var ps := ScanWith(q, from, index, readContent).parameters;
        var rest := ScanWith(q, e, index + 1, readContent).parameters;
        assert ps == [c.parameter] + rest;
        assert c.parameter.index == index;
        forall i | 0 <= i < |ps| ensures ps[i].index == index + i {
          if i > 0 {
            assert ps[i] == rest[i - 1];
          }
        }
      }
  }

  /**
   * What the loop collects from `from` on are exactly the matches of the
   * pattern at or after `from`: each parameter and each error spans one, and
   * each one is collected as a parameter or as an error.
   */
  lemma ScanSpans(q: string, from: nat, index: nat, readContent: (string, nat, string, nat, nat) -> ContentResult)
    requires from <= |q| && KeepsSpan(readContent)
    ensures var r := ScanWith(q, from, index, readContent);
            && (forall p :: p in r.parameters ==>
                  from <= p.startIndex && IsOccurrence(q, p.startIndex, p.endIndex) && p.rawMatch == q[p.startIndex..p.endIndex])
            && (forall err :: err in r.errors ==> from <= err.startIndex && IsOccurrence(q, err.startIndex, err.endIndex))
            && (forall s, e :: from <= s && IsOccurrence(q, s, e) ==> Collected(r, s, e))
  {
    ScanSound(q, from, index, readContent);
    forall s, e | from <= s && IsOccurrence(q, s, e)
      ensures Collected(ScanWith(q, from, index, readContent), s, e)
    {
      ScanComplete(q, from, index, readContent, s, e);
    }
  }

  /** Everything the loop collects from `from` on spans a match of the pattern at or after `from`. */
  lemma {:induction false} ScanSound(q: string, from: nat, index: nat, readContent: (string, nat, string, nat, nat) -> ContentResult)
    requires from <= |q| && KeepsSpan(readContent)
    ensures var r := ScanWith(q, from, index, readContent);
            && (forall p :: p in r.parameters ==>
                  from <= p.startIndex && IsOccurrence(q, p.startIndex, p.endIndex) && p.rawMatch == q[p.startIndex..p.endIndex])
            && (forall err :: err in r.errors ==> from <= err.startIndex && IsOccurrence(q, err.startIndex, err.endIndex))
    decreases |q| - from
  {
    match FindOccurrence(q, from)
    case None =>
    case Some(occurrence) =>
      var s, e := occurrence.0, occurrence.1;
      ScanStep(q, from, index, s, e, readContent);
      var c := readContent(q[s + 1..e - 1], index, q[s..e], s, e);
      if c.Error? {
        ScanSound(q, e, index, readContent);
      } else {
        ScanSound(q, e, index + 1, readContent);
      }
  }

  /** Each parameter the loop collects is what reading its placeholder's content gave, under its own number. */
  lemma {:induction false} ScanContents(q: string, from: nat, index: nat, readContent: (string, nat, string, nat, nat) -> ContentResult)
    requires from <= |q| && KeepsSpan(readContent)
    ensures forall p :: p in ScanWith(q, from, index, readContent).parameters ==>
              && p.startIndex + 2 <= p.endIndex <= |q|
              && readContent(q[p.startIndex + 1..p.endIndex - 1], p.index, p.rawMatch, p.startIndex, p.endIndex) == Parameter(p)
    decreases |q| - from
  {
    match FindOccurrence(q, from)
    case None =>
    case Some(occurrence) =>
      var s, e := occurrence.0, occurrence.1;
      ScanStep(q, from, index, s, e, readContent);
      var c := readContent(q[s + 1..e - 1], index, q[s..e], s, e);
      if c.Error? {
        ScanContents(q, e, index, readContent);
      } else {
        ScanContents(q, e, index + 1, readContent);
        assert c.parameter.index == index && c.parameter.rawMatch == q[s..e];
        assert c.parameter.startIndex == s && c.parameter.endIndex == e;
      }
  }

  /** Some parameter or some error of `r` spans `[s, e)`. */
  ghost predicate Collected(r: ScanResult, s: nat, e: nat)
  {
    || (exists p :: p in r.parameters && p.startIndex == s && p.endIndex == e)
    || (exists err :: err in r.errors && err.startIndex == s && err.endIndex == e)
  }

  /** A match of the pattern ends at one place only. */
  lemma OccurrenceEndUnique(q: string, s: nat, e1: nat, e2: nat)
    requires IsOccurrence(q, s, e1) && IsOccurrence(q, s, e2)
    ensures e1 == e2
  {
    var m := MatchAt(q, s);
    assert m == Some(e1) && m == Some(e2);
  }

  /** Whatever `rest` collects, a result that extends it collects too. */
  lemma CollectedAppend(r: ScanResult, ps: seq<QueryParameter>, es: seq<QueryParseError>, rest: ScanResult, s: nat, e: nat)
    requires r.parameters == ps + rest.parameters && r.errors == es + rest.errors
    requires Collected(rest, s, e)
    ensures Collected(r, s, e)
  {
    if exists p :: p in rest.parameters && p.startIndex == s && p.endIndex == e {
      var p :| p in rest.parameters && p.startIndex == s && p.endIndex == e;
      assert p in r.parameters;
    } else {
      var err :| err in rest.errors && err.startIndex == s && err.endIndex == e;
      assert err in r.errors;
    }
  }

  /**
   * The first match at or after `from` starts no later than any other, and
   * one starting earlier ends before the other begins: the `{` of the later
   * one can neither lie inside it nor be its closing `}`.
   */
  lemma FirstOccurrenceBefore(q: string, from: nat, s0: nat, e0: nat, s: nat, e: nat)
    requires from <= |q| && FindOccurrence(q, from) == Some((s0, e0))
    requires from <= s && IsOccurrence(q, s, e)
    ensures s0 <= s && (s0 != s ==> e0 <= s)
  {
    if s0 != s {
      assert IsBrace(q[s]) && q[e0 - 1] != q[s];
    }
  }

  /** Every match of the pattern at or after `from` is collected, as a parameter or as an error. */
  lemma {:induction false} ScanComplete(q: string, from: nat, index: nat, readContent: (string, nat, string, nat, nat) -> ContentResult, s: nat, e: nat)
    requires from <= |q| && KeepsSpan(readContent) && from <= s && IsOccurrence(q, s, e)
    ensures Collected(ScanWith(q, from, index, readContent), s, e)
    decreases |q| - from
  {
    var occurrence := FindOccurrence(q, from).value;
    var s0, e0 := occurrence.0, occurrence.1;
    FirstOccurrenceBefore(q, from, s0, e0, s, e);
    if s0 == s {
      OccurrenceEndUnique(q, s, e0, e);
      CollectedFirst(q, from, index, readContent, s, e);
    } else {
      var c := readContent(q[s0 + 1..e0 - 1], index, q[s0..e0], s0, e0);
      ScanComplete(q, e0, if c.Error? then index else index + 1, readContent, s, e);
      CollectedLater(q, from, index, readContent, s0, e0, s, e);
    }
  }

  /** The first match is collected by the step that finds it. */
  lemma CollectedFirst(q: string, from: nat, index: nat, readContent: (string, nat, string, nat, nat) -> ContentResult, s: nat, e: nat)
    requires from <= |q| && KeepsSpan(readContent) && FindOccurrence(q, from) == Some((s, e))
    ensures Collected(ScanWith(q, from, index, readContent), s, e)
  {
    ScanStep(q, from, index, s, e, readContent);
    var c := readContent(q[s + 1..e - 1], index, q[s..e], s, e);
    var r := ScanWith(q, from, index, readContent);
    if c.Error? {
      assert c.error in r.errors;
    } else {
      assert c.parameter in r.parameters;
    }
  }

  /** What the scan collects after the first match, the scan from `from` collects too. */
  lemma CollectedLater(q: string, from: nat, index: nat, readContent: (string, nat, string, nat, nat) -> ContentResult, s0: nat, e0: nat, s: nat, e: nat)
    requires from <= |q| && FindOccurrence(q, from) == Some((s0, e0))
    requires var c := readContent(q[s0 + 1..e0 - 1], index, q[s0..e0], s0, e0);
             Collected(ScanWith(q, e0, if c.Error? then index else index + 1, readContent), s, e)
    ensures Collected(ScanWith(q, from, index, readContent), s, e)
  {
    ScanStep(q, from, index, s0, e0, readContent);
    var c := readContent(q[s0 + 1..e0 - 1], index, q[s0..e0], s0, e0);
    var r := ScanWith(q, from, index, readContent);
    if c.Error? {
      CollectedAppend(r, [], [c.error], ScanWith(q, e0, index, readContent), s, e);
    } else {
      CollectedAppend(r, [c.parameter], [], ScanWith(q, e0, index + 1, readContent), s, e);
    }
  }

  /** Everything the loop collects from `from` on starts at or after `from`. */
  lemma {:induction false} ScanStartsFrom(q: string, from: nat, index: nat, readContent: (string, nat, string, nat, nat) -> ContentResult)
    requires from <= |q| && KeepsSpan(readContent)
    ensures var r := ScanWith(q, from, index, readContent);
            && (forall i :: 0 <= i < |r.parameters| ==> from <= r.parameters[i].startIndex)
            && (forall i :: 0 <= i < |r.errors| ==> from <= r.errors[i].startIndex)
    decreases |q| - from
  {
    match FindOccurrence(q, from)
    case None =>
    case Some(occurrence) =>
      var s, e := occurrence.0, occurrence.1;
      ScanStep(q, from, index, s, e, readContent);
      var c := readContent(q[s + 1..e - 1], index, q[s..e], s, e);
      if c.Error? {
        ScanStartsFrom(q, e, index, readContent);
      } else {
        ScanStartsFrom(q, e, index + 1, readContent);
      }
  }

  /** Parameter spans in increasing order, without overlap. */
  ghost predicate ParametersInOrder(ps: seq<QueryParameter>)
  {
    forall i, j :: 0 <= i < j < |ps| ==> ps[i].endIndex <= ps[j].startIndex
  }

  /** Error spans in increasing order, without overlap. */
  ghost predicate ErrorsInOrder(es: seq<QueryParseError>)
  {
    forall i, j :: 0 <= i < j < |es| ==> es[i].endIndex <= es[j].startIndex
  }

  lemma ConsParametersInOrder(p: QueryParameter, rest: seq<QueryParameter>)
    requires ParametersInOrder(rest)
    requires forall k :: 0 <= k < |rest| ==> p.endIndex <= rest[k].startIndex
    ensures ParametersInOrder([p] + rest)
  {
    var ps := [p] + rest;
    forall i, j | 0 <= i < j < |ps|
      ensures ps[i].endIndex <= ps[j].startIndex
    {
      assert ps[j] == rest[j - 1];
      if i > 0 {
        assert ps[i] == rest[i - 1];
      }
    }
  }

  lemma ConsErrorsInOrder(err: QueryParseError, rest: seq<QueryParseError>)
    requires ErrorsInOrder(rest)
    requires forall k :: 0 <= k < |rest| ==> err.endIndex <= rest[k].startIndex
    ensures ErrorsInOrder([err] + rest)
  {
    var es := [err] + rest;
    forall i, j | 0 <= i < j < |es|
      ensures es[i].endIndex <= es[j].startIndex
    {
      assert es[j] == rest[j - 1];
      if i > 0 {
        assert es[i] == rest[i - 1];
      }
    }
  }

  /** The loop's matches do not overlap: each span ends before the next one starts. */
  lemma {:induction false} ScanInOrder(q: string, from: nat, index: nat, readContent: (string, nat, string, nat, nat) -> ContentResult)
    requires from <= |q| && KeepsSpan(readContent)
    ensures ParametersInOrder(ScanWith(q, from, index, readContent).parameters)
    ensures ErrorsInOrder(ScanWith(q, from, index, readContent).errors)
    decreases |q| - from
  {
    match FindOccurrence(q, from)
    case None =>
    case Some(occurrence) =>
      var s, e := occurrence.0, occurrence.1;
      ScanStep(q, from, index, s, e, readContent);
      var c := readContent(q[s + 1..e - 1], index, q[s..e], s, e);
      var next := if c.Error? then index else index + 1;
      ScanInOrder(q, e, next, readContent);
      ScanStartsFrom(q, e, next, readContent);
      var rest := ScanWith(q, e, next, readContent);
      if c.Error? {
        ConsErrorsInOrder(c.error, rest.errors);
      } else {
        ConsParametersInOrder(c.parameter, rest.parameters);
      }
  }

  // ---------------------------------------------------------------------------
  // The brace-balance pass, as a specification
  // ---------------------------------------------------------------------------

  /** The depth after character `i`, given the depth before it; an unmatched `}` resets to 0. */
  function DepthAfter(q: string, i: nat, depth: nat): nat
    requires i < |q|
  {
    if Escaped(q, i) then depth
    else if q[i] == '{' then depth + 1
    else if q[i] == '}' then (if depth == 0 then 0 else depth - 1)
    else depth
  }

  /** The brace depth after the first `n` characters. */
  function Depth(q: string, n: nat): nat
    requires n <= |q|
  {
    if n == 0 then 0 else DepthAfter(q, n - 1, Depth(q, n - 1))
  }

  /** `q[i]` is an unescaped `}` met at depth 0. */
  predicate UnmatchedClosingAt(q: string, i: nat)
    requires i < |q|
  {
    q[i] == '}' && !Escaped(q, i) && Depth(q, i) == 0
  }

  /** The closing-brace errors among the first `n` characters, left to right. */
  function ClosingErrors(q: string, n: nat): seq<QueryParseError>
    requires n <= |q|
  {
    if n == 0 then []
    else ClosingErrors(q, n - 1) + (if UnmatchedClosingAt(q, n - 1) then [QueryParseError(UnmatchedClosing, n - 1, n)] else [])
  }

  /** The last unescaped `{` among the first `n` characters that opened a group at depth 0, or -1. */
  function LastGroupOpen(q: string, n: nat): (r: int)
    requires n <= |q|
    ensures -1 <= r < n
    ensures r >= 0 ==> q[r] == '{' && !Escaped(q, r) && Depth(q, r) == 0
  {
    if n == 0 then -1
    else if q[n - 1] == '{' && !Escaped(q, n - 1) && Depth(q, n - 1) == 0 then n - 1
    else LastGroupOpen(q, n - 1)
  }

  /** All errors of the balance pass: closing-brace errors, then at most one opening-brace error. */
  function BraceErrors(q: string): seq<QueryParseError>
  {
    var last := LastGroupOpen(q, |q|);
    ClosingErrors(q, |q|)
    + (if Depth(q, |q|) > 0 && last >= 0 then [QueryParseError(UnmatchedOpening, last as nat, |q|)] else [])
  }

  /** Every closing-brace error marks one unescaped `}` met at depth 0. */
  lemma {:induction false} ClosingErrorsSound(q: string, n: nat)
    requires n <= |q|
    ensures forall err :: err in ClosingErrors(q, n) ==>
              && err.message == UnmatchedClosing && err.startIndex < n
              && err.endIndex == err.startIndex + 1 && UnmatchedClosingAt(q, err.startIndex)
  {
    if n > 0 {
      ClosingErrorsSound(q, n - 1);
    }
  }

  /** Every unescaped `}` met at depth 0 has its closing-brace error. */
  lemma {:induction false} ClosingErrorsComplete(q: string, n: nat)
    requires n <= |q|
    ensures forall i :: 0 <= i < n && UnmatchedClosingAt(q, i) ==> QueryParseError(UnmatchedClosing, i, i + 1) in ClosingErrors(q, n)
  {
    if n > 0 {
      ClosingErrorsComplete(q, n - 1);
    }
  }

  /** The closing-brace errors come left to right. */
  lemma {:induction false} ClosingErrorsInOrder(q: string, n: nat)
    requires n <= |q|
    ensures ErrorsInOrder(ClosingErrors(q, n))
  {
    if n > 0 {
      ClosingErrorsInOrder(q, n - 1);
      ClosingErrorsSound(q, n - 1);
      var prev := ClosingErrors(q, n - 1);
      if UnmatchedClosingAt(q, n - 1) {
        var es := prev + [QueryParseError(UnmatchedClosing, n - 1, n)];
        forall i, j | 0 <= i < j < |es|
          ensures es[i].endIndex <= es[j].startIndex
        {
          assert es[i] in prev;
        }
      }
    }
  }

  /** While the depth is positive, a top-level group is open: the guard `lastOpenIndex >= 0` never fails. */
  lemma {:induction false} OpenGroupWhileDeep(q: string, n: nat)
    requires n <= |q| && Depth(q, n) > 0
    ensures LastGroupOpen(q, n) >= 0
    ensures forall k :: LastGroupOpen(q, n) < k <= n ==> Depth(q, k) > 0
  {
    var d := Depth(q, n - 1);
    if q[n - 1] == '{' && !Escaped(q, n - 1) && d == 0 {
    } else {
      assert d > 0;
      OpenGroupWhileDeep(q, n - 1);
    }
  }

  /**
   * The balance pass reports every unmatched `}` and, when braces stay open at
   * the end, one error from the `{` that opened the last top-level group to the
   * end of the query; nothing else.
   */
  lemma BraceErrorsExact(q: string)
    ensures var es := BraceErrors(q);
            var closing := ClosingErrors(q, |q|);
            && (Depth(q, |q|) == 0 ==> es == closing)
            && (Depth(q, |q|) > 0 ==>
                  var open := LastGroupOpen(q, |q|);
                  && 0 <= open < |q| && q[open] == '{' && !Escaped(q, open) && Depth(q, open) == 0
                  && (forall k :: open < k <= |q| ==> Depth(q, k) > 0)
                  && es == closing + [QueryParseError(UnmatchedOpening, open, |q|)])
  {
    if Depth(q, |q|) > 0 {
      OpenGroupWhileDeep(q, |q|);
    }
  }

  /** Text without braces is balanced. */
  lemma {:induction false} BraceFreeIsBalanced(q: string, n: nat)
    requires n <= |q| && forall k :: 0 <= k < |q| ==> !IsBrace(q[k])
    ensures Depth(q, n) == 0 && ClosingErrors(q, n) == []
  {
    if n > 0 {
      BraceFreeIsBalanced(q, n - 1);
    }
  }

  /** The whole parse: occurrence errors first, then the balance errors. */
  function Parse(q: string): (r: ParsedQuery)
    ensures r.originalQuery == q
    ensures r.isValid <==> r.errors == []
  {
    var scan := ScanFrom(q, 0, 0);
    var errors := scan.errors + BraceErrors(q);
    ParsedQuery(q, scan.parameters, errors == [], errors)
  }

  /** Parameters are numbered 0, 1, 2, … in order; a malformed placeholder takes no number. */
  lemma ParseNumbering(q: string)
    ensures var ps := Parse(q).parameters;
            forall i :: 0 <= i < |ps| ==> ps[i].index == i
  {
    ParseParameterContentKeepsSpan();
    ScanNumbering(q, 0, 0, ParseParameterContent);
    assert Parse(q).parameters == ScanWith(q, 0, 0, ParseParameterContent).parameters;
  }

  /** Every parameter records its own span of the query. */
  lemma ParseParameterSpans(q: string)
    ensures forall p :: p in Parse(q).parameters ==> SpanOf(q, p)
  {
    ParseParameterContentKeepsSpan();
    ScanSpanText(q, ParseParameterContent);
    assert Parse(q).parameters == ScanWith(q, 0, 0, ParseParameterContent).parameters;
  }

  /**
   * `p.rawMatch` is the query's text at `[startIndex, endIndex)`, so
   * `endIndex == startIndex + |rawMatch|`; it opens with an unescaped `{`,
   * closes with an unescaped `}` and holds no other brace.
   */
  ghost predicate SpanOf(q: string, p: QueryParameter)
  {
    && p.startIndex < p.endIndex <= |q|
    && q[p.startIndex..p.endIndex] == p.rawMatch
    && p.endIndex == p.startIndex + |p.rawMatch|
    && p.rawMatch[0] == '{' && p.rawMatch[|p.rawMatch| - 1] == '}'
    && !Escaped(q, p.startIndex) && !Escaped(q, p.endIndex - 1)
    && (forall k :: 0 < k < |p.rawMatch| - 1 ==> !IsBrace(p.rawMatch[k]))
  }

  lemma ScanSpanText(q: string, readContent: (string, nat, string, nat, nat) -> ContentResult)
    requires KeepsSpan(readContent)
    ensures forall p :: p in ScanWith(q, 0, 0, readContent).parameters ==> SpanOf(q, p)
  {
    ScanSound(q, 0, 0, readContent);
    forall p | p in ScanWith(q, 0, 0, readContent).parameters
      ensures SpanOf(q, p)
    {
      OccurrenceText(q, p.startIndex, p.endIndex);
    }
  }

  /** The text of a match: braces at both ends and none inside. */
  lemma OccurrenceText(q: string, s: nat, e: nat)
    requires IsOccurrence(q, s, e)
    ensures forall k :: 0 < k < e - s - 1 ==> !IsBrace(q[s..e][k])
  {
    forall k | 0 < k < e - s - 1
      ensures !IsBrace(q[s..e][k])
    {
      assert q[s..e][k] == q[s + k];
    }
  }

  /** Every per-placeholder error spans a match of the pattern. */
  lemma ParseOccurrenceErrorSpans(q: string)
    ensures forall err :: err in ScanFrom(q, 0, 0).errors ==> IsOccurrence(q, err.startIndex, err.endIndex)
  {
    ParseParameterContentKeepsSpan();
    ScanSound(q, 0, 0, ParseParameterContent);
  }

  /** Every match of the pattern in the query yields a parameter or a placeholder error over its span. */
  lemma ParseComplete(q: string, s: nat, e: nat)
    requires IsOccurrence(q, s, e)
    ensures || (exists p :: p in Parse(q).parameters && p.startIndex == s && p.endIndex == e)
            || (exists err :: err in ScanFrom(q, 0, 0).errors && err.startIndex == s && err.endIndex == e)
  {
    ParseParameterContentKeepsSpan();
    ScanComplete(q, 0, 0, ParseParameterContent, s, e);
    assert Parse(q).parameters == ScanWith(q, 0, 0, ParseParameterContent).parameters;
  }

  /**
   * Parameter `i` of a parse is what `parseParameterContent` makes of the
   * text between its braces, with number `i`, its raw text and its span.
   */
  lemma ParseParameterContents(q: string)
    ensures var ps := Parse(q).parameters;
            forall i :: 0 <= i < |ps| ==>
              var p := ps[i];
              && p.startIndex + 2 <= p.endIndex <= |q|
              && ParseParameterContent(q[p.startIndex + 1..p.endIndex - 1], i, q[p.startIndex..p.endIndex], p.startIndex, p.endIndex)
                 == Parameter(p)
  {
    ParseParameterContentKeepsSpan();
    ScanContents(q, 0, 0, ParseParameterContent);
    ScanSound(q, 0, 0, ParseParameterContent);
    ParseNumbering(q);
    assert Parse(q).parameters == ScanWith(q, 0, 0, ParseParameterContent).parameters;
  }

  /** Matches are found left to right without overlap: start positions strictly increase. */
  lemma ParseInOrder(q: string)
    ensures var ps := Parse(q).parameters;
            forall i, j :: 0 <= i < j < |ps| ==> ps[i].endIndex <= ps[j].startIndex && ps[i].startIndex < ps[j].startIndex
    ensures ErrorsInOrder(ScanFrom(q, 0, 0).errors)
  {
    ParseParameterContentKeepsSpan();
    ScanInOrder(q, 0, 0, ParseParameterContent);
    ScanSound(q, 0, 0, ParseParameterContent);
    var ps := Parse(q).parameters;
    forall i, j | 0 <= i < j < |ps|
      ensures ps[i].startIndex < ps[j].startIndex
    {
      assert ps[i] in ps;
    }
  }

  /** The empty query and any text without braces are valid and have no parameters. */
  lemma ParseBraceFree(q: string)
    requires forall k :: 0 <= k < |q| ==> !IsBrace(q[k])
    ensures Parse(q) == ParsedQuery(q, [], true, [])
  {
    BraceFreeIsBalanced(q, |q|);
    assert FindOccurrence(q, 0).None?;
  }

  /** `hasParameters` is false exactly when parsing finds neither a parameter nor a malformed placeholder. */
  lemma HasParametersMeansMatches(q: string)
    ensures !HasParameters(q) <==> ScanFrom(q, 0, 0) == ScanResult([], [])
  {
    if HasParameters(q) {
      var occurrence := FindOccurrence(q, 0).value;
      ScanStep(q, 0, 0, occurrence.0, occurrence.1, ParseParameterContent);
    }
  }

  /** A query with exactly one match: the loop reads that one placeholder. */
  lemma SingleOccurrence(q: string, s: nat, e: nat, readContent: (string, nat, string, nat, nat) -> ContentResult)
    requires FindOccurrence(q, 0) == Some((s, e)) && e <= |q| && FindOccurrence(q, e) == None
    requires readContent(q[s + 1..e - 1], 0, q[s..e], s, e).Parameter?
    ensures ScanWith(q, 0, 0, readContent) == ScanResult([readContent(q[s + 1..e - 1], 0, q[s..e], s, e).parameter], [])
  {
    ScanStep(q, 0, 0, s, e, readContent);
  }

  /** A first placeholder whose text between the braces is a label of letters only. */
  lemma PlainLabelAt(q: string, s: nat, e: nat)
    requires s + 2 < e <= |q| && q[s] == '{' && q[e - 1] == '}'
    requires forall k :: s < k < e - 1 ==> 'A' <= q[k] <= 'z'
    ensures ParseParameterContent(q[s + 1..e - 1], 0, q[s..e], s, e)
            == Parameter(QueryParameter(q[s + 1..e - 1], StringInput, "", 0, q[s..e], s, e))
  {
    var name := q[s + 1..e - 1];
    assert q[s..e] == "{" + name + "}";
    TrimOfTrimmed(name);
    assert ':' !in name by {
      forall k | 0 <= k < |name| ensures name[k] != ':' {
        assert name[k] == q[s + 1 + k];
      }
    }
    LabelOnlyContent(name, 0, s, e);
  }

  /** A query whose one placeholder holds a label of letters only scans to that one parameter. */
  lemma SinglePlainPlaceholder(q: string, s: nat, e: nat)
    requires FindOccurrence(q, 0) == Some((s, e)) && FindOccurrence(q, e) == None
    requires s + 2 < e <= |q| && q[s] == '{' && q[e - 1] == '}'
    requires forall k :: s < k < e - 1 ==> 'A' <= q[k] <= 'z'
    ensures ScanFrom(q, 0, 0) == ScanResult([QueryParameter(q[s + 1..e - 1], StringInput, "", 0, q[s..e], s, e)], [])
  {
    PlainLabelAt(q, s, e);
    SingleOccurrence(q, s, e, ParseParameterContent);
  }

  /** The only match in `{{a}}` is `{a}` at `[1, 4)`. */
  lemma NestedBracesOccurrence()
    ensures FindOccurrence("{{a}}", 0) == Some((1, 4)) && FindOccurrence("{{a}}", 4) == None
  {
    var q := "{{a}}";
    assert MatchAt(q, 0) == None by { assert NextBrace(q, 1) == 1; }
    assert MatchAt(q, 1) == Some(4) by { assert NextBrace(q, 2) == 3; }
  }

  /** The braces of `{{a}}` balance. */
  lemma NestedBracesBalance()
    ensures BraceErrors("{{a}}") == []
  {
    var q := "{{a}}";
    assert Depth(q, 5) == 0;
    assert ClosingErrors(q, 5) == [];
  }

  /**
   * `{{a}}`: the inner `{a}` is the placeholder, at `[1, 4)`; the outer braces
   * balance, so the query is valid.
   */
  lemma NestedBracesExample()
    ensures Parse("{{a}}") == ParsedQuery("{{a}}", [QueryParameter("a", StringInput, "", 0, "{a}", 1, 4)], true, [])
  {
    var q := "{{a}}";
    NestedBracesOccurrence();
    NestedBracesBalance();
    SinglePlainPlaceholder(q, 1, 4);
    assert q[2..3] == "a" && q[1..4] == "{a}";
  }

  /** The only match in `x = {Foo}` is at `[4, 9)`. */
  lemma PlaceholderSpanOccurrence()
    ensures FindOccurrence("x = {Foo}", 0) == Some((4, 9)) && FindOccurrence("x = {Foo}", 9) == None
  {
    var q := "x = {Foo}";
    assert MatchAt(q, 4) == Some(9) by { assert NextBrace(q, 5) == 8; }
  }

  /** The characters of `x = {Foo}` the example relies on. */
  lemma PlaceholderSpanText(q: string)
    requires q == "x = {Foo}"
    ensures |q| == 9 && q[4] == '{' && q[8] == '}' && forall k :: 4 < k < 8 ==> 'A' <= q[k] <= 'z'
    ensures q[5..8] == "Foo" && q[4..9] == "{Foo}"
  {
  }

  /** In `x = {Foo}` the placeholder starts at 4 and ends at 9. */
  lemma PlaceholderSpanExample()
    ensures Parse("x = {Foo}").parameters == [QueryParameter("Foo", StringInput, "", 0, "{Foo}", 4, 9)]
  {
    PlaceholderSpanScan();
  }

  lemma PlaceholderSpanScan()
    ensures ScanFrom("x = {Foo}", 0, 0).parameters == [QueryParameter("Foo", StringInput, "", 0, "{Foo}", 4, 9)]
  {
    var q := "x = {Foo}";
    PlaceholderSpanOccurrence();
    PlaceholderSpanText(q);
    SinglePlainPlaceholder(q, 4, 9);
  }

  // ---------------------------------------------------------------------------
  // The service's operations
  // ---------------------------------------------------------------------------

  /** `parseQuery`: one pass over the matches, then the balance pass. */
  method ParseQuery(query: string) returns (r: ParsedQuery)
    ensures r == Parse(query)
  {
    var parameters: seq<QueryParameter> := [];
    var errors: seq<QueryParseError> := [];
    var index: nat := 0;
    var lastIndex: nat := 0;
    var found := FindOccurrence(query, lastIndex);
    while found.Some?
      invariant lastIndex <= |query|
      invariant found == FindOccurrence(query, lastIndex)
      invariant parameters + ScanFrom(query, lastIndex, index).parameters == ScanFrom(query, 0, 0).parameters
      invariant errors + ScanFrom(query, lastIndex, index).errors == ScanFrom(query, 0, 0).errors
      decreases |query| - lastIndex
    {
      var startIndex := found.value.0;
      var endIndex := found.value.1;
      var rawMatch := query[startIndex..endIndex];
      var content := query[startIndex + 1..endIndex - 1];
      var parseResult := ParseParameterContent(content, index, rawMatch, startIndex, endIndex);
      ScanAdvance(query, lastIndex, index, startIndex, endIndex, parseResult, parameters, errors);

      if parseResult.Error? {
        errors := errors + [parseResult.error];
      } else {
        parameters := parameters + [parseResult.parameter];
        index := index + 1;
      }
      lastIndex := endIndex;
      found := FindOccurrence(query, lastIndex);
    }
    assert ScanFrom(query, lastIndex, index) == ScanResult([], []);
    assert parameters == ScanFrom(query, 0, 0).parameters;
    assert errors == ScanFrom(query, 0, 0).errors;
    var unmatchedErrors := CheckUnmatchedBraces(query);
    errors := errors + unmatchedErrors;
    r := ParsedQuery(query, parameters, |errors| == 0, errors);
  }

  /** `checkUnmatchedBraces`: the depth-tracking loop. */
  method CheckUnmatchedBraces(query: string) returns (errors: seq<QueryParseError>)
    ensures errors == BraceErrors(query)
  {
    errors := [];
    var depth: int := 0;
    var lastOpenIndex: int := -1;
    for i := 0 to |query|
      invariant depth == Depth(query, i)
      invariant lastOpenIndex == LastGroupOpen(query, i)
      invariant errors == ClosingErrors(query, i)
    {
      if i > 0 && query[i - 1] == '\\' {
        continue;
      }
      if query[i] == '{' {
        if depth == 0 {
          lastOpenIndex := i;
        }
        depth := depth + 1;
      } else if query[i] == '}' {
        depth := depth - 1;
        if depth < 0 {
          errors := errors + [QueryParseError(UnmatchedClosing, i, i + 1)];
          depth := 0;
        }
      }
    }
    if depth > 0 && lastOpenIndex >= 0 {
      errors := errors + [QueryParseError(UnmatchedOpening, lastOpenIndex, |query|)];
    }
  }

  /** `s.replace(/\\c/g, c)`: each backslash-`c` pair, scanning left to right, becomes `c`. */
  function ReplaceEscaped(s: string, c: char): string
  {
    if |s| >= 2 && s[0] == '\\' && s[1] == c then [c] + ReplaceEscaped(s[2..], c)
    else if s == [] then []
    else [s[0]] + ReplaceEscaped(s[1..], c)
  }

  /** `unescapeBraces`: `\{` becomes `{`, then `\}` becomes `}`. */
  function UnescapeBraces(str: string): string
  {
    ReplaceEscaped(ReplaceEscaped(str, '{'), '}')
  }

  /** Puts a backslash before every `c`: the inverse of `ReplaceEscaped`. */
  function Escape(s: string, c: char): string
  {
    if s == [] then []
    else (if s[0] == c then ['\\', c] else [s[0]]) + Escape(s[1..], c)
  }

  /** An escaped text never starts with the bare character `c`. */
  lemma EscapeStart(s: string, c: char)
    requires c != '\\'
    ensures Escape(s, c) == [] || Escape(s, c)[0] != c
  {
  }

  /** Unescaping undoes escaping, also where the text already holds backslashes. */
  lemma {:induction false} EscapeRoundTrip(s: string, c: char)
    requires c != '\\'
    ensures ReplaceEscaped(Escape(s, c), c) == s
  {
    if s != [] {
      EscapeRoundTrip(s[1..], c);
      EscapeStart(s[1..], c);
      var rest := Escape(s[1..], c);
      if s[0] == c {
        assert Escape(s, c) == ['\\', c] + rest;
        assert (['\\', c] + rest)[2..] == rest;
      } else {
        assert Escape(s, c) == [s[0]] + rest;
        assert ([s[0]] + rest)[1..] == rest;
      }
    }
  }

  /** A text with no backslash-`c` pair is left as it is. */
  lemma {:induction false} ReplaceEscapedWithoutPairs(s: string, c: char)
    requires forall k :: 0 <= k < |s| - 1 ==> !(s[k] == '\\' && s[k + 1] == c)
    ensures ReplaceEscaped(s, c) == s
  {
    if s != [] {
      ReplaceEscapedWithoutPairs(s[1..], c);
    }
  }

  /** Escapes both kinds of brace so that they stay literal. */
  function EscapeBraces(s: string): string
  {
    Escape(Escape(s, '}'), '{')
  }

  /** `unescapeBraces` restores any text whose braces were escaped. */
  lemma UnescapeEscapedBraces(s: string)
    ensures UnescapeBraces(EscapeBraces(s)) == s
  {
    EscapeRoundTrip(Escape(s, '}'), '{');
    EscapeRoundTrip(s, '}');
  }

  /** Text in which no backslash stands before a brace is left as it is by `unescapeBraces`. */
  lemma UnescapeWithoutEscapedBraces(s: string)
    requires forall k :: 0 <= k < |s| - 1 ==> !(s[k] == '\\' && IsBrace(s[k + 1]))
    ensures UnescapeBraces(s) == s
  {
    ReplaceEscapedWithoutPairs(s, '{');
    ReplaceEscapedWithoutPairs(s, '}');
  }

  /** `getDisplayQuery`: the query as it is. */
  function GetDisplayQuery(query: string): (r: string)
    ensures r == query
  {
    query
  }
}
