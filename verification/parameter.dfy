/**
 * The identifier codec of `src/parameter.ts`: a record of four required
 * fields and an optional application, rendered as a `/`-joined path or as a
 * (screaming) train-case token, and parsed back from a `/`-delimited string
 * whose segment count decides whether the application is present.
 */
module Parameters {
  import opened Wrappers
  import opened Text
  import opened TrainCase

  /** The `Properties` enumeration: field counts without and with an application. */
  const Base: nat := 4
  const Extended: nat := 5

  /** The `Type` enumeration of rendering conventions. */
  datatype Type = Directory | Train | Dash
  {
    /** The string constant each member stands for. */
    function Name(): string
    {
      match this
      case Directory => "Directory"
      case Train => "Screaming-Train-Case"
      case Dash => "Train-Case"
    }
  }

  /** What the codec can throw. */
  datatype Error =
    | EnumerationError   // `Parameter-Enumeration-Error`: a segment count other than 4 or 5
    | TypeError          // `Title` read the first character of an empty piece

  /**
   * A parameter; the same shape serves as the constructor's `Options`.
   * `application == None` means the property is absent.
   */
  datatype Parameter = Parameter(
    organization: string,
    environment: string,
    application: Option<string>,
    service: string,
    identifier: string)

  /** The constructor keeps the application only when it is truthy. */
  predicate Normalized(p: Parameter)
  {
    p.application != Some("")
  }

  /**
   * `new Parameter(options)`: copies every field and deletes a falsy
   * application (absent or empty); every other field is kept, even empty.
   */
  function Create(options: Parameter): (p: Parameter)
    ensures Normalized(p)
    ensures p.application.Some? <==> options.application.Some? && options.application.value != ""
    ensures p.application.Some? ==> p == options
    ensures p.(application := options.application) == options
  {
    if options.application == Some("") then options.(application := None) else options
  }

  /**
   * The defined property values in declaration order: organization,
   * environment, the application when present, service, identifier.
   */
  function Fields(p: Parameter): (fields: seq<string>)
    ensures |fields| == if p.application.Some? then Extended else Base
    ensures fields[0] == p.organization && fields[1] == p.environment
    ensures p.application.Some? ==> fields[2] == p.application.value
    ensures fields[|fields| - 2] == p.service && fields[|fields| - 1] == p.identifier
  {
    [p.organization, p.environment]
    + (if p.application.Some? then [p.application.value] else [])
    + [p.service, p.identifier]
  }

  /** `(prefix) ? prefix + s : s`: a prefix is prepended only when it is truthy. */
  function Prefixed(prefix: Option<string>, s: string): string
  {
    if prefix.Some? && prefix.value != "" then prefix.value + s else s
  }

  /**
   * `parameter.string(type, prefix)`. The field values are joined with `-`
   * for "Screaming-Train-Case" and with `/` otherwise, and normalised with
   * condensing. "Screaming-Train-Case" returns the title of that cast,
   * "Train-Case" the cast itself, and every other type the raw join.
   */
  function Render(p: Parameter, convention: string, prefix: Option<string>): (r: Result<string, Error>)
    ensures r.Err? ==> convention == Train.Name() && r.error == TypeError
    ensures convention != Train.Name() ==> r.Ok?
  {
    var property := Join(Fields(p), if convention == "Directory" then '/' else if convention == "Screaming-Train-Case" then '-' else '/');
    var cast := Case(property, Default);
    if convention == "Screaming-Train-Case" then
      match Scream(cast)
      case None => Err(TypeError)
      case Some(title) => Ok(Prefixed(prefix, title))
    else if convention == "Train-Case" then Ok(Prefixed(prefix, cast))
    else Ok(Prefixed(prefix, property))
  }

  /** The field values joined with `/`: the Directory rendering without prefix. */
  function Path(p: Parameter): string
  {
    Join(Fields(p), '/')
  }

  /** `parameter.enumerations()`: the number of `/`-separated segments of the Directory rendering. */
  function Enumerations(p: Parameter): (n: nat)
    ensures n == |Fields(p)| + Occurrences(Fields(p), '/')
    ensures n >= Base
  {
    RenderDirectory(p, None);
    JoinCount(Fields(p), '/');
    |Split(Render(p, Directory.Name(), None).value, '/')|
  }

  /** The input of `initialize` with one leading `/` removed, if there is one. */
  function Unprefixed(value: string): string
  {
    if |value| > 0 && value[0] == '/' then value[1..] else value
  }

  /** The `/`-separated segments `initialize` dispatches on. */
  function Segments(value: string): seq<string>
  {
    Split(Unprefixed(value), '/')
  }

  /**
   * `Parameter.initialize(value)`: four segments bind organization,
   * environment, service and identifier; five bind the application as the
   * third; any other count throws. The result goes through the constructor,
   * so an empty third segment of five leaves the application absent.
   */
  function Initialize(value: string): (r: Result<Parameter, Error>)
    ensures r.Ok? <==> multiset(Unprefixed(value))['/'] in {3, 4}
    ensures r.Err? ==> r.error == EnumerationError
    ensures r.Ok? ==> Normalized(r.value)
    ensures r.Ok? ==> var split := Segments(value);
      Fields(r.value) == if |split| == Extended && split[2] == "" then split[..2] + split[3..] else split
    ensures r.Ok? ==> (r.value.application.Some? <==> |Segments(value)| == Extended && Segments(value)[2] != "")
  {
    var split := Segments(value);
    if |split| == Base then
      var p := Parameter(split[0], split[1], None, split[2], split[3]);
      FieldsOfSegments(split, p);
      Ok(Create(p))
    else if |split| == Extended then
      var p := Parameter(split[0], split[1], Some(split[2]), split[3], split[4]);
      FieldsOfSegments(split, p);
      Ok(Create(p))
    else
      Err(EnumerationError)
  }

  // ----------------------------------------------------------------------
  // Properties
  // ----------------------------------------------------------------------

  /** No field value contains `/`. */
  predicate Slashless(p: Parameter)
  {
    forall k :: 0 <= k < |Fields(p)| ==> '/' !in Fields(p)[k]
  }

  /**
   * `enumerations()` counts the collected fields plus every `/` inside a
   * field value; without such slashes it is `Base` (4) for a parameter
   * without application and `Extended` (5) for one with it.
   */
  lemma EnumerationsCount(p: Parameter)
    ensures Enumerations(p) == |Fields(p)| + Occurrences(Fields(p), '/')
    ensures Slashless(p) ==> Enumerations(p) == if p.application.Some? then Extended else Base
  {
    if Slashless(p) {
      SlashlessOccurrences(Fields(p));
    }
  }

  lemma {:induction false} SlashlessOccurrences(fields: seq<string>)
    requires forall k :: 0 <= k < |fields| ==> '/' !in fields[k]
    ensures Occurrences(fields, '/') == 0
  {
    if |fields| > 0 {
      SlashlessOccurrences(fields[1..]);
    }
  }

  /** Joining with `/` or with `-` gives interchangeable strings. */
  lemma {:induction false} JoinSeparatorsInterchangeable(fields: seq<string>)
    ensures Interchangeable(Join(fields, '/'), Join(fields, '-'))
  {
    if |fields| > 1 {
      JoinSeparatorsInterchangeable(fields[1..]);
      var a := Join(fields[1..], '/');
      var b := Join(fields[1..], '-');
      var x := fields[0] + ['/'] + a;
      var y := fields[0] + ['-'] + b;
      forall i | 0 <= i < |x| ensures x[i] == y[i] || (Inert(x[i]) && Inert(y[i])) {
        if i > |fields[0]| {
          assert x[i] == a[i - |fields[0]| - 1] && y[i] == b[i - |fields[0]| - 1];
        }
      }
    }
  }

  /**
   * The Train-Case rendering is the condensed normalisation of the
   * `/`-joined values: a normalised token, which normalising again leaves
   * unchanged. It never fails.
   */
  lemma TrainCaseRender(p: Parameter, prefix: Option<string>)
    ensures Render(p, Dash.Name(), prefix) == Ok(Prefixed(prefix, Case(Path(p), Default)))
    ensures IsToken(Case(Path(p), Default), true)
    ensures Case(Case(Path(p), Default), Default) == Case(Path(p), Default)
  {
    RenderTrainCase(p, prefix);
    CaseIdempotent(Path(p), Default);
  }

  /** The Train-Case rendering is the prefixed cast of the path. */
  lemma RenderTrainCase(p: Parameter, prefix: Option<string>)
    ensures Render(p, Dash.Name(), prefix) == Ok(Prefixed(prefix, Case(Path(p), Default)))
  {
    assert Dash.Name() == "Train-Case";
    assert Join(Fields(p), if Dash.Name() == "Directory" then '/' else if Dash.Name() == "Screaming-Train-Case" then '-' else '/') == Path(p);
  }

  /**
   * The Screaming-Train-Case rendering joins with `-` rather than `/`, but
   * `Case` turns both into hyphens, so it is the `Title` of the Train-Case
   * cast. It throws exactly when that cast is empty; otherwise it
   * capitalises the first letter of each segment, and lower-casing it gives
   * the Train-Case cast back.
   */
  lemma ScreamingRender(p: Parameter, prefix: Option<string>)
    ensures var cast := Case(Path(p), Default);
      Render(p, Train.Name(), prefix) ==
        match Scream(cast)
        case None => Err(TypeError)
        case Some(title) => Ok(Prefixed(prefix, title))
    ensures Render(p, Train.Name(), prefix).Err? <==> Case(Path(p), Default) == ""
    ensures Render(p, Train.Name(), prefix).Ok? ==>
      Render(p, Train.Name(), prefix).value == Prefixed(prefix, CapitalizeSegments(Case(Path(p), Default)))
    ensures Render(p, Train.Name(), prefix).Ok? ==>
      LowerAll(CapitalizeSegments(Case(Path(p), Default))) == Case(Path(p), Default)
  {
    var cast := Case(Path(p), Default);
    assert Render(p, Train.Name(), prefix) ==
      match Scream(cast)
      case None => Err(TypeError)
      case Some(title) => Ok(Prefixed(prefix, title))
    by {
      RenderScreaming(p, prefix);
      ScreamingCast(p);
    }
    TitleOfToken(cast, true);
  }

  /** The Screaming-Train-Case rendering is the title of the `-`-joined cast. */
  lemma RenderScreaming(p: Parameter, prefix: Option<string>)
    ensures Render(p, Train.Name(), prefix) ==
      match Scream(Case(Join(Fields(p), '-'), Default))
      case None => Err(TypeError)
      case Some(title) => Ok(Prefixed(prefix, title))
  {
  }

  /** Casting the `-`-joined values gives the same token as casting the path. */
  lemma ScreamingCast(p: Parameter)
    ensures Case(Join(Fields(p), '-'), Default) == Case(Path(p), Default)
  {
    JoinSeparatorsInterchangeable(Fields(p));
    CaseInterchangeable(Join(Fields(p), '/'), Join(Fields(p), '-'), Default);
  }

  /** Without a prefix, Screaming-Train-Case is `Title` of Train-Case. */
  lemma ScreamingIsTitleOfTrainCase(p: Parameter)
    ensures Render(p, Train.Name(), None) ==
      match Scream(Render(p, Dash.Name(), None).value)
      case None => Err(TypeError)
      case Some(title) => Ok(title)
  {
    RenderTrainCase(p, None);
    RenderScreaming(p, None);
    ScreamingCast(p);
  }

  /**
   * Any convention name other than the two train-case constants renders
   * exactly as "Directory": the raw `/`-joined values, not normalised,
   * behind the prefix if one is given. Being raw, that rendering parses
   * back to the parameter whenever its values hold no `/`, its application
   * is absent or non-empty, and its organization is non-empty unless the
   * prefix is `/`.
   */
  lemma OtherConventionsRenderAsDirectory(p: Parameter, name: string, prefix: Option<string>)
    requires name != Train.Name() && name != Dash.Name()
    ensures Render(p, name, prefix) == Render(p, Directory.Name(), prefix)
    ensures Render(p, name, prefix) == Ok(Prefixed(prefix, Path(p)))
    ensures && Slashless(p) && Normalized(p)
            && (prefix == Some("/") || (Prefixed(prefix, "") == "" && p.organization != ""))
            ==> Initialize(Render(p, name, prefix).value) == Ok(p)
  {
    RenderOther(p, name, prefix);
    RenderDirectory(p, prefix);
    if && Slashless(p) && Normalized(p)
       && (prefix == Some("/") || (Prefixed(prefix, "") == "" && p.organization != "")) {
      InitializePath(p, prefix);
    }
  }

  /** A type string other than the two train-case constants renders as the prefixed path. */
  lemma RenderOther(p: Parameter, name: string, prefix: Option<string>)
    requires name != Train.Name() && name != Dash.Name()
    ensures Render(p, name, prefix) == Ok(Prefixed(prefix, Path(p)))
  {
  }

  /**
   * Round trip: when no field holds `/`, the application is absent or
   * non-empty, and the organization is non-empty unless the prefix `/` is
   * used, parsing the Directory rendering recovers the parameter, whose
   * rendering has 5 segments with an application and 4 without.
   */
  lemma InitializeRender(p: Parameter, prefix: Option<string>)
    requires Slashless(p) && Normalized(p)
    requires prefix == Some("/") || (Prefixed(prefix, "") == "" && p.organization != "")
    ensures Render(p, Directory.Name(), prefix).Ok?
    ensures Initialize(Render(p, Directory.Name(), prefix).value) == Ok(p)
    ensures Enumerations(p) == if p.application.Some? then Extended else Base
  {
    RenderDirectory(p, prefix);
    InitializePath(p, prefix);
    EnumerationsCount(p);
  }

  /** The Directory rendering is the prefixed path. */
  lemma RenderDirectory(p: Parameter, prefix: Option<string>)
    ensures Render(p, Directory.Name(), prefix) == Ok(Prefixed(prefix, Path(p)))
  {
  }

  /** Parsing a prefixed path of slashless fields gives the parameter back. */
  lemma InitializePath(p: Parameter, prefix: Option<string>)
    requires Slashless(p) && Normalized(p)
    requires prefix == Some("/") || (Prefixed(prefix, "") == "" && p.organization != "")
    ensures Initialize(Prefixed(prefix, Path(p))) == Ok(p)
  {
    SegmentsOfPath(p, prefix);
    InitializeOfFields(Prefixed(prefix, Path(p)), p);
  }

  /** The segments of a prefixed path of slashless fields are the fields. */
  lemma SegmentsOfPath(p: Parameter, prefix: Option<string>)
    requires Slashless(p)
    requires prefix == Some("/") || (Prefixed(prefix, "") == "" && p.organization != "")
    ensures Segments(Prefixed(prefix, Path(p))) == Fields(p)
  {
    UnprefixedPath(p, prefix);
    SplitJoin(Fields(p), '/');
  }

  /** `initialize` strips exactly the prefix the rendering added. */
  lemma UnprefixedPath(p: Parameter, prefix: Option<string>)
    requires Slashless(p)
    requires prefix == Some("/") || (Prefixed(prefix, "") == "" && p.organization != "")
    ensures Unprefixed(Prefixed(prefix, Path(p))) == Path(p)
  {
    if prefix == Some("/") {
      assert ("/" + Path(p))[1..] == Path(p);
    } else {
      assert Fields(p)[0] == p.organization;
      assert Path(p)[0] == p.organization[0];
    }
  }

  /** A string whose segments are a normalised parameter's fields parses to that parameter. */
  lemma InitializeOfFields(value: string, p: Parameter)
    requires Segments(value) == Fields(p) && Normalized(p)
    ensures Initialize(value) == Ok(p)
  {
  }

  /**
   * The other direction: unless five segments leave the application empty,
   * the Directory rendering of a parsed parameter is the input without its
   * leading `/`.
   */
  lemma RenderInitialize(value: string)
    requires Initialize(value).Ok?
    requires !(|Segments(value)| == Extended && Segments(value)[2] == "")
    ensures Fields(Initialize(value).value) == Segments(value)
    ensures Path(Initialize(value).value) == Unprefixed(value)
  {
    assert Fields(Initialize(value).value) == Segments(value);
  }

  /**
   * The constructor's fields for a parameter bound from four or five
   * segments are those segments, less an empty third one of five.
   */
  lemma FieldsOfSegments(split: seq<string>, p: Parameter)
    requires || (|split| == Base && p == Parameter(split[0], split[1], None, split[2], split[3]))
             || (|split| == Extended && p == Parameter(split[0], split[1], Some(split[2]), split[3], split[4]))
    ensures Fields(Create(p)) == if |split| == Extended && split[2] == "" then split[..2] + split[3..] else split
  {
    if |split| == Base {
      assert Fields(Create(p)) == [split[0], split[1], split[2], split[3]];
    } else if split[2] == "" {
      assert Fields(Create(p)) == [split[0], split[1], split[3], split[4]];
    } else {
      assert Fields(Create(p)) == [split[0], split[1], split[2], split[3], split[4]];
    }
  }

  /**
   * Only one leading `/` is stripped: prepending `/` to a string that does
   * not start with one changes nothing.
   */
  lemma InitializeLeadingSlash(s: string)
    requires s == [] || s[0] != '/'
    ensures Initialize("/" + s) == Initialize(s)
  {
    assert ("/" + s)[1..] == s;
  }

  /**
   * Two leading slashes: the first is stripped and the second opens an
   * empty first segment, so `//a/b/c/d` parses as five segments with an
   * empty organization.
   */
  lemma InitializeDoubleSlash(s: string)
    ensures Segments("//" + s) == [""] + Split(s, '/')
    ensures Initialize("//" + s).Ok? ==> Initialize("//" + s).value.organization == ""
  {
    assert Unprefixed("//" + s) == "/" + s;
    SplitLeading(s, '/');
  }

  /**
   * Five segments with an empty third one give a parameter without
   * application, whose rendering then has four segments.
   */
  lemma InitializeDropsEmptyApplication(value: string)
    requires |Segments(value)| == Extended && Segments(value)[2] == ""
    ensures Initialize(value).Ok?
    ensures var split := Segments(value);
      Initialize(value).value == Parameter(split[0], split[1], None, split[3], split[4])
    ensures Enumerations(Initialize(value).value) == Base
  {
    var split := Segments(value);
    var p := Parameter(split[0], split[1], None, split[3], split[4]);
    SlashlessWithoutApplication(split, p);
    assert Initialize(value) == Ok(p);
    EnumerationsCount(p);
  }

  /** Binding four of five slashless segments gives a slashless parameter. */
  lemma SlashlessWithoutApplication(split: seq<string>, p: Parameter)
    requires |split| == Extended && forall k :: 0 <= k < |split| ==> '/' !in split[k]
    requires p == Parameter(split[0], split[1], None, split[3], split[4])
    ensures Slashless(p)
  {
    forall k | 0 <= k < |Fields(p)| ensures '/' !in Fields(p)[k] {
      assert Fields(p)[k] == split[if k < 2 then k else k + 1];
    }
  }
}
