/**
 * The string, path and lookup helpers of the Play Swagger reader (PlayReader.java):
 * rendering a compiled route as a path template, joining annotation paths, the ignore
 * list, comma lists, scheme lists, the route-table key of a controller method, and the
 * route-gated choice of the path an operation is documented under.
 */
module PlayReader {
  import opened Wrappers
  import opened JavaString
  import opened Routes

  const PathDelimiter: string := "/"

  /** `s.startsWith("/")`. */
  predicate LeadingSlash(s: string) {
    |s| > 0 && s[0] == '/'
  }

  /** `s.endsWith("/")`. */
  predicate TrailingSlash(s: string) {
    |s| > 0 && s[|s| - 1] == '/'
  }

  // ---------------------------------------------------------------------------
  // Route-table key of a controller method
  // ---------------------------------------------------------------------------

  /**
   * `getFullMethodName`: the key under which the route compiler stores the route of
   * `methodName` on the class with canonical name `canonicalName`. A class whose name has
   * no `$` is addressed through its companion object, `Name$`; a Scala object class, whose
   * name already ends in `$`, is used as it is. Either way the class part of the key
   * carries a `$` and is followed by `.` and the method name.
   */
  function FullMethodName(canonicalName: string, methodName: string): (key: string)
    ensures EndsWith(key, "." + methodName)
    ensures var owner := key[..|key| - |methodName| - 1];
      && '$' in owner
      && (owner == canonicalName <==> '$' in canonicalName)
      && (owner == canonicalName + "$" <==> '$' !in canonicalName)
  {
    var owner := if '$' !in canonicalName then canonicalName + "$" else canonicalName;
    var key := if '$' !in canonicalName then canonicalName + "$." + methodName
      else canonicalName + "." + methodName;
    assert key == owner + "." + methodName;
    assert key[..|key| - |methodName| - 1] == owner;
    assert key[|key| - |methodName| - 1..] == "." + methodName;
    assert owner == canonicalName + "$" ==> owner != canonicalName;
    assert '$' !in canonicalName ==> owner[|owner| - 1] == '$';
    key
  }

  /** A class and its companion object `Name$` share every route key. */
  lemma CompanionSharesKeys(canonicalName: string, methodName: string)
    requires '$' !in canonicalName
    ensures FullMethodName(canonicalName, methodName) == FullMethodName(canonicalName + "$", methodName)
  {
    assert '$' in canonicalName + "$";
    assert (canonicalName + "$") + "." + methodName == canonicalName + "$." + methodName;
  }

  /** Two methods of one class get the same key only when they have the same name. */
  lemma KeysSeparateMethods(canonicalName: string, m1: string, m2: string)
    requires FullMethodName(canonicalName, m1) == FullMethodName(canonicalName, m2)
    ensures m1 == m2
  {
    var owner := if '$' in canonicalName then canonicalName + "." else canonicalName + "$.";
    assert FullMethodName(canonicalName, m1) == owner + m1;
    assert FullMethodName(canonicalName, m2) == owner + m2;
    assert m1 == (owner + m1)[|owner|..];
  }

  // ---------------------------------------------------------------------------
  // Route path pattern to path template
  // ---------------------------------------------------------------------------

  /** A static part is its own text; a dynamic part `name` is the template segment `{name}`. */
  function RenderPart(part: PathPart): string {
    match part
    case StaticPart(value) => value
    case DynamicPart(name) => Braced(name)
  }

  /** The template segment of a path parameter: its name between braces. */
  function Braced(name: string): string {
    "{" + name + "}"
  }

  /** The parts rendered one after another, in pattern order. */
  function Rendered(parts: PathPattern): string {
    RenderedUpTo(parts, |parts|)
  }

  /** The rendering of the first `n` parts, counted by position. */
  function RenderedUpTo(parts: PathPattern, n: nat): string
    requires n <= |parts|
  {
    if n == 0 then "" else RenderedUpTo(parts, n - 1) + RenderPart(parts[n - 1])
  }

  /** The configured base path with one leading `/` dropped. */
  function StrippedBase(basePath: string): string {
    if LeadingSlash(basePath) then basePath[1..] else basePath
  }

  /** `s` with a `/` put in front when it does not already begin with one. */
  function WithLeadingSlash(s: string): (r: string)
    ensures LeadingSlash(r)
    ensures LeadingSlash(s) ==> r == s
    ensures !LeadingSlash(s) ==> r == "/" + s
  {
    if LeadingSlash(s) then s else "/" + s
  }

  /**
   * The path template `getPathFromRoute` renders for a pattern and a base path, reading the
   * base path as literal text. That is what `replaceFirst` does only when the base path holds
   * no regex metacharacter (`RegexLiteral`), as `GetPathFromRoute` requires; for any other
   * base path this function, and the lemmas about it, describe the literal cut, not Java's.
   */
  function PathFromRoute(parts: PathPattern, basePath: string): string {
    WithLeadingSlash(ReplaceFirst(Rendered(parts), StrippedBase(basePath)))
  }

  /**
   * `getPathFromRoute`: renders the pattern, cuts the first occurrence of the base path
   * (less its leading `/`) out of it and makes sure the result begins with `/`.
   */
  method GetPathFromRoute(pathPattern: PathPattern, basePath: string) returns (path: string)
    requires RegexLiteral(basePath)
    ensures path == PathFromRoute(pathPattern, basePath)
    ensures LeadingSlash(path)
  {
    var sb := RenderPattern(pathPattern);
    var base := basePath;
    if LeadingSlash(base) {
      base := base[1..];
    }
    var operationPath := ReplaceFirst(sb, base);
    if !LeadingSlash(operationPath) {
      operationPath := "/" + operationPath;
    }
    path := operationPath;
  }

  /** The `StringBuilder` loop of `getPathFromRoute`: appends each part's text in turn. */
  method RenderPattern(pathPattern: PathPattern) returns (sb: string)
    ensures sb == Rendered(pathPattern)
  {
    sb := "";
    var i := 0;
    while i < |pathPattern|
      invariant 0 <= i <= |pathPattern|
      invariant sb == RenderedUpTo(pathPattern, i)
    {
      ghost var before := sb;
      sb := AppendPart(sb, pathPattern[i]);
      RenderedUpToStep(pathPattern, i, before, sb);
      i := i + 1;
    }
  }

  /** One pass of the loop: a static part's text, or `{`, the name and `}` for a dynamic part. */
  method AppendPart(sb: string, part: PathPart) returns (r: string)
    ensures r == sb + RenderPart(part)
  {
    r := sb;
    match part {
      case StaticPart(value) =>
        r := r + value;
      case DynamicPart(name) =>
        r := r + "{";
        r := r + name;
        r := r + "}";
        AppendDynamicPart(sb, name);
    }
  }

  /** Appending `{`, the name and `}` one after another appends the dynamic part's text. */
  lemma AppendDynamicPart(before: string, name: string)
    ensures before + "{" + name + "}" == before + RenderPart(DynamicPart(name))
  {
    ConcatAssoc(before + "{", name, "}");
    ConcatAssoc(before, "{", name + "}");
  }

  /** One more part appended to the rendering of the first `i` parts renders `i + 1` parts. */
  lemma RenderedUpToStep(parts: PathPattern, i: nat, before: string, after: string)
    requires i < |parts|
    requires before == RenderedUpTo(parts, i)
    requires after == before + RenderPart(parts[i])
    ensures after == RenderedUpTo(parts, i + 1)
  {
  }

  /** Every dynamic part `name` of the pattern shows up as `{name}` in the route's rendering. */
  lemma RenderedShowsDynamicPart(parts: PathPattern, k: nat)
    requires k < |parts| && parts[k].DynamicPart?
    ensures exists i :: OccursAt(Rendered(parts), "{" + parts[k].name + "}", i)
  {
    ShowsUpTo(parts, k, |parts|);
    assert OccursAt(Rendered(parts), RenderPart(parts[k]), |RenderedUpTo(parts, k)|);
  }

  /** Part `k`'s text stays where it was put while later parts are appended. */
  lemma {:induction false} ShowsUpTo(parts: PathPattern, k: nat, n: nat)
    requires k < n <= |parts|
    ensures OccursAt(RenderedUpTo(parts, n), RenderPart(parts[k]), |RenderedUpTo(parts, k)|)
  {
    var pre, t := RenderedUpTo(parts, k), RenderPart(parts[k]);
    if n == k + 1 {
      assert RenderedUpTo(parts, n) == pre + t;
      OccursAtEnd(pre, t);
    } else {
      ShowsUpTo(parts, k, n - 1);
      var u, v := RenderedUpTo(parts, n - 1), RenderPart(parts[n - 1]);
      assert RenderedUpTo(parts, n) == u + v;
      OccursExtends(u, v, t, |pre|);
    }
  }

  /** `t` occurs in `pre + t` right after `pre`. */
  lemma OccursAtEnd(pre: string, t: string)
    ensures OccursAt(pre + t, t, |pre|)
  {
    assert (pre + t)[|pre|..|pre| + |t|] == t;
  }

  /** An occurrence in `u` is an occurrence in `u + v`. */
  lemma OccursExtends(u: string, v: string, t: string, i: nat)
    requires OccursAt(u, t, i)
    ensures OccursAt(u + v, t, i)
  {
    assert (u + v)[i..i + |t|] == u[i..i + |t|];
  }

  /** The text of the first `n` parts of a pattern made of static parts only. */
  function StaticText(parts: PathPattern, n: nat): string
    requires n <= |parts|
    requires forall k :: 0 <= k < |parts| ==> parts[k].StaticPart?
  {
    if n == 0 then "" else StaticText(parts, n - 1) + parts[n - 1].value
  }

  /** A pattern without dynamic parts renders as its static text, copied verbatim. */
  lemma RenderedStatic(parts: PathPattern)
    requires forall k :: 0 <= k < |parts| ==> parts[k].StaticPart?
    ensures Rendered(parts) == StaticText(parts, |parts|)
  {
    StaticPrefix(parts, |parts|);
  }

  /** The static text of the first `n` parts is their rendering. */
  lemma {:induction false} StaticPrefix(parts: PathPattern, n: nat)
    requires n <= |parts|
    requires forall k :: 0 <= k < |parts| ==> parts[k].StaticPart?
    ensures RenderedUpTo(parts, n) == StaticText(parts, n)
  {
    if n > 0 {
      StaticPrefix(parts, n - 1);
    }
  }

  /** With an empty base path (or just `/`) the route is rendered as is, with `/` prepended if missing. */
  lemma PathFromRouteWithoutBase(parts: PathPattern, basePath: string)
    requires basePath == "" || basePath == "/"
    ensures PathFromRoute(parts, basePath) == WithLeadingSlash(Rendered(parts))
  {
    var s := Rendered(parts);
    assert StrippedBase(basePath) == "";
    assert OccursAt(s, "", 0);
    assert IndexOf(s, "") == Some(0);
    assert s[..0] + s[0..] == s;
  }

  /**
   * The base path is cut out only once, at its first occurrence in the rendered route, and
   * the rest of the route is kept around it.
   */
  lemma PathFromRouteCutsFirstOccurrence(parts: PathPattern, basePath: string, i: nat)
    requires OccursAt(Rendered(parts), StrippedBase(basePath), i)
    requires forall j :: 0 <= j < i ==> !OccursAt(Rendered(parts), StrippedBase(basePath), j)
    ensures PathFromRoute(parts, basePath)
      == WithLeadingSlash(Rendered(parts)[..i] + Rendered(parts)[i + |StrippedBase(basePath)|..])
  {
    var s, b := Rendered(parts), StrippedBase(basePath);
    IndexOfFirst(s, b, i);
    assert ReplaceFirst(s, b) == s[..i] + s[i + |b|..];
  }

  /** The first position where a text occurs is what `indexOf` reports. */
  lemma IndexOfFirst(s: string, b: string, i: nat)
    requires OccursAt(s, b, i)
    requires forall j :: 0 <= j < i ==> !OccursAt(s, b, j)
    ensures IndexOf(s, b) == Some(i)
  {
  }

  /** A route whose text does not hold the base path is only given its leading `/`. */
  lemma PathFromRouteBaseAbsent(parts: PathPattern, basePath: string)
    requires forall j :: 0 <= j <= |Rendered(parts)| ==> !OccursAt(Rendered(parts), StrippedBase(basePath), j)
    ensures PathFromRoute(parts, basePath) == WithLeadingSlash(Rendered(parts))
  {
  }

  /** A route of one static part: its text goes through the cut as it is. */
  lemma PathFromStaticText(t: string, basePath: string, i: nat)
    requires OccursAt(t, StrippedBase(basePath), i)
    requires forall j :: 0 <= j < i ==> !OccursAt(t, StrippedBase(basePath), j)
    ensures PathFromRoute([StaticPart(t)], basePath) == WithLeadingSlash(t[..i] + t[i + |StrippedBase(basePath)|..])
  {
    assert RenderedUpTo([StaticPart(t)], 1) == "" + t;
    assert "" + t == t;
    PathFromRouteCutsFirstOccurrence([StaticPart(t)], basePath, i);
  }

  /**
   * A route text that begins with the base path (less its `/`) loses it, whatever follows:
   * with base `/api`, `api/users` becomes `/users` and, since no segment boundary is
   * needed, `apis/x` becomes `/s/x`.
   */
  lemma BasePathPrefixCut(b: string, rest: string)
    ensures PathFromRoute([StaticPart(b + rest)], "/" + b) == WithLeadingSlash(rest)
  {
    var t := b + rest;
    assert StrippedBase("/" + b) == b;
    assert t[0..|b|] == b;
    PathFromStaticText(t, "/" + b, 0);
    assert t[..0] + t[|b|..] == rest;
  }

  /**
   * The base path need not begin the route: its first occurrence is cut wherever it is,
   * so with base `/api` the route text `v1/api` becomes `/v1/`.
   */
  lemma BasePathCutInsideRoute(pre: string, b: string, rest: string)
    requires forall j :: 0 <= j < |pre| ==> !OccursAt(pre + b + rest, b, j)
    ensures PathFromRoute([StaticPart(pre + b + rest)], "/" + b) == WithLeadingSlash(pre + rest)
  {
    var t := pre + b + rest;
    var base := "/" + b;
    assert StrippedBase(base) == b;
    ThreeSlices(pre, b, rest);
    PathFromStaticText(t, base, |pre|);
  }

  /** The slices of `pre + b + rest` at the borders of `b`. */
  lemma ThreeSlices(pre: string, b: string, rest: string)
    ensures (pre + b + rest)[|pre|..|pre| + |b|] == b
    ensures (pre + b + rest)[..|pre|] + (pre + b + rest)[|pre| + |b|..] == pre + rest
  {
    var t := pre + b + rest;
    assert t[..|pre|] == pre;
    assert t[|pre| + |b|..] == rest;
  }

  /**
   * The finished template keeps a dynamic part's `{name}` when the first occurrence of the
   * stripped base path lies wholly before or wholly after that part's text.
   */
  lemma DynamicPartSurvivesCut(parts: PathPattern, basePath: string, k: nat, i: nat)
    requires k < |parts| && parts[k].DynamicPart?
    requires OccursAt(Rendered(parts), StrippedBase(basePath), i)
    requires forall j :: 0 <= j < i ==> !OccursAt(Rendered(parts), StrippedBase(basePath), j)
    requires i + |StrippedBase(basePath)| <= |RenderedUpTo(parts, k)| || |RenderedUpTo(parts, k + 1)| <= i
    ensures exists j :: OccursAt(PathFromRoute(parts, basePath), "{" + parts[k].name + "}", j)
  {
    var s, b, t := Rendered(parts), StrippedBase(basePath), RenderPart(parts[k]);
    ShowsUpTo(parts, k, |parts|);
    assert |RenderedUpTo(parts, k + 1)| == |RenderedUpTo(parts, k)| + |t|;
    var j := CutKeepsOccurrence(s, b, t, i, |RenderedUpTo(parts, k)|);
    assert PathFromRoute(parts, basePath) == WithLeadingSlash(ReplaceFirst(s, b));
    assert t == "{" + parts[k].name + "}";
    assert OccursAt(PathFromRoute(parts, basePath), t, j);
  }

  /** The first occurrence of the base path is cut, and what it missed survives with the `/` prepended. */
  lemma CutKeepsOccurrence(s: string, b: string, t: string, i: nat, p: nat) returns (j: nat)
    requires OccursAt(s, b, i) && OccursAt(s, t, p)
    requires forall j :: 0 <= j < i ==> !OccursAt(s, b, j)
    requires i + |b| <= p || p + |t| <= i
    ensures OccursAt(WithLeadingSlash(ReplaceFirst(s, b)), t, j)
  {
    ReplaceFirstAt(s, b, i);
    j := SlashedCutKeepsOccurrence(s, b, t, i, p);
  }

  /** `replaceFirst` with a literal pattern cuts out its first occurrence. */
  lemma ReplaceFirstAt(s: string, b: string, i: nat)
    requires OccursAt(s, b, i)
    requires forall j :: 0 <= j < i ==> !OccursAt(s, b, j)
    ensures ReplaceFirst(s, b) == s[..i] + s[i + |b|..]
  {
    IndexOfFirst(s, b, i);
  }

  /** A cut that misses an occurrence, followed by a leading `/`, leaves the occurrence in place. */
  lemma SlashedCutKeepsOccurrence(s: string, b: string, t: string, i: nat, p: nat) returns (j: nat)
    requires OccursAt(s, b, i) && OccursAt(s, t, p)
    requires i + |b| <= p || p + |t| <= i
    ensures OccursAt(WithLeadingSlash(s[..i] + s[i + |b|..]), t, j)
  {
    var cut := s[..i] + s[i + |b|..];
    var q: nat;
    if i + |b| <= p {
      OccursAfterCut(s, t, p, i, |b|);
      q := p - |b|;
    } else {
      OccursBeforeCut(s, t, p, i, |b|);
      q := p;
    }
    OccursWithLeadingSlash(cut, t, q);
    j := if LeadingSlash(cut) then q else q + 1;
  }

  /** With no occurrence of the stripped base path, every `{name}` reaches the finished template. */
  lemma DynamicPartSurvivesWithoutBase(parts: PathPattern, basePath: string, k: nat)
    requires k < |parts| && parts[k].DynamicPart?
    requires forall j :: 0 <= j <= |Rendered(parts)| ==> !OccursAt(Rendered(parts), StrippedBase(basePath), j)
    ensures exists j :: OccursAt(PathFromRoute(parts, basePath), "{" + parts[k].name + "}", j)
  {
    var s, t := Rendered(parts), RenderPart(parts[k]);
    var p := |RenderedUpTo(parts, k)|;
    ShowsUpTo(parts, k, |parts|);
    PathFromRouteBaseAbsent(parts, basePath);
    OccursWithLeadingSlash(s, t, p);
    var r := if LeadingSlash(s) then p else p + 1;
    assert OccursAt(PathFromRoute(parts, basePath), t, r);
  }

  /**
   * The cut ignores part boundaries, so it can reach into a braced name: a base path that
   * begins a parameter's name is cut out of that name, and the route `{id}` with base path
   * `/i` gives `/{d}`.
   */
  lemma BaseCutsDynamicName(x: string, rest: string)
    requires x != "" && x[0] != '{'
    ensures PathFromRoute([DynamicPart(x + rest)], "/" + x) == "/" + ("{" + (rest + "}"))
  {
    var parts := [DynamicPart(x + rest)];
    assert Rendered(parts) == Braced(x + rest) by {
      assert RenderedUpTo(parts, 1) == "" + Braced(x + rest);
    }
    assert StrippedBase("/" + x) == x;
    CutOutOfBraces(x, rest);
  }

  /** Cutting a name's first letters out of its braced form leaves the braces around the rest. */
  lemma CutOutOfBraces(x: string, rest: string)
    requires x != "" && x[0] != '{'
    ensures ReplaceFirst(Braced(x + rest), x) == "{" + (rest + "}")
  {
    var s := Braced(x + rest);
    ConcatAssoc("{", x, rest);
    ConcatAssoc("{" + x, rest, "}");
    assert s == "{" + x + (rest + "}");
    ThreeSlices("{", x, rest + "}");
    assert !OccursAt(s, x, 0) by {
      assert s[0] == '{';
    }
    ReplaceFirstAt(s, x, 1);
  }

  /** An occurrence wholly before the cut stays where it was. */
  lemma OccursBeforeCut(s: string, t: string, p: nat, i: nat, n: nat)
    requires OccursAt(s, t, p) && p + |t| <= i && i + n <= |s|
    ensures OccursAt(s[..i] + s[i + n..], t, p)
  {
    var c := s[..i] + s[i + n..];
    assert forall j :: p <= j < p + |t| ==> c[j] == s[j];
    assert c[p..p + |t|] == s[p..p + |t|];
  }

  /** An occurrence wholly after the cut moves back by the length cut out. */
  lemma OccursAfterCut(s: string, t: string, p: nat, i: nat, n: nat)
    requires OccursAt(s, t, p) && i + n <= p
    ensures p >= n && OccursAt(s[..i] + s[i + n..], t, p - n)
  {
    var c := s[..i] + s[i + n..];
    assert forall j :: p - n <= j < p - n + |t| ==> c[j] == s[j + n];
    assert c[p - n..p - n + |t|] == s[p..p + |t|];
  }

  /** Putting a `/` in front moves an occurrence by one place, or not at all. */
  lemma OccursWithLeadingSlash(s: string, t: string, p: nat)
    requires OccursAt(s, t, p)
    ensures OccursAt(WithLeadingSlash(s), t, if LeadingSlash(s) then p else p + 1)
  {
    if !LeadingSlash(s) {
      var w := "/" + s;
      assert forall j :: p + 1 <= j < p + 1 + |t| ==> w[j] == s[j - 1];
      assert w[p + 1..p + 1 + |t|] == s[p..p + |t|];
    }
  }

  /** The rendered template is never empty, so the annotation-path fallback of `read` never runs. */
  lemma PathFromRouteNeverEmpty(parts: PathPattern, basePath: string)
    ensures PathFromRoute(parts, basePath) != ""
  {
  }

  // ---------------------------------------------------------------------------
  // Joining annotation paths
  // ---------------------------------------------------------------------------

  /** `s` without its last character when that is `/`. */
  function DropTrailingSlash(s: string): string {
    if TrailingSlash(s) then s[..|s| - 1] else s
  }

  /** The parent path made to begin with `/` and to lose one trailing `/`. */
  function NormalizedParent(parentPath: string): string {
    DropTrailingSlash(WithLeadingSlash(parentPath))
  }

  /** Appends a method path, with a `/` between when neither side has one, and one trailing `/` dropped. */
  function AppendMethodPath(b: string, methodPath: string): string {
    var separator := if !LeadingSlash(methodPath) && !TrailingSlash(b) then "/" else "";
    b + separator + DropTrailingSlash(methodPath)
  }

  /** The parent path's contribution: nothing for null, empty or `/`. */
  function ParentPrefix(parentPath: Option<string>): string {
    if parentPath.Some? && parentPath.value != "" && parentPath.value != "/"
    then NormalizedParent(parentPath.value) else ""
  }

  /** The class-level path is appended as it is. */
  function WithClassPath(b: string, classLevelPath: Option<string>): string {
    if classLevelPath.Some? then b + classLevelPath.value else b
  }

  /** The method-level path is appended unless it is absent or exactly `/`. */
  function WithMethodPath(b: string, methodLevelPath: Option<string>): string {
    if methodLevelPath.Some? && methodLevelPath.value != "/" then AppendMethodPath(b, methodLevelPath.value) else b
  }

  /** The joined text with a leading `/`, and without one trailing `/` unless it is `/` alone. */
  function Finished(b: string): string {
    var output := WithLeadingSlash(b);
    if TrailingSlash(output) && |output| > 1 then output[..|output| - 1] else output
  }

  /**
   * `getPath`: joins the parent path, the class-level path and the method-level path.
   * There is nothing to join (None, Java null) when both annotation paths are absent and
   * the parent path is null or empty; otherwise the result begins with `/`.
   */
  function GetPath(classLevelPath: Option<string>, methodLevelPath: Option<string>, parentPath: Option<string>): (r: Option<string>)
    ensures r.None? <==> classLevelPath.None? && methodLevelPath.None? && IsEmpty(parentPath)
    ensures r.Some? ==> LeadingSlash(r.value)
  {
    if classLevelPath.None? && methodLevelPath.None? && IsEmpty(parentPath) then None
    else Some(Finished(WithMethodPath(WithClassPath(ParentPrefix(parentPath), classLevelPath), methodLevelPath)))
  }

  /** `s` ends with two slashes. */
  predicate EndsWithDoubleSlash(s: string) {
    |s| >= 2 && s[|s| - 2] == '/' && s[|s| - 1] == '/'
  }

  /**
   * A joined path never ends with `/` unless it is exactly `/`, as long as no input itself
   * ends with `//` (one trailing slash is all that is dropped).
   */
  lemma GetPathNoTrailingSlash(classLevelPath: Option<string>, methodLevelPath: Option<string>, parentPath: Option<string>)
    requires classLevelPath.Some? ==> !EndsWithDoubleSlash(classLevelPath.value)
    requires methodLevelPath.Some? ==> !EndsWithDoubleSlash(methodLevelPath.value)
    requires parentPath.Some? ==> !EndsWithDoubleSlash(parentPath.value)
    ensures var r := GetPath(classLevelPath, methodLevelPath, parentPath);
      r.Some? ==> r.value == "/" || !TrailingSlash(r.value)
  {
    var b0 := ParentPrefix(parentPath);
    if parentPath.Some? && parentPath.value != "" && parentPath.value != "/" {
      NormalizedParentShape(parentPath.value);
    }
    var b1 := WithClassPath(b0, classLevelPath);
    if classLevelPath.Some? {
      AppendKeepsNoDoubleSlash(b0, classLevelPath.value);
    }
    var b2 := WithMethodPath(b1, methodLevelPath);
    if methodLevelPath.Some? && methodLevelPath.value != "/" {
      AppendMethodPathShape(b1, methodLevelPath.value);
    }
    FinishedShape(b2);
  }

  lemma FinishedShape(b: string)
    requires !EndsWithDoubleSlash(b)
    ensures Finished(b) == "/" || !TrailingSlash(Finished(b))
  {
    var output := WithLeadingSlash(b);
    if !LeadingSlash(b) && |b| >= 2 {
      assert output[|output| - 2] == b[|b| - 2];
    }
    assert !EndsWithDoubleSlash(output);
  }

  lemma NormalizedParentShape(p: string)
    requires p != "" && p != "/" && !EndsWithDoubleSlash(p)
    ensures var n := NormalizedParent(p); n == "" || !TrailingSlash(n)
  {
    var w := WithLeadingSlash(p);
    if !LeadingSlash(p) && |p| >= 2 {
      assert w[|w| - 2] == p[|p| - 2];
    }
    assert !EndsWithDoubleSlash(w);
  }

  lemma AppendKeepsNoDoubleSlash(b: string, c: string)
    requires b == "" || !TrailingSlash(b)
    requires !EndsWithDoubleSlash(c)
    ensures !EndsWithDoubleSlash(b + c)
  {
    var s := b + c;
    if |c| >= 2 {
      assert s[|s| - 1] == c[|c| - 1] && s[|s| - 2] == c[|c| - 2];
    } else if |c| == 1 && b != "" {
      assert s[|s| - 2] == b[|b| - 1];
    } else if |c| == 0 {
      assert s == b;
    }
  }

  lemma AppendMethodPathShape(b: string, m: string)
    requires !EndsWithDoubleSlash(b)
    requires m != "/" && !EndsWithDoubleSlash(m)
    ensures !EndsWithDoubleSlash(AppendMethodPath(b, m))
  {
    var separator := if !LeadingSlash(m) && !TrailingSlash(b) then "/" else "";
    var m' := DropTrailingSlash(m);
    var s := b + separator + m';
    assert m' == "" || !TrailingSlash(m') by {
      if TrailingSlash(m) && m' != "" {
        assert m'[|m'| - 1] == m[|m| - 2];
      }
    }
    if m' != "" {
      assert s[|s| - 1] == m'[|m'| - 1];
    } else if separator == "/" {
      assert s == b + "/";
      if b != "" {
        assert s[|s| - 2] == b[|b| - 1];
      }
    } else {
      assert s == b;
    }
  }

  /** An input ending in `//` loses only one slash: the class path `/api//` joins to `/api/`. */
  lemma GetPathKeepsOneOfTwoSlashes()
    ensures GetPath(Some("/api//"), None, None) == Some("/api/")
  {
    assert WithClassPath(ParentPrefix(None), Some("/api//")) == "/api//";
    assert "/api//"[..5] == "/api/";
  }

  /**
   * A method path of `/` contributes nothing: the result is what the class and parent
   * paths give alone, and `/` when they give nothing.
   */
  lemma GetPathRootMethodPath(classLevelPath: Option<string>, parentPath: Option<string>)
    ensures GetPath(classLevelPath, Some("/"), parentPath)
      == if classLevelPath.None? && IsEmpty(parentPath) then Some("/") else GetPath(classLevelPath, None, parentPath)
  {
    var b := WithClassPath(ParentPrefix(parentPath), classLevelPath);
    assert WithMethodPath(b, Some("/")) == WithMethodPath(b, None);
    if classLevelPath.None? && IsEmpty(parentPath) {
      assert b == "";
      assert WithLeadingSlash(b) == "/";
    }
  }

  /** The usual case: a class path and a relative method path are joined with one `/`. */
  lemma GetPathJoinsWithSlash(classLevelPath: string, methodLevelPath: string)
    requires LeadingSlash(classLevelPath) && !TrailingSlash(classLevelPath)
    requires methodLevelPath != "" && !LeadingSlash(methodLevelPath) && !TrailingSlash(methodLevelPath)
    ensures GetPath(Some(classLevelPath), Some(methodLevelPath), None) == Some(classLevelPath + "/" + methodLevelPath)
  {
    var s := classLevelPath + "/" + methodLevelPath;
    assert WithClassPath(ParentPrefix(None), Some(classLevelPath)) == classLevelPath;
    assert AppendMethodPath(classLevelPath, methodLevelPath) == s;
    assert s[0] == classLevelPath[0];
    assert s[|s| - 1] == methodLevelPath[|methodLevelPath| - 1];
    assert Finished(s) == s;
  }

  // ---------------------------------------------------------------------------
  // Ignored routes
  // ---------------------------------------------------------------------------

  /**
   * The ignore entry `item` covers `path` when `path` is `item` itself or lies below it,
   * that is, continues with `/` right after `item`.
   */
  predicate Covers(item: string, path: string) {
    path == item || StartsWith(path, item + PathDelimiter)
  }

  /**
   * `isIgnored`: whether some configured ignore entry is a prefix of `path` that ends on a
   * `/` boundary of it.
   */
  method IsIgnored(path: string, ignoredRoutes: seq<string>) returns (ignored: bool)
    ensures ignored <==> exists k :: 0 <= k < |ignoredRoutes| && Covers(ignoredRoutes[k], path)
  {
    for i := 0 to |ignoredRoutes|
      invariant forall k :: 0 <= k < i ==> !Covers(ignoredRoutes[k], path)
    {
      var item := ignoredRoutes[i];
      var length := |item|;
      CoversByBoundary(item, path);
      if StartsWith(path, item) && (|path| == length || StartsWithAt(path, PathDelimiter, length)) {
        return true;
      }
    }
    return false;
  }

  /** The prefix-and-boundary test of `isIgnored` is exactly `Covers`. */
  lemma CoversByBoundary(item: string, path: string)
    ensures (StartsWith(path, item) && (|path| == |item| || StartsWithAt(path, PathDelimiter, |item|)))
      <==> Covers(item, path)
  {
    if StartsWith(path, item) && StartsWithAt(path, PathDelimiter, |item|) {
      assert path[..|item| + 1] == item + PathDelimiter;
    }
    if StartsWith(path, item + PathDelimiter) {
      assert path[..|item|] == (item + PathDelimiter)[..|item|];
    }
  }

  /** `/api` covers `/api` and `/api/x` but not `/apix`. */
  lemma CoversExamples()
    ensures Covers("/api", "/api")
    ensures Covers("/api", "/api/x")
    ensures !Covers("/api", "/apix")
  {
    assert "/api/x"[..5] == "/api/";
    assert "/apix"[..5][4] != "/api/"[4];
  }

  // ---------------------------------------------------------------------------
  // Comma lists and scheme lists
  // ---------------------------------------------------------------------------

  /**
   * `toArray`: the empty string gives the one-element array `[""]`; otherwise the
   * comma-separated pieces of `csString`, as `split(",")` forms them, each trimmed in place.
   */
  method ToArray(csString: string) returns (result: array<string>)
    ensures fresh(result)
    ensures csString == "" ==> result[..] == [""]
    ensures csString != "" ==> (|result[..]| == |Split(csString, ',')|
      && forall k :: 0 <= k < result.Length ==> result[k] == Trim(Split(csString, ',')[k]))
  {
    if csString == "" {
      result := new string[1](_ => csString);
      return;
    }
    var pieces := Split(csString, ',');
    result := new string[|pieces|](k requires 0 <= k < |pieces| => pieces[k]);
    var i := 0;
    while i < result.Length
      invariant 0 <= i <= result.Length
      invariant forall k :: 0 <= k < i ==> result[k] == Trim(pieces[k])
      invariant forall k :: i <= k < result.Length ==> result[k] == pieces[k]
    {
      var c := result[i];
      result[i] := Trim(c);
      i := i + 1;
    }
  }

  /**
   * The comma list as media types or schemes read it: pieces in their original order, none
   * holding a comma, none with white space at either end, and, after the pieces, nothing in
   * the original text but commas.
   */
  lemma CommaListSpec(csString: string)
    requires csString != ""
    ensures forall k :: 0 <= k < |Split(csString, ',')| ==> ',' !in Trim(Split(csString, ',')[k])
    ensures forall k :: 0 <= k < |Split(csString, ',')| ==>
      var t := Trim(Split(csString, ',')[k]); t == [] || (!IsTrimmable(t[0]) && !IsTrimmable(t[|t| - 1]))
    ensures StartsWith(csString, Join(Split(csString, ','), ','))
    ensures forall i :: |Join(Split(csString, ','), ',')| <= i < |csString| ==> csString[i] == ','
  {
    SplitSpec(csString, ',');
    forall k | 0 <= k < |Split(csString, ',')|
      ensures ',' !in Trim(Split(csString, ',')[k])
      ensures var t := Trim(Split(csString, ',')[k]); t == [] || (!IsTrimmable(t[0]) && !IsTrimmable(t[|t| - 1]))
    {
      TrimShape(Split(csString, ',')[k]);
    }
  }

  /** A comma list with only separators after its last entry loses them: `a,,` reads as `a`. */
  lemma CommaListDropsTrailingEmpty()
    ensures Split("a,,", ',') == ["a"]
  {
    assert SplitAll("", ',') == [""];
    assert ","[1..] == "";
    assert SplitAll(",", ',') == ["", ""];
    assert ",,"[1..] == ",";
    assert SplitAll(",,", ',') == ["", "", ""];
    assert "a,,"[1..] == ",,";
    assert "a,,"[0] == 'a' && ['a'] + "" == "a";
    assert ["", "", ""][1..] == ["", ""];
    assert SplitAll("a,,", ',') == ["a", "", ""];
    assert "a,,"[1] == ',';
    assert DropTrailingEmpty(["a", "", ""]) == DropTrailingEmpty(["a", ""]);
    assert ["a", ""][..1] == ["a"];
  }

  /** `StringUtils.trimToEmpty`. */
  function TrimToEmpty(s: Option<string>): string {
    if s.None? then "" else Trim(s.value)
  }

  /** `StringUtils.trimToNull`. */
  function TrimToNull(s: string): Option<string> {
    if Trim(s) == "" then None else Some(Trim(s))
  }

  /**
   * `trimToNull` gives null exactly for a text of white space alone, and otherwise the
   * trimmed text, which begins and ends with a visible character.
   */
  lemma TrimToNullMeaning(s: string)
    ensures TrimToNull(s).None? <==> forall k :: 0 <= k < |s| ==> IsTrimmable(s[k])
    ensures TrimToNull(s).Some? ==> TrimToNull(s).value == Trim(s) && TrimToNull(s).value != ""
    ensures TrimToNull(s).Some? ==> !IsTrimmable(Trim(s)[0]) && !IsTrimmable(Trim(s)[|Trim(s)| - 1])
  {
    TrimShape(s);
    var i := |s| - |TrimStart(s)|;
    if Trim(s) != "" {
      assert s[i] == Trim(s)[0];
    }
  }

  /** `trimToEmpty` is `trimToNull` with null read as `""`, and gives `""` for null. */
  lemma TrimToEmptyMeaning(s: Option<string>)
    ensures s.None? ==> TrimToEmpty(s) == ""
    ensures s.Some? && TrimToNull(s.value).None? ==> TrimToEmpty(s) == ""
    ensures s.Some? && TrimToNull(s.value).Some? ==> TrimToEmpty(s) == TrimToNull(s.value).value
  {
  }

  /** The schemes that `forValue` recognises among the trimmed entries, collected in order. */
  function Recognised<S>(items: seq<string>, forValue: Option<string> -> Option<S>): set<S>
    decreases |items|
  {
    if items == [] then {}
    else
      var found := forValue(TrimToNull(items[|items| - 1]));
      Recognised(items[..|items| - 1], forValue) + (if found.Some? then {found.value} else {})
  }

  /** A scheme is collected exactly when some entry yields it. */
  lemma {:induction false} RecognisedMembers<S>(items: seq<string>, forValue: Option<string> -> Option<S>, x: S)
    ensures x in Recognised(items, forValue) <==> exists p :: p in items && forValue(TrimToNull(p)) == Some(x)
    decreases |items|
  {
    if items != [] {
      var init := items[..|items| - 1];
      RecognisedMembers(init, forValue, x);
      assert items == init + [items[|items| - 1]];
      assert forall p :: p in items <==> p in init || p == items[|items| - 1];
    }
  }

  lemma RecognisedAll<S>(items: seq<string>, forValue: Option<string> -> Option<S>)
    ensures forall x :: x in Recognised(items, forValue) <==> exists p :: p in items && forValue(TrimToNull(p)) == Some(x)
  {
    forall x ensures x in Recognised(items, forValue) <==> exists p :: p in items && forValue(TrimToNull(p)) == Some(x) {
      RecognisedMembers(items, forValue, x);
    }
  }

  /**
   * `parseSchemes`: every comma-separated entry of `schemes`, trimmed (an empty entry as
   * null), that `forValue` (the swagger `Scheme.forValue`, given as a parameter) recognises.
   */
  method ParseSchemes<S>(schemes: Option<string>, forValue: Option<string> -> Option<S>) returns (result: set<S>)
    ensures forall x :: x in result <==>
      exists p :: p in Split(TrimToEmpty(schemes), ',') && forValue(TrimToNull(p)) == Some(x)
  {
    result := {};
    var items := Split(TrimToEmpty(schemes), ',');
    var i := 0;
    while i < |items|
      invariant 0 <= i <= |items|
      invariant result == Recognised(items[..i], forValue)
    {
      var scheme := forValue(TrimToNull(items[i]));
      if scheme.Some? {
        result := result + {scheme.value};
      }
      assert items[..i + 1][..i] == items[..i];
      assert items[..i + 1][i] == items[i];
      assert Recognised(items[..i + 1], forValue)
        == Recognised(items[..i], forValue) + (if scheme.Some? then {scheme.value} else {});
      i := i + 1;
    }
    assert items[..i] == items;
    RecognisedAll(items, forValue);
  }

  // ---------------------------------------------------------------------------
  // Route-gated choice of the operation path in `read`
  // ---------------------------------------------------------------------------

  /**
   * The route-gated part of `read` for one controller method: the method is kept only if
   * the route table has its key; its path is the template rendered from its route; and it
   * is dropped when an ignore entry covers that path. On success the route and the path
   * are returned.
   */
  method OperationPath(routes: RouteCache, canonicalName: string, methodName: string, basePath: string, ignoredRoutes: seq<string>)
    returns (result: Option<(Route, string)>)
    requires RegexLiteral(basePath)
    ensures var key := FullMethodName(canonicalName, methodName);
      result.Some? <==> (key in routes.router
        && !(exists k :: 0 <= k < |ignoredRoutes| && Covers(ignoredRoutes[k], PathFromRoute(routes.router[key].path, basePath))))
    ensures var key := FullMethodName(canonicalName, methodName);
      result.Some? ==> result.value == (routes.router[key], PathFromRoute(routes.router[key].path, basePath))
  {
    var fullMethodName := FullMethodName(canonicalName, methodName);
    if !routes.Exists(fullMethodName) {
      return None;
    }
    var route := routes.Get(fullMethodName).value;
    var operationPath := GetPathFromRoute(route.path, basePath);
    var ignored := IsIgnored(operationPath, ignoredRoutes);
    if ignored {
      return None;
    }
    return Some((route, operationPath));
  }
}
