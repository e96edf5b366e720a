/**
 * The Play extension of the Swagger JAX-RS scanner (PlaySwaggerExtension.java): when the
 * annotations give an operation no HTTP verb, the verb of the method's route is used.
 */
module PlaySwaggerExtension {
  import opened Wrappers
  import opened JavaString
  import opened Routes
  import PlayReader

  /** A controller method: the canonical name of the class declaring it and its name. */
  datatype JavaMethod = JavaMethod(declaringClass: string, name: string)

  /**
   * `extractOperationMethod`, given the superclass's answer `superVerb` (None for null):
   * a non-empty answer is kept; otherwise the route stored under the key of the method's
   * declaring class supplies its verb in lower case; with no such route the superclass's
   * answer stands.
   */
  function ExtractOperationMethod(superVerb: Option<string>, routes: RouteCache, m: JavaMethod): (verb: Option<string>)
    ensures !IsEmpty(superVerb) ==> verb == superVerb
    ensures var key := PlayReader.FullMethodName(m.declaringClass, m.name);
      IsEmpty(superVerb) && key in routes.router ==> verb == Some(ToLower(routes.router[key].verb))
    ensures var key := PlayReader.FullMethodName(m.declaringClass, m.name);
      IsEmpty(superVerb) && key !in routes.router ==> verb == superVerb
  {
    var httpMethod := superVerb;
    if IsEmpty(httpMethod) then
      var routeEntry := routes.Get(PlayReader.FullMethodName(m.declaringClass, m.name));
      if routeEntry.Some? then Some(ToLower(routeEntry.value.verb)) else httpMethod
    else httpMethod
  }

  /** A verb that did not come from the superclass came from the route and is lower case. */
  lemma FallbackVerbIsLowerCase(superVerb: Option<string>, routes: RouteCache, m: JavaMethod)
    requires ExtractOperationMethod(superVerb, routes, m) != superVerb
    ensures IsEmpty(superVerb)
    ensures ExtractOperationMethod(superVerb, routes, m).Some?
    ensures IsLowerCase(ExtractOperationMethod(superVerb, routes, m).value)
  {
    ToLowerIsLower(routes.Get(PlayReader.FullMethodName(m.declaringClass, m.name)).value.verb);
  }

  /**
   * Every method whose declaring class's key is in the route table gets a verb from the
   * extension, whatever the superclass answered.
   */
  lemma RoutedMethodHasVerb(superVerb: Option<string>, routes: RouteCache, m: JavaMethod)
    requires routes.Exists(PlayReader.FullMethodName(m.declaringClass, m.name))
    ensures ExtractOperationMethod(superVerb, routes, m).Some?
  {
  }

  /**
   * The reader looks a method up under the key of the class it scans, the extension under
   * the key of the class declaring the method. For a method `m` that `Child` inherits from
   * `Base`, a table holding only `Child$.m` lets the reader keep the method while the
   * extension finds no route and, with no superclass verb, gives none.
   */
  lemma InheritedMethodGetsNoVerb(routes: RouteCache, r: Route)
    requires routes.router == map["Child$.m" := r]
    ensures PlayReader.FullMethodName("Child", "m") in routes.router
    ensures ExtractOperationMethod(None, routes, JavaMethod("Base", "m")).None?
  {
    assert '$' !in "Child" && '$' !in "Base";
    assert PlayReader.FullMethodName("Child", "m") == "Child$.m";
    assert PlayReader.FullMethodName("Base", "m") == "Base$.m";
    assert "Base$.m"[0] != "Child$.m"[0];
  }

  /** A controller class and its companion object `Name$` get the same verb for a method. */
  lemma CompanionSharesVerb(superVerb: Option<string>, routes: RouteCache, className: string, methodName: string)
    requires '$' !in className
    ensures ExtractOperationMethod(superVerb, routes, JavaMethod(className, methodName))
      == ExtractOperationMethod(superVerb, routes, JavaMethod(className + "$", methodName))
  {
    PlayReader.CompanionSharesKeys(className, methodName);
  }

  /**
   * The extension's own `getFullMethodName` builds the same key as the reader's:
   * `Name$.method` for a class without `$`, `Name.method` otherwise.
   */
  lemma ExtensionKeyFormat(canonicalName: string, methodName: string)
    ensures '$' !in canonicalName ==> PlayReader.FullMethodName(canonicalName, methodName) == canonicalName + "$." + methodName
    ensures '$' in canonicalName ==> PlayReader.FullMethodName(canonicalName, methodName) == canonicalName + "." + methodName
  {
  }
}
