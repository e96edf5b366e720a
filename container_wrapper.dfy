/**
 * The `ContainerWrapper` enum of PlayReader.java: a response or header type named together
 * with a container hint ("list", "array", "map", "set", in any letter case) is wrapped in
 * the matching Swagger property; any other hint leaves the property as it is.
 */
module ContainerWrapper {
  import opened Wrappers
  import opened JavaString

  /**
   * A Swagger property as far as wrapping is concerned: an item property produced
   * elsewhere (its content is the type parameter), an array property with its
   * `uniqueItems` flag, or a map property with its value property.
   */
  datatype Property<T> =
    | Item(item: T)
    | ArrayProperty(items: Property<T>, uniqueItems: bool)
    | MapProperty(additionalProperties: Property<T>)

  /** The four wrappers, each with the container word it answers to. */
  datatype Wrapper = List | Array | Map | Set {
    function Container(): string {
      match this
      case List => "list"
      case Array => "array"
      case Map => "map"
      case Set => "set"
    }
  }

  /** The wrappers in declaration order, the order an `EnumSet` is iterated in. */
  const Ordinals: seq<Wrapper> := [List, Array, Map, Set]

  /** `doWrap`: the property each wrapper builds around `p`. */
  function DoWrap<T>(w: Wrapper, p: Property<T>): Property<T> {
    match w
    case List => ArrayProperty(p, false)
    case Array => ArrayProperty(p, false)
    case Map => MapProperty(p)
    case Set => ArrayProperty(p, true)
  }

  /**
   * `wrap`: the wrapped property when the hint equals the wrapper's word ignoring case,
   * None (Java null) otherwise; a null hint never matches.
   */
  function Wrap<T>(w: Wrapper, container: Option<string>, p: Property<T>): Option<Property<T>> {
    if container.Some? && EqualsIgnoreCase(w.Container(), container.value) then Some(DoWrap(w, p)) else None
  }

  /** The wrappers a call may use: those listed, or all four when none is listed. */
  function Enabled(allowed: seq<Wrapper>): set<Wrapper> {
    if |allowed| > 0 then set w | w in allowed else {List, Array, Map, Set}
  }

  // ---------------------------------------------------------------------------
  // Reference definition: which wrapper a hint names
  // ---------------------------------------------------------------------------

  /** The wrapper a hint names once it is lowered, if any. */
  function Named(container: Option<string>): (r: Option<Wrapper>)
    ensures r.Some? ==> container.Some? && ToLower(container.value) == r.value.Container()
  {
    if container.None? then None
    else
      var h := ToLower(container.value);
      if h == "list" then Some(List)
      else if h == "array" then Some(Array)
      else if h == "map" then Some(Map)
      else if h == "set" then Some(Set)
      else None
  }

  /** What wrapping is meant to do: wrap with the named wrapper when it is enabled. */
  function Wrapped<T>(container: Option<string>, p: Property<T>, allowed: seq<Wrapper>): Property<T> {
    match Named(container)
    case Some(w) => if w in Enabled(allowed) then DoWrap(w, p) else p
    case None => p
  }

  /** A wrapper matches a hint exactly when the hint names that wrapper. */
  lemma WrapMatchesNamed<T>(w: Wrapper, container: Option<string>, p: Property<T>)
    ensures Wrap(w, container, p).Some? <==> Named(container) == Some(w)
    ensures Wrap(w, container, p).Some? ==> Wrap(w, container, p).value == DoWrap(w, p)
  {
    if container.Some? {
      EqualsIgnoreCaseLowered(w.Container(), container.value);
    }
  }

  /**
   * `wrapContainer`: the first enabled wrapper, in declaration order, that matches the hint
   * wraps `p`; when none matches, `p` comes back unchanged.
   */
  method WrapContainer<T>(container: Option<string>, p: Property<T>, allowed: seq<Wrapper>) returns (r: Property<T>)
    ensures r == Wrapped(container, p, allowed)
  {
    var tmp := Enabled(allowed);
    for i := 0 to |Ordinals|
      invariant forall j :: 0 <= j < i && Ordinals[j] in tmp ==> Named(container) != Some(Ordinals[j])
    {
      var wrapper := Ordinals[i];
      if wrapper in tmp {
        WrapMatchesNamed(wrapper, container, p);
        var prop := Wrap(wrapper, container, p);
        if prop.Some? {
          return prop.value;
        }
      }
    }
    forall w | w in tmp
      ensures Named(container) != Some(w)
    {
      assert w == Ordinals[0] || w == Ordinals[1] || w == Ordinals[2] || w == Ordinals[3];
    }
    return p;
  }

  // ---------------------------------------------------------------------------
  // Properties of wrapping
  // ---------------------------------------------------------------------------

  /** With every wrapper enabled: list and array give an array, set a unique array, map a map. */
  lemma WrappedByHint<T>(h: string, p: Property<T>)
    ensures ToLower(h) in {"list", "array"} ==> Wrapped(Some(h), p, []) == ArrayProperty(p, false)
    ensures ToLower(h) == "set" ==> Wrapped(Some(h), p, []) == ArrayProperty(p, true)
    ensures ToLower(h) == "map" ==> Wrapped(Some(h), p, []) == MapProperty(p)
  {
  }

  /** The hint's letter case does not matter. */
  lemma WrappedIgnoresCase<T>(h: string, p: Property<T>, allowed: seq<Wrapper>)
    ensures Wrapped(Some(h), p, allowed) == Wrapped(Some(ToLower(h)), p, allowed)
  {
    ToLowerIsLower(h);
  }

  /** A null hint, or a hint naming no wrapper, leaves the property unchanged. */
  lemma UnknownHintUnchanged<T>(container: Option<string>, p: Property<T>, allowed: seq<Wrapper>)
    requires container.None? || ToLower(container.value) !in {"list", "array", "map", "set"}
    ensures Wrapped(container, p, allowed) == p
  {
  }

  /** A wrapper left out of a non-empty allowed list is never applied. */
  lemma DisallowedHintUnchanged<T>(w: Wrapper, p: Property<T>, allowed: seq<Wrapper>)
    requires |allowed| > 0 && w !in allowed
    ensures Wrapped(Some(w.Container()), p, allowed) == p
  {
    assert ToLower(w.Container()) == w.Container();
  }

  /**
   * Response headers are wrapped with only array, list and set allowed: a header never
   * becomes a map property, and "map" leaves it unchanged.
   */
  lemma HeaderWrapNeverMap<T>(container: Option<string>, p: Property<T>)
    ensures !Wrapped(container, p, [Array, List, Set]).MapProperty? || p.MapProperty?
    ensures container == Some("map") ==> Wrapped(container, p, [Array, List, Set]) == p
  {
    if container == Some("map") {
      assert ToLower("map") == "map";
    }
  }
}
