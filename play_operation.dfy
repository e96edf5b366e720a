/**
 * The parts of building a Swagger operation in PlayReader.java that are plain decisions
 * over an operation record: which parameter kind an implicit parameter's `paramType`
 * asks for, which response slot a declared code fills, the "successful operation"
 * response added when none was declared, the class-level defaults applied to lists the
 * operation left unset, and writing the operation into its (path, verb) slot.
 */
module PlayOperation {
  import opened Wrappers
  import opened JavaString

  // ---------------------------------------------------------------------------
  // Implicit parameters
  // ---------------------------------------------------------------------------

  /** The Swagger parameter locations an implicit parameter can ask for. */
  datatype ParamKind = PathParam | QueryParam | FormParam | BodyParam | HeaderParam

  /**
   * The `paramType` switch of `readImplicitParam`: the words are compared ignoring case,
   * "form" and "formData" both give a form parameter, and any other word gives None
   * (the parameter is skipped).
   */
  function ClassifyParamType(paramType: string): Option<ParamKind> {
    if EqualsIgnoreCase("path", paramType) then Some(PathParam)
    else if EqualsIgnoreCase("query", paramType) then Some(QueryParam)
    else if EqualsIgnoreCase("form", paramType) || EqualsIgnoreCase("formData", paramType) then Some(FormParam)
    else if EqualsIgnoreCase("body", paramType) then Some(BodyParam)
    else if EqualsIgnoreCase("header", paramType) then Some(HeaderParam)
    else None
  }

  /** The lower-case words that name each kind. */
  function KindWords(k: ParamKind): set<string> {
    match k
    case PathParam => {"path"}
    case QueryParam => {"query"}
    case FormParam => {"form", "formdata"}
    case BodyParam => {"body"}
    case HeaderParam => {"header"}
  }

  /** A kind's usual spelling, as it appears in annotations. */
  function KindName(k: ParamKind): string {
    match k
    case PathParam => "path"
    case QueryParam => "query"
    case FormParam => "formData"
    case BodyParam => "body"
    case HeaderParam => "header"
  }

  /** `paramType` selects kind `k` exactly when its lowered text is one of `k`'s words. */
  lemma ClassifyByLoweredWord(paramType: string, k: ParamKind)
    ensures ClassifyParamType(paramType) == Some(k) <==> ToLower(paramType) in KindWords(k)
  {
    var h := ToLower(paramType);
    EqualsIgnoreCaseLowered("path", paramType);
    EqualsIgnoreCaseLowered("query", paramType);
    EqualsIgnoreCaseLowered("form", paramType);
    EqualsIgnoreCaseLowered("body", paramType);
    EqualsIgnoreCaseLowered("header", paramType);
    assert EqualsIgnoreCase("formData", paramType) <==> EqualsIgnoreCase("formdata", paramType);
    EqualsIgnoreCaseLowered("formdata", paramType);
  }

  /** A `paramType` whose lowered text names no kind is skipped. */
  lemma ClassifyUnknown(paramType: string)
    requires ToLower(paramType) !in {"path", "query", "form", "formdata", "body", "header"}
    ensures ClassifyParamType(paramType) == None
  {
    forall k: ParamKind
      ensures ClassifyParamType(paramType) != Some(k)
    {
      ClassifyByLoweredWord(paramType, k);
    }
  }

  /** Each kind's usual spelling selects that kind back. */
  lemma ClassifyKindName(k: ParamKind)
    ensures ClassifyParamType(KindName(k)) == Some(k)
  {
    ClassifyByLoweredWord(KindName(k), k);
    var name := KindName(k);
    var lowered := match k
      case PathParam => "path"
      case QueryParam => "query"
      case FormParam => "formdata"
      case BodyParam => "body"
      case HeaderParam => "header";
    assert |ToLower(name)| == |lowered|;
    assert forall i :: 0 <= i < |lowered| ==> ToLower(name)[i] == lowered[i];
    assert ToLower(name) == lowered;
  }

  /** The letter case of `paramType` never changes the kind it selects. */
  lemma ClassifyIgnoresCase(paramType: string)
    ensures ClassifyParamType(paramType) == ClassifyParamType(ToLower(paramType))
  {
    ToLowerIsLower(paramType);
    var a := ClassifyParamType(paramType);
    var b := ClassifyParamType(ToLower(paramType));
    if a.Some? {
      ClassifyByLoweredWord(paramType, a.value);
      ClassifyByLoweredWord(ToLower(paramType), a.value);
    }
    if b.Some? {
      ClassifyByLoweredWord(paramType, b.value);
      ClassifyByLoweredWord(ToLower(paramType), b.value);
    }
  }

  // ---------------------------------------------------------------------------
  // Responses
  // ---------------------------------------------------------------------------

  /** A slot of the Responses Object: "default" or a status code written in decimal. */
  datatype ResponseKey = Default | Code(code: int)

  /** A response; its schema and headers come from model conversion, which is not modelled. */
  datatype Response = Response(description: string)

  const SuccessfulOperation: string := "successful operation"

  /** The slot an `@ApiResponse` with status `code` fills: code 0 stands for "default". */
  function DeclaredResponseKey(code: int): (k: ResponseKey)
    ensures k == Default <==> code == 0
    ensures k.Code? ==> k.code == code
  {
    if code == 0 then Default else Code(code)
  }

  /** Distinct declared codes fill distinct slots. */
  lemma DeclaredResponseKeysDistinct(c1: int, c2: int)
    requires c1 != c2
    ensures DeclaredResponseKey(c1) != DeclaredResponseKey(c2)
  {
  }

  /** A security requirement: the authorization's name and its non-empty scopes. */
  datatype SecurityRequirement = SecurityRequirement(name: string, scopes: seq<string>)

  // ---------------------------------------------------------------------------
  // Class-level defaults
  // ---------------------------------------------------------------------------

  /**
   * The rule `read` applies to consumes, produces, tags and security: a list the
   * operation has set (even an empty one) is kept; an unset one receives the class
   * defaults one by one, so it stays unset when there are none.
   */
  function MergeDefault<T>(current: Option<seq<T>>, defaults: seq<T>): Option<seq<T>> {
    if current.Some? then current
    else if |defaults| == 0 then None
    else Some(defaults)
  }

  /** The merge only fills what is unset; an explicit list, even an empty one, wins. */
  lemma MergeDefaultKeepsExplicit<T>(current: Option<seq<T>>, defaults: seq<T>)
    ensures current.Some? ==> MergeDefault(current, defaults) == current
    ensures MergeDefault(current, defaults).None? <==> current.None? && defaults == []
    ensures current.None? && defaults != [] ==> MergeDefault(current, defaults) == Some(defaults)
  {
  }

  /** Applying the class defaults a second time changes nothing. */
  lemma MergeDefaultIdempotent<T>(current: Option<seq<T>>, defaults: seq<T>)
    ensures MergeDefault(MergeDefault(current, defaults), defaults) == MergeDefault(current, defaults)
  {
  }

  /**
   * The produces example: a method that declares "application/json" keeps it when the
   * class declares "application/xml"; a method that declares nothing gets the class's.
   */
  lemma MergeDefaultProducesExample()
    ensures MergeDefault(Some(["application/json"]), ["application/xml"]) == Some(["application/json"])
    ensures MergeDefault(None, ["application/xml"]) == Some(["application/xml"])
  {
  }

  /** The loop `for (x : defaults) operation.x(item)` run only when the list is unset. */
  method FillIfUnset<T>(current: Option<seq<T>>, defaults: seq<T>) returns (r: Option<seq<T>>)
    ensures r == MergeDefault(current, defaults)
  {
    r := current;
    if current.None? {
      for i := 0 to |defaults|
        invariant r == (if i == 0 then None else Some(defaults[..i]))
      {
        assert defaults[..i + 1] == defaults[..i] + [defaults[i]];
        r := Some(r.GetOr([]) + [defaults[i]]);
      }
      assert defaults[..|defaults|] == defaults;
    }
  }

  /** The non-empty entries of `ts`, in order. */
  function NonEmpty(ts: seq<string>): (r: seq<string>)
    ensures forall k :: 0 <= k < |r| ==> r[k] != ""
    ensures forall t :: t in ts && t != "" ==> t in r
    ensures forall t :: t in r ==> t in ts
  {
    if ts == [] then []
    else (if ts[0] == "" then [] else [ts[0]]) + NonEmpty(ts[1..])
  }

  /** Appending items one by one to an unset or set list. */
  function AppendAll<T>(current: Option<seq<T>>, items: seq<T>): Option<seq<T>> {
    if items == [] then current else Some(current.GetOr([]) + items)
  }

  /**
   * The operation record `read` and `parseMethod` fill in. A None list is Java's null:
   * the operation has not set it.
   */
  class Operation {
    var consumes: Option<seq<string>>
    var produces: Option<seq<string>>
    var tags: Option<seq<string>>
    var security: Option<seq<SecurityRequirement>>
    var responses: map<ResponseKey, Response>

    /** A fresh operation: nothing set, no responses. */
    constructor ()
      ensures consumes.None? && produces.None? && tags.None? && security.None?
      ensures responses == map[]
    {
      consumes := None;
      produces := None;
      tags := None;
      security := None;
      responses := map[];
    }

    /** The response declared by an `@ApiResponse` goes into its code's slot, replacing any there. */
    method AddDeclaredResponse(code: int, response: Response)
      modifies this
      ensures responses == old(responses)[DeclaredResponseKey(code) := response]
      ensures consumes == old(consumes) && produces == old(produces)
      ensures tags == old(tags) && security == old(security)
    {
      if code == 0 {
        responses := responses[Default := response];
      } else {
        responses := responses[Code(code) := response];
      }
    }

    /**
     * The operation's own success response goes into the slot of its status code as
     * written, so here a code of 0 fills slot "0", not "default".
     */
    method AddCodeResponse(code: int, response: Response)
      modifies this
      ensures responses == old(responses)[Code(code) := response]
      ensures consumes == old(consumes) && produces == old(produces)
      ensures tags == old(tags) && security == old(security)
    {
      responses := responses[Code(code) := response];
    }

    /** An operation that declared no response gets "successful operation" as its default. */
    method EnsureDefaultResponse()
      modifies this
      ensures old(responses) != map[] ==> responses == old(responses)
      ensures old(responses) == map[] ==> responses == map[Default := Response(SuccessfulOperation)]
      ensures consumes == old(consumes) && produces == old(produces)
      ensures tags == old(tags) && security == old(security)
    {
      if responses == map[] {
        responses := map[Default := Response(SuccessfulOperation)];
      }
    }

    /** The explicit `@ApiOperation` tags are added in order, the empty ones skipped. */
    method AddExplicitTags(explicit: seq<string>)
      modifies this
      ensures tags == AppendAll(old(tags), NonEmpty(explicit))
      ensures consumes == old(consumes) && produces == old(produces)
      ensures security == old(security) && responses == old(responses)
    {
      ghost var added: seq<string> := [];
      for i := 0 to |explicit|
        invariant added == NonEmpty(explicit[..i])
        invariant tags == AppendAll(old(tags), added)
        invariant consumes == old(consumes) && produces == old(produces)
        invariant security == old(security) && responses == old(responses)
      {
        NonEmptySnoc(explicit[..i], explicit[i]);
        assert explicit[..i + 1] == explicit[..i] + [explicit[i]];
        if explicit[i] != "" {
          ConcatAssoc(old(tags).GetOr([]), added, [explicit[i]]);
          assert tags.GetOr([]) == old(tags).GetOr([]) + added;
          tags := Some(tags.GetOr([]) + [explicit[i]]);
          added := added + [explicit[i]];
          assert tags == Some(old(tags).GetOr([]) + added);
        }
      }
      assert explicit[..|explicit|] == explicit;
    }

    /** Class-level consumes, produces, tags and securities fill whatever is still unset. */
    method ApplyClassDefaults(classConsumes: seq<string>, classProduces: seq<string>,
                              classTags: seq<string>, classSecurity: seq<SecurityRequirement>)
      modifies this
      ensures consumes == MergeDefault(old(consumes), classConsumes)
      ensures produces == MergeDefault(old(produces), classProduces)
      ensures tags == MergeDefault(old(tags), classTags)
      ensures security == MergeDefault(old(security), classSecurity)
      ensures responses == old(responses)
    {
      consumes := FillIfUnset(consumes, classConsumes);
      produces := FillIfUnset(produces, classProduces);
      tags := FillIfUnset(tags, classTags);
      security := FillIfUnset(security, classSecurity);
    }
  }

  /** Filtering a list extended by one entry. */
  lemma {:induction false} NonEmptySnoc(ts: seq<string>, t: string)
    ensures NonEmpty(ts + [t]) == NonEmpty(ts) + (if t == "" then [] else [t])
  {
    if ts == [] {
      assert ts + [t] == [t];
    } else {
      assert (ts + [t])[0] == ts[0];
      assert (ts + [t])[1..] == ts[1..] + [t];
      NonEmptySnoc(ts[1..], t);
    }
  }

  /**
   * An `@ApiOperation` whose tags are all empty (the annotation's default is one empty
   * tag) leaves the tags unset, so the class tags apply afterwards.
   */
  lemma EmptyExplicitTagsKeepClassTags(explicit: seq<string>, classTags: seq<string>)
    requires forall k :: 0 <= k < |explicit| ==> explicit[k] == ""
    ensures MergeDefault(AppendAll(None, NonEmpty(explicit)), classTags) == MergeDefault(None, classTags)
  {
    NonEmptyOfBlank(explicit);
  }

  /** Only empty entries: nothing is kept. */
  lemma {:induction false} NonEmptyOfBlank(ts: seq<string>)
    requires forall k :: 0 <= k < |ts| ==> ts[k] == ""
    ensures NonEmpty(ts) == []
  {
    if ts != [] {
      NonEmptyOfBlank(ts[1..]);
    }
  }

  // ---------------------------------------------------------------------------
  // The document's path map
  // ---------------------------------------------------------------------------

  /** The paths map after writing `op` into slot (`path`, `verb`): a missing path is created first. */
  function PutSlot(paths: map<string, map<string, Operation>>, path: string, verb: string, op: Operation)
    : map<string, map<string, Operation>>
  {
    var slots: map<string, Operation> := if path in paths then paths[path] else map[];
    paths[path := slots[verb := op]]
  }

  /** The verb an operation is filed under: its own, else the parent resource's. */
  function EffectiveVerb(httpMethod: Option<string>, parentMethod: Option<string>): Option<string> {
    if httpMethod.None? then parentMethod else httpMethod
  }

  /** The Swagger document's paths: for each path, the operation under each verb. */
  class Document {
    var paths: map<string, map<string, Operation>>

    constructor ()
      ensures paths == map[]
    {
      paths := map[];
    }

    /**
     * Files `op` under `operationPath` and the operation's verb (its parent's when it has
     * none); with no verb at all nothing is written.
     */
    method Register(operationPath: string, httpMethod: Option<string>, parentMethod: Option<string>, op: Operation)
      modifies this
      ensures EffectiveVerb(httpMethod, parentMethod).None? ==> paths == old(paths)
      ensures EffectiveVerb(httpMethod, parentMethod).Some? ==>
        paths == PutSlot(old(paths), operationPath, EffectiveVerb(httpMethod, parentMethod).value, op)
    {
      var verb := if httpMethod.None? then parentMethod else httpMethod;
      if verb.Some? {
        var path: map<string, Operation>;
        if operationPath in paths {
          path := paths[operationPath];
        } else {
          path := map[];
          paths := paths[operationPath := path];
        }
        paths := paths[operationPath := path[verb.value := op]];
      }
    }
  }

  /** After the write the slot holds `op`, and every other slot and path is as before. */
  lemma PutSlotFrame(paths: map<string, map<string, Operation>>, path: string, verb: string, op: Operation,
                     p: string, v: string)
    ensures path in PutSlot(paths, path, verb, op) && verb in PutSlot(paths, path, verb, op)[path]
    ensures PutSlot(paths, path, verb, op)[path][verb] == op
    ensures p != path ==> (p in PutSlot(paths, path, verb, op) <==> p in paths)
    ensures p != path && p in paths ==> PutSlot(paths, path, verb, op)[p] == paths[p]
    ensures path in paths && v != verb ==>
      (v in PutSlot(paths, path, verb, op)[path] <==> v in paths[path])
    ensures path in paths && v != verb && v in paths[path] ==>
      PutSlot(paths, path, verb, op)[path][v] == paths[path][v]
  {
  }

  /** Writing the same slot twice keeps only the last operation. */
  lemma PutSlotLastWins(paths: map<string, map<string, Operation>>, path: string, verb: string, a: Operation, b: Operation)
    ensures PutSlot(PutSlot(paths, path, verb, a), path, verb, b) == PutSlot(paths, path, verb, b)
  {
    var once := PutSlot(paths, path, verb, b);
    var twice := PutSlot(PutSlot(paths, path, verb, a), path, verb, b);
    assert twice[path] == once[path];
  }

  /** Writes to different verbs of one path commute. */
  lemma PutSlotCommutes(paths: map<string, map<string, Operation>>, path: string, v1: string, v2: string,
                        a: Operation, b: Operation)
    requires v1 != v2
    ensures PutSlot(PutSlot(paths, path, v1, a), path, v2, b) == PutSlot(PutSlot(paths, path, v2, b), path, v1, a)
  {
    var m: map<string, Operation> := if path in paths then paths[path] else map[];
    assert PutSlot(paths, path, v1, a) == paths[path := m[v1 := a]];
    assert PutSlot(paths, path, v2, b) == paths[path := m[v2 := b]];
    assert m[v1 := a][v2 := b] == m[v2 := b][v1 := a];
  }
}
