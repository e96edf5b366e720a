# Swagger for Play 2.4: route, path and lookup helpers

This project models the deterministic core of the Swagger reader for Play 2.4
(`play.modules.swagger`), which builds a Swagger 2.0 document from a Play application's
compiled routes. It covers these parts:

- **Route paths.** A route's path pattern is a sequence of static text and named dynamic
  segments. It becomes a path template such as `/users/{id}`, relative to a configured
  base path.
- **Annotation paths.** When a path comes from annotations, the parent, class and method
  paths are joined under the reader's slash rules.
- **Ignored routes.** An ignore entry covers a path that equals it or lies below it on a
  `/` boundary.
- **Comma lists.** Media-type and protocol lists are split and trimmed.
- **Route keys.** A controller method's route-table key is built from its class's
  canonical name.
- **Container wrapping.** Response types named with a container hint are wrapped in the
  matching Swagger property.
- **HTTP verb fallback.** When the annotations give no verb, the verb of the method's
  route is used.
- **Route table.** A map from route keys to routes, which the table only reads.
- **Operation record.** The decisions the reader makes over an operation:
  - the implicit-parameter kind a `paramType` asks for;
  - the response slot a status code fills;
  - the default "successful operation" response;
  - class-level defaults applied only to lists the operation left unset;
  - filing the operation under its (path, verb) slot.

Modules:

- `Wrappers`: the Option type that stands for Java `null`.
- `JavaString`: the JDK string operations the reader uses, with their JDK semantics.
  This covers `startsWith`, `indexOf`, literal `replaceFirst`, `trim`, `split` with its
  trailing-empty rule, and ASCII `equalsIgnoreCase`/`toLowerCase`.
- `Routes`: the route data and the `RouteCache` class.
- `PlayReader`: path rendering and joining, ignore matching, `toArray`, `parseSchemes`,
  route keys, and the route-gated choice of an operation's path.
- `ContainerWrapper`: the `ContainerWrapper` enum.
- `PlayOperation`: the operation record, its response map, the class-level default
  merge, and the document's path map.
- `PlaySwaggerExtension`: the verb fallback.

`getPathFromRoute` cuts the first occurrence of the base path (less its leading `/`)
anywhere in the rendered route with `replaceFirst`, not only when the route begins with it,
and without regard to segment or parameter boundaries. `PlayReader.BasePathCutInsideRoute`
and `PlayReader.BasePathPrefixCut` show this for static text, and
`PlayReader.BaseCutsDynamicName` shows the cut reaching into a parameter's braces: the route
`{id}` with base path `/i` gives `/{d}`. A parameter's `{name}` reaches the finished template
when the cut misses it (`PlayReader.DynamicPartSurvivesCut`,
`PlayReader.DynamicPartSurvivesWithoutBase`).

## Model

| member | source | states |
|---|---|---|
| Routes.RouteCache.constructor | play-2.4/swagger-play2/app/play/modules/swagger/RouteCache.java:12-14 | The table keeps exactly the map it is given. |
| Routes.RouteCache.Get | play-2.4/swagger-play2/app/play/modules/swagger/RouteCache.java:16-18 | Finds a route exactly when the name is a key, and then returns the route under that key; otherwise None (null). |
| Routes.RouteCache.Exists | play-2.4/swagger-play2/app/play/modules/swagger/RouteCache.java:19-21 | True exactly when the name is a key of the table. |
| Routes.RouteCache.GetAll | play-2.4/swagger-play2/app/play/modules/swagger/RouteCache.java:22-24 | Returns the whole table it was built with; its agreement with `get` and `exists` is `Routes.RouteCacheViewsAgree`. |
| Routes.RouteCacheViewsAgree | play-2.4/swagger-play2/app/play/modules/swagger/RouteCache.java:16-24 | `exists`, `get` and `getAll` agree: a name exists iff `get` finds a route iff it is a key of `getAll`, and the route found is the one `getAll` holds. |
| Routes.BuildAndLookUp | play-2.4/swagger-play2/app/play/modules/swagger/RouteCache.java:10-24 | A table built from a map answers `get` and `exists` from that map, and `getAll` gives the map back. |
| PlayReader.FullMethodName | play-2.4/swagger-play2/app/play/modules/swagger/PlayReader.java:668-675 | The key ends with `.` plus the method name. The class part always contains `$`. It is the canonical name itself iff that name contains `$`, and the name plus `$` iff it does not. |
| PlayReader.CompanionSharesKeys | play-2.4/swagger-play2/app/play/modules/swagger/PlayReader.java:668-675 | A class without `$` and its companion `Name$` produce the same key for every method. |
| PlayReader.KeysSeparateMethods | play-2.4/swagger-play2/app/play/modules/swagger/PlayReader.java:668-675 | Two methods of one class share a key only if they have the same name. |
| PlayReader.GetPathFromRoute | play-2.4/swagger-play2/app/play/modules/swagger/PlayReader.java:313-335 | The loop builds the rendering of the pattern. The result is that rendering, with the first occurrence of the base path (less one leading `/`) cut out and a `/` put in front if missing. It always begins with `/`. |
| PlayReader.RenderPattern | play-2.4/swagger-play2/app/play/modules/swagger/PlayReader.java:315-329 | The `StringBuilder` loop leaves in the builder every part rendered, one after another in pattern order. |
| PlayReader.AppendPart | play-2.4/swagger-play2/app/play/modules/swagger/PlayReader.java:318-328 | One pass appends a static part's text, or `{`, the name and `}` for a dynamic part, to what is already there. |
| PlayReader.RenderedShowsDynamicPart | play-2.4/swagger-play2/app/play/modules/swagger/PlayReader.java:320-325 | Every dynamic part `name` appears as `{name}` in the rendering. |
| PlayReader.DynamicPartSurvivesCut | play-2.4/swagger-play2/app/play/modules/swagger/PlayReader.java:329-334 | When the first occurrence of the stripped base path lies wholly before or wholly after a dynamic part's text, `{name}` still occurs in the finished template. |
| PlayReader.DynamicPartSurvivesWithoutBase | play-2.4/swagger-play2/app/play/modules/swagger/PlayReader.java:329-334 | When the stripped base path does not occur in the rendering, every `{name}` occurs in the finished template. |
| PlayReader.BaseCutsDynamicName | play-2.4/swagger-play2/app/play/modules/swagger/PlayReader.java:322-334 | Counterexample to "`{name}` always survives": a base path that begins a parameter's name is cut out of the braces, so `{id}` with base `/i` gives `/{d}`. |
| PlayReader.ReplaceFirstAt | play-2.4/swagger-play2/app/play/modules/swagger/PlayReader.java:332 | `replaceFirst(basePath, "")` with a literal pattern removes exactly the first occurrence and keeps the text on both sides. |
| PlayReader.RenderedStatic | play-2.4/swagger-play2/app/play/modules/swagger/PlayReader.java:319-320 | A pattern of static parts renders as their texts concatenated in order, copied verbatim. |
| PlayReader.PathFromRouteWithoutBase | play-2.4/swagger-play2/app/play/modules/swagger/PlayReader.java:329-334 | With base path `""` or `/`, the template is the rendering with `/` prepended only when missing. |
| PlayReader.PathFromRouteCutsFirstOccurrence | play-2.4/swagger-play2/app/play/modules/swagger/PlayReader.java:331-332 | Only the first occurrence of the stripped base path is removed; the text before and after it is kept. |
| PlayReader.PathFromRouteBaseAbsent | play-2.4/swagger-play2/app/play/modules/swagger/PlayReader.java:331-334 | A route that does not contain the stripped base path only gets its leading `/`. |
| PlayReader.PathFromStaticText | play-2.4/swagger-play2/app/play/modules/swagger/PlayReader.java:331-334 | A route of one static text loses the first occurrence of the stripped base path, wherever it is, and gets a leading `/` if missing. |
| PlayReader.BasePathPrefixCut | play-2.4/swagger-play2/app/play/modules/swagger/PlayReader.java:331-334 | A route text that begins with the base path less its `/` loses that prefix, whatever follows: `api/users` gives `/users`, and, with no segment boundary needed, `apis/x` gives `/s/x`. |
| PlayReader.BasePathCutInsideRoute | play-2.4/swagger-play2/app/play/modules/swagger/PlayReader.java:331-334 | The base path is cut out of the route at its first occurrence even when that is not at the start: the text before and after it is kept, so `v1/api` with base `/api` gives `/v1/`. |
| PlayReader.PathFromRouteNeverEmpty | play-2.4/swagger-play2/app/play/modules/swagger/PlayReader.java:184-189 | The template is never empty, so the annotation-path fallback in `read` can never run. |
| PlayReader.GetPath | play-2.4/swagger-play2/app/play/modules/swagger/PlayReader.java:337-374 | None (null) exactly when both annotation paths are absent and the parent path is null or empty. Any other result begins with `/`. |
| PlayReader.GetPathNoTrailingSlash | play-2.4/swagger-play2/app/play/modules/swagger/PlayReader.java:366-373 | A joined path is `/` or does not end with `/`, provided no input ends with `//`. |
| PlayReader.GetPathKeepsOneOfTwoSlashes | play-2.4/swagger-play2/app/play/modules/swagger/PlayReader.java:369-370 | Counterexample to the unrestricted rule: class path `/api//` joins to `/api/`. |
| PlayReader.GetPathRootMethodPath | play-2.4/swagger-play2/app/play/modules/swagger/PlayReader.java:355 | A method path of `/` contributes nothing. The result is what the other paths give, or `/` when they give nothing. |
| PlayReader.GetPathJoinsWithSlash | play-2.4/swagger-play2/app/play/modules/swagger/PlayReader.java:355-363 | A class path `/a` and a relative method path `b` join to `/a/b`. |
| PlayReader.IsIgnored | play-2.4/swagger-play2/app/play/modules/swagger/PlayReader.java:657-665 | True iff some ignore entry equals the path or is followed in it by `/`. |
| PlayReader.CoversByBoundary | play-2.4/swagger-play2/app/play/modules/swagger/PlayReader.java:660 | The test "prefix, and either same length or `/` at the entry's length" is exactly "equal, or prefix followed by `/`". |
| PlayReader.CoversExamples | play-2.4/swagger-play2/app/play/modules/swagger/PlayReader.java:657-665 | `/api` covers `/api` and `/api/x` but not `/apix`. |
| PlayReader.ToArray | play-2.4/swagger-play2/app/play/modules/swagger/PlayReader.java:677-686 | `""` gives `[""]`. Otherwise the pieces `split(",")` gives are kept, in their order, each element trimmed in place, in a new array. |
| PlayReader.CommaListSpec | play-2.4/swagger-play2/app/play/modules/swagger/PlayReader.java:679-684 | No trimmed piece holds a comma or has white space at either end. The pieces joined back are a prefix of the input, followed only by commas. |
| PlayReader.CommaListDropsTrailingEmpty | play-2.4/swagger-play2/app/play/modules/swagger/PlayReader.java:680 | Trailing empty pieces are dropped: `a,,` gives `[a]`. |
| PlayReader.RecognisedMembers | play-2.4/swagger-play2/app/play/modules/swagger/PlayReader.java:51-56 | A scheme is collected iff some trimmed entry yields it. |
| PlayReader.ParseSchemes | play-2.4/swagger-play2/app/play/modules/swagger/PlayReader.java:49-58 | The result holds exactly the schemes that `forValue` gives for some trimmed entry of the comma-split, trimmed-to-empty text. |
| PlayReader.OperationPath | play-2.4/swagger-play2/app/play/modules/swagger/PlayReader.java:174-194 | A method is kept iff its key is in the route table and no ignore entry covers its rendered template. It is then paired with that route and template. |
| ContainerWrapper.WrapMatchesNamed | play-2.4/swagger-play2/app/play/modules/swagger/PlayReader.java:733-738 | `wrap` matches iff the lowered hint is the wrapper's word (a null hint never matches), and then gives that wrapper's property. |
| ContainerWrapper.Wrap | play-2.4/swagger-play2/app/play/modules/swagger/PlayReader.java:733-738 | The wrapped property when the hint equals the wrapper's word ignoring case, else None (null); a null hint never matches. Its meaning is `ContainerWrapper.WrapMatchesNamed`. |
| ContainerWrapper.DoWrap | play-2.4/swagger-play2/app/play/modules/swagger/PlayReader.java:689-714 | `LIST` and `ARRAY` build an array property, `SET` an array property with `uniqueItems`, `MAP` a map property, each around the given property. |
| ContainerWrapper.WrapContainer | play-2.4/swagger-play2/app/play/modules/swagger/PlayReader.java:722-731 | The loop's first-match result equals the reference: wrap with the wrapper the hint names when it is enabled, else return the item unchanged. |
| ContainerWrapper.WrappedByHint | play-2.4/swagger-play2/app/play/modules/swagger/PlayReader.java:689-714 | With all wrappers enabled: `list`/`array` give an array, `set` an array with `uniqueItems`, and `map` a map, in any letter case. |
| ContainerWrapper.WrappedIgnoresCase | play-2.4/swagger-play2/app/play/modules/swagger/PlayReader.java:734 | The hint's letter case never changes the result. |
| ContainerWrapper.UnknownHintUnchanged | play-2.4/swagger-play2/app/play/modules/swagger/PlayReader.java:730 | A null hint, or one that names no wrapper, returns the item unchanged. |
| ContainerWrapper.DisallowedHintUnchanged | play-2.4/swagger-play2/app/play/modules/swagger/PlayReader.java:723 | A non-empty allowed list excludes every wrapper not in it. |
| ContainerWrapper.HeaderWrapNeverMap | play-2.4/swagger-play2/app/play/modules/swagger/PlayReader.java:644-645 | Header wrapping (array, list and set only) never makes a map, and leaves the item unchanged for `map`. |
| PlayOperation.ClassifyByLoweredWord | play-2.4/swagger-play2/app/play/modules/swagger/PlayReader.java:390-403 | `paramType` selects a kind iff its lowered text is one of that kind's words; `form` and `formdata` both select form. |
| PlayOperation.ClassifyParamType | play-2.4/swagger-play2/app/play/modules/swagger/PlayReader.java:390-403 | The `equalsIgnoreCase` chain over `path`, `query`, `form`/`formData`, `body` and `header`, None (null) for anything else; characterised by `PlayOperation.ClassifyByLoweredWord` and `PlayOperation.ClassifyUnknown`. |
| PlayOperation.ClassifyUnknown | play-2.4/swagger-play2/app/play/modules/swagger/PlayReader.java:400-403 | Any other `paramType` yields no parameter. |
| PlayOperation.ClassifyKindName | play-2.4/swagger-play2/app/play/modules/swagger/PlayReader.java:390-399 | Each kind's usual spelling selects that kind. |
| PlayOperation.ClassifyIgnoresCase | play-2.4/swagger-play2/app/play/modules/swagger/PlayReader.java:390-399 | The letter case of `paramType` never matters. |
| PlayOperation.DeclaredResponseKey | play-2.4/swagger-play2/app/play/modules/swagger/PlayReader.java:520-524 | Code 0 goes to the default slot, and only code 0 does; any other code keeps its own slot. |
| PlayOperation.DeclaredResponseKeysDistinct | play-2.4/swagger-play2/app/play/modules/swagger/PlayReader.java:520-524 | Distinct declared codes fill distinct slots. |
| PlayOperation.Operation.constructor | play-2.4/swagger-play2/app/play/modules/swagger/PlayReader.java:410 | A new operation has no lists set and no responses. |
| PlayOperation.Operation.AddDeclaredResponse | play-2.4/swagger-play2/app/play/modules/swagger/PlayReader.java:520-524 | The response replaces what was in its code's slot, and nothing else changes. |
| PlayOperation.Operation.AddCodeResponse | play-2.4/swagger-play2/app/play/modules/swagger/PlayReader.java:471-486 | The operation's own success response goes into the slot of its code as written (0 included); nothing else changes. |
| PlayOperation.Operation.EnsureDefaultResponse | play-2.4/swagger-play2/app/play/modules/swagger/PlayReader.java:558-561 | With no response declared, the only response becomes a default "successful operation". Otherwise the responses are untouched. |
| PlayOperation.Operation.AddExplicitTags | play-2.4/swagger-play2/app/play/modules/swagger/PlayReader.java:259-264 | The non-empty explicit tags are appended in order; an all-empty list leaves the tags as they were. |
| PlayOperation.Operation.ApplyClassDefaults | play-2.4/swagger-play2/app/play/modules/swagger/PlayReader.java:271-292 | Consumes, produces, tags and security each become the merge of their old value with the class defaults; responses are unchanged. |
| PlayOperation.FillIfUnset | play-2.4/swagger-play2/app/play/modules/swagger/PlayReader.java:271-275 | The append loop, run only on an unset list, yields the merge: set lists are kept, and an unset list gets the defaults, or stays unset when there are none. |
| PlayOperation.MergeDefault | play-2.4/swagger-play2/app/play/modules/swagger/PlayReader.java:271-292 | A list the operation set is kept; an unset list gets the class defaults, or stays unset when there are none. Its properties are the MergeDefault lemmas below. |
| PlayOperation.MergeDefaultKeepsExplicit | play-2.4/swagger-play2/app/play/modules/swagger/PlayReader.java:271-292 | An explicit list, even an empty one, wins. The result is unset iff the list was unset and there are no defaults. |
| PlayOperation.MergeDefaultIdempotent | play-2.4/swagger-play2/app/play/modules/swagger/PlayReader.java:271-292 | Applying the class defaults twice is the same as once. |
| PlayOperation.MergeDefaultProducesExample | play-2.4/swagger-play2/app/play/modules/swagger/PlayReader.java:276-280 | A method producing JSON keeps it under a class producing XML; a method producing nothing gets XML. |
| PlayOperation.NonEmptySnoc | play-2.4/swagger-play2/app/play/modules/swagger/PlayReader.java:259-264 | Filtering out empty tags one entry at a time agrees with filtering the whole list. |
| PlayOperation.EmptyExplicitTagsKeepClassTags | play-2.4/swagger-play2/app/play/modules/swagger/PlayReader.java:259-286 | Explicit tags that are all empty leave the tags unset, so the class tags are applied. |
| PlayOperation.Document.Register | play-2.4/swagger-play2/app/play/modules/swagger/PlayReader.java:255-298 | With no own verb and no parent verb, nothing is written. Otherwise the operation is written into (path, verb), creating the path first if missing. |
| PlayOperation.PutSlotFrame | play-2.4/swagger-play2/app/play/modules/swagger/PlayReader.java:293-298 | After the write the slot holds the operation, and every other path and every other verb of the path is as before. |
| PlayOperation.PutSlot | play-2.4/swagger-play2/app/play/modules/swagger/PlayReader.java:293-298 | The path map after `path.set(verb, operation)`, creating the path when missing; characterised by `PlayOperation.PutSlotFrame`, `PlayOperation.PutSlotLastWins` and `PlayOperation.PutSlotCommutes`. |
| PlayOperation.PutSlotLastWins | play-2.4/swagger-play2/app/play/modules/swagger/PlayReader.java:298 | Writing a slot twice keeps only the last operation; duplicates overwrite silently. |
| PlayOperation.PutSlotCommutes | play-2.4/swagger-play2/app/play/modules/swagger/PlayReader.java:293-298 | Writes to different verbs of one path are independent of order. |
| PlaySwaggerExtension.ExtractOperationMethod | play-2.4/swagger-play2/app/play/modules/swagger/PlaySwaggerExtension.java:24-41 | A non-empty superclass verb is kept. With an empty one, the route under the declaring class's key gives its verb in lower case; with no route, the superclass answer stands. |
| PlaySwaggerExtension.FallbackVerbIsLowerCase | play-2.4/swagger-play2/app/play/modules/swagger/PlaySwaggerExtension.java:27-32 | A verb that differs from the superclass's came from a route, with the superclass verb empty, and is lower case. |
| PlaySwaggerExtension.RoutedMethodHasVerb | play-2.4/swagger-play2/app/play/modules/swagger/PlaySwaggerExtension.java:27-32 | Every method whose declaring class's key the route table knows gets a non-null verb. |
| PlaySwaggerExtension.InheritedMethodGetsNoVerb | play-2.4/swagger-play2/app/play/modules/swagger/PlaySwaggerExtension.java:29 | The extension keys a method by its declaring class, the reader (PlayReader.java:175) by the scanned class: for `m` inherited by `Child` from `Base`, a table holding only `Child$.m` has the reader's key, yet the extension gives no verb. |
| PlaySwaggerExtension.CompanionSharesVerb | play-2.4/swagger-play2/app/play/modules/swagger/PlaySwaggerExtension.java:29 | A class and its companion `Name$` get the same verb for a method. |
| PlaySwaggerExtension.ExtensionKeyFormat | play-2.4/swagger-play2/app/play/modules/swagger/PlaySwaggerExtension.java:50-56 | The extension's key is `Name$.method` without `$` and `Name.method` with it, the same as the reader's. |
| JavaString.SplitSpec | play-2.4/swagger-play2/app/play/modules/swagger/PlayReader.java:680 | `split(",")`: no piece holds the separator; the text comes back whole when it has none; otherwise the last piece is non-empty. The pieces joined back are a prefix of the text followed only by separators. |
| JavaString.Split | play-2.4/swagger-play2/app/play/modules/swagger/PlayReader.java:680 | `split(",")` with limit 0: the text whole when it holds no separator, otherwise every piece between separators with the trailing empty ones dropped; characterised by `JavaString.SplitSpec`. |
| JavaString.Trim | play-2.4/swagger-play2/app/play/modules/swagger/PlayReader.java:682 | `trim`: leading then trailing characters up to U+0020 removed; characterised by `JavaString.TrimShape`. |
| JavaString.ReplaceFirst | play-2.4/swagger-play2/app/play/modules/swagger/PlayReader.java:332 | `replaceFirst(p, "")` for a literal `p`: the text without the first occurrence of `p`, or unchanged when `p` does not occur; see `PlayReader.ReplaceFirstAt`. |
| JavaString.TrimShape | play-2.4/swagger-play2/app/play/modules/swagger/PlayReader.java:682 | `trim` keeps a contiguous part of the text, drops only characters up to U+0020 around it, and begins and ends with a visible character. |
| JavaString.EqualsIgnoreCaseLowered | play-2.4/swagger-play2/app/play/modules/swagger/PlayReader.java:734 | Comparing with a lower-case word ignoring case is comparing the lowered text with it. |
| JavaString.ToLower | play-2.4/swagger-play2/app/play/modules/swagger/PlaySwaggerExtension.java:32 | `toLowerCase` on ASCII letters: same length, each character lowered; the result is lower case and lowering it again changes nothing (`JavaString.ToLowerIsLower`). |
| JavaString.ToLowerIsLower | play-2.4/swagger-play2/app/play/modules/swagger/PlaySwaggerExtension.java:32 | The lowered text is lower case, and lowering is idempotent. |
| JavaString.EqualsIgnoreCase | play-2.4/swagger-play2/app/play/modules/swagger/PlayReader.java:390-399 | `equalsIgnoreCase`, as the `paramType` chain and `wrap` (line 734) use it: equal length and equal characters up to ASCII case; against a lower-case word it is comparing the lowered text (`JavaString.EqualsIgnoreCaseLowered`). |
| PlayReader.TrimToEmpty | play-2.4/swagger-play2/app/play/modules/swagger/PlayReader.java:50 | `StringUtils.trimToEmpty`: `""` for null and otherwise the trimmed text; tied to `trimToNull` by `PlayReader.TrimToEmptyMeaning`. |
| PlayReader.TrimToNull | play-2.4/swagger-play2/app/play/modules/swagger/PlayReader.java:51 | `StringUtils.trimToNull`: null exactly for white space alone, otherwise the trimmed text (`PlayReader.TrimToNullMeaning`). |
| PlayReader.TrimToNullMeaning | play-2.4/swagger-play2/app/play/modules/swagger/PlayReader.java:51 | Null exactly when every character is white space; otherwise the non-empty trimmed text, beginning and ending with a visible character. |
| PlayReader.TrimToEmptyMeaning | play-2.4/swagger-play2/app/play/modules/swagger/PlayReader.java:50 | `""` for null or a white-space text, and otherwise the same text `trimToNull` gives. |

## Left out

- Reflection and annotation reading in `read` and `parseMethod` are not modelled (`getMethods`, `getAnnotation`, overridden-method checks, sub-resource recursion). The model takes their results as inputs: canonical names, method names, paths, tags and codes.
- Calls into foreign libraries are not modelled, because their code is not part of this model: `ModelConverters`, `ParameterProcessor`, `ReaderUtils`, `BaseReaderUtils`, `PathUtils.parsePath`, the extension chain, Jackson's `TypeFactory` (`isVoid`, `isValidResponse`), `appendModels`, `parseResponseHeaders`, `getParameters` and the `DefaultParameterExtension` superclass. The superclass's verb is a parameter of `PlaySwaggerExtension.ExtractOperationMethod`.
- `readImplicitParameters` and the tail of `readImplicitParam` are not modelled. `ParameterProcessor` builds the parameter. The model stops at the kind the `paramType` asks for (`PlayOperation.ClassifyParamType`). For `body` the source hands a null parameter on to `ParameterProcessor` (PlayReader.java:397-398); what that returns is not part of this model.
- `Scheme.forValue` belongs to swagger-models. It is the parameter `forValue` of `PlayReader.ParseSchemes`, and the result is a set, as the `EnumSet` is. Merging operation and class schemes (PlayReader.java:217-227) is not modelled.
- Swagger's `Operation` and `Path` classes are not part of this model. Their list adders are assumed to create the list on first use and append. `Path.set` is assumed to store the operation under the verb it is given, whatever the verb. Schemas, headers, vendor extensions and parameters of an operation are not modelled.
- Merging parent consumes and produces through hash sets (PlayReader.java:229-247) is not modelled, because a `HashSet`'s iteration order is unspecified.
- `String.replaceFirst` treats its pattern as a regular expression. `PlayReader.GetPathFromRoute` requires a base path without regex metacharacters, so that the pattern is the literal text. `PlayReader.PathFromRoute` and the lemmas about it read any base path as literal text, so for a base path with metacharacters (`/a+` on the route `a+a`, which Java turns into `/+a`) they describe the literal cut, not Java's.
- Case folding covers ASCII letters only. Java's `equalsIgnoreCase` and `toLowerCase` also fold some other characters, such as U+0130 and U+017F. `toLowerCase()` on the route verb (PlaySwaggerExtension.java:32) also depends on the JVM's default locale: under a Turkish or Azeri locale `OPTIONS` lowers to `optıons` with a dotless i, while `PlaySwaggerExtension.ExtractOperationMethod` always gives `options`.
- Null strings are not modelled: `toArray(null)` returns `[null]`, and the model's strings are never null. Annotation paths and the parent path are Options, because `getPath` tests them for null.
- `RouteWrapper`, the table type the reader and the extension query, is not part of this model. It is modelled with the `RouteCache` interface.
- `RouteCache` keeps the caller's `Map` by reference and `getAll` hands that same map out (RouteCache.java:12-13, 22-24), so whoever holds it can change the table. The model takes the map as a value, so this aliasing is not modelled.
- The reader builds a method's key from the scanned class (PlayReader.java:175), the extension from the method's declaring class (PlaySwaggerExtension.java:29). For an inherited method the two keys differ, so the reader can keep a method for which the extension finds no verb; with no annotation verb the operation is then skipped (PlayReader.java:255-256). `PlaySwaggerExtension.InheritedMethodGetsNoVerb` exhibits the mismatch; which class's methods `getMethods` returns is not modelled.
- `RouteFactory` and `RouteCacheFactory` are process-wide singletons with a plain set and get, so they are not modelled.
- Logging and exception rethrowing are not modelled. The exception caught around `toLowerCase` in the extension cannot happen in the model.
- A route's verb is modelled as the text `HttpVerb.toString` gives. The route's call and a dynamic part's constraint and encoding flag are not modelled.
- The fallback to `getPath` in `read` (PlayReader.java:186-189) is left out of `PlayReader.OperationPath`, because `PlayReader.PathFromRouteNeverEmpty` proves it cannot run.
- PlayReader.GetPathNoTrailingSlash: holds only when no input ends with `//`. `getPath` drops just one trailing slash, so `/api//` joins to `/api/` (`PlayReader.GetPathKeepsOneOfTwoSlashes`).
- PlayReader.PathFromRouteNeverEmpty: its cited lines are the dead fallback it rules out. The property itself comes from PlayReader.java:333-334.
- PlaySwaggerExtension.RoutedMethodHasVerb: says the verb is non-null, not that it is non-empty, because a `Route`'s verb text may be empty in the model.
- The third branch of the rendering loop (PlayReader.java:326-327), for a part that is neither static nor dynamic, is not modelled: a `PathPart` is one of the two, and that branch would fail with a cast error.
- PlayOperation.Operation.AddExplicitTags: the document's tag registry is not modelled, so registering each non-empty tag in the document (PlayReader.java:262) is not stated; nor is the registration of the class-level tags (PlayReader.java:116-118).
