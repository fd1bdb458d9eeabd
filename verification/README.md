# laravel-swagger, modelled in Dafny

This project models the document-synthesis engine of laravel-swagger, the
package that turns a Laravel application's routes into a Swagger 2.0
document. What the framework would supply at run time is given as plain
records instead:
- the router's route (URI, verbs, name, middleware strings);
- the controller's docblocks, reduced to their `@throws` and `@model` tags;
- the form request's validation rules;
- the Eloquent models: columns, casts, dates, hidden attributes, appends and
  relations.

Everything else is pure decisions over strings, ordered PHP arrays and a
finite model graph, written as functions over immutable datatypes.

The modules follow the package's classes:

| module | file | models |
|---|---|---|
| `Wrappers`, `Errors` | wrappers.dfy | `null` as `None`, a thrown exception as `Failure` |
| `Strings` | strings.dfy | `explode`, `trim`, `strtolower`, `str_replace`, `Str::replaceFirst`, `class_basename`, `array_unique` |
| `OrderedMap` | ordered_map.dfy | PHP arrays as insertion-ordered association lists: `$a[$k] = $v`, `$a + $b`, `array_reverse` |
| `Middleware` | middleware.dfy | `DataObjects\Middleware` |
| `Helpers` | helpers.dfy | `strip_optional_char`, `is_valid_file_name`, `laravel_swagger_ui_dist_path` |
| `Route` | route.dfy | `DataObjects\Route` |
| `Rules` | rules.dfy | the rule helpers of `ParameterGenerator` |
| `Parameters` | parameters.dfy | the path, query and body parameter generators |
| `Models`, `Schema` | models.dfy, schema.dfy | the model record and Swagger schema objects |
| `Definitions` | definitions.dfy | `DefinitionGenerator` and the error definition handlers |
| `Responses` | responses.dfy | `SuccessResponseGenerator`, `ErrorResponseGenerator` |
| `Security` | security.dfy | the OAuth2 and JWT security generators and their factory |
| `DocsManager` | docs_manager.dfy | `SwaggerDocsManager` |
| `Generator` | generator.dfy | `Generator`: base info, route filtering, path keys, operations, definition merging |

The central proofs are about the definition registry:
- the relation walk of `DefinitionGenerator` terminates because each descent
  registers a model name that was unregistered;
- the walk never rebuilds a definition that already exists;
- the walk sets every relation accessor on the current model.

On top of these, `Generator.Generate` is proved correct for any list of
routes. It documents exactly the kept routes' path keys and non-ignored
verbs. The last route writing a key and verb decides the operation. The
first route supplying a definition name decides its value. It throws
exactly when the OAuth flow is refused or some route's definitions fail.
This is the generator as evidently intended. It uses the corrected
definition generator from "## Findings", and it reads the calls that
`Route` and the parameter and response generators do not define as the
methods they evidently mean. The source as written raises an `Error` on
every documented verb ("## Left out").

## Model

| member | source | states |
|---|---|---|
| Strings.Split | src/DataObjects/Middleware.php:14 | `explode` yields at least one piece, no piece holds the separator, and joining the pieces with it rebuilds the input |
| Strings.SplitJoin | src/DataObjects/Middleware.php:14 | splitting a join of separator-free pieces gives back exactly those pieces |
| Strings.SplitAfterPiece | src/Parameters/ParameterGenerator.php:48 | a separator-free first piece is peeled off by `explode` and the rest is split on its own |
| Strings.SplitOnce | src/DataObjects/Middleware.php:12 | `explode(c, s, 2)`: the head has no separator; there is a tail iff `s` holds the separator, and head, separator and tail rebuild `s` |
| Strings.TrimLeft | src/DataObjects/Route.php:102 | the result is a suffix of the input starting at a kept character, and every dropped character is in the trim set |
| Strings.TrimRight | src/Generator.php:324 | the result is a prefix of the input ending at a kept character, and every dropped character is in the trim set |
| Strings.TrimSpec | src/DataObjects/Route.php:102 | `trim` returns a contiguous slice of its input whose edge characters are outside the set, and everything cut on either side is in the set |
| Strings.TrimBounds | src/DataObjects/Route.php:102 | gives the two cut points of `trim` explicitly, with the same guarantees as TrimSpec |
| Strings.TrimIdempotent | src/DataObjects/Route.php:102 | trimming a trimmed string changes nothing |
| Strings.ToLower | src/DataObjects/Route.php:69 | `strtolower` keeps the length, leaves no ASCII upper-case letter and does not touch any other character |
| Strings.RemoveChar | src/helpers.php:9 | after `str_replace` the character is gone; the result is no longer than the input, and an input without the character is unchanged |
| Strings.RemoveCharAppend | src/helpers.php:9 | removing a character distributes over concatenation, so the other characters keep their order |
| Strings.FirstIndex | src/Generator.php:385 | `strpos` finds no place iff the search text does not occur; a place it finds leaves room for the whole search text |
| Strings.FirstIndexFirst | src/Generator.php:385 | the place `strpos` finds holds the search text, and no earlier place starts with it |
| Strings.ReplaceFirst | src/Generator.php:385 | with an empty or absent search text the string is unchanged; a leading occurrence is replaced and the rest kept |
| Strings.ReplaceFirstSplit | src/Generator.php:385 | for a non-empty search text that occurs, only its first occurrence is replaced; the text before and after it is kept |
| Strings.ClassBasenameSpec | src/Definitions/DefinitionGenerator.php:156 | `class_basename` is the longest suffix without a backslash: it is preceded by a backslash or by nothing |
| Strings.Dedup | src/DataObjects/Route.php:101-103 | `array_unique` leaves no duplicates and keeps exactly the values of its input |
| Strings.DedupAppendPrefix | src/DataObjects/Route.php:289-303 | deduplicating a longer list keeps the deduplication of its first part as a prefix, so first occurrences keep their order |
| Strings.DedupDistinct | src/DataObjects/Route.php:101-103 | a list without duplicates is its own deduplication |
| OrderedMap.Put | src/Parameters/BodyParameterGenerator.php:37 | `$a[$k] = $v`: `k` reads `v`, every other key reads as before, an existing key keeps its place and a new key is appended, and keys stay unique |
| OrderedMap.PutAbsent | src/Responses/ErrorResponseGenerator.php:76 | adding one entry with `+=` changes nothing if the key is present and appends it otherwise |
| OrderedMap.Union | src/Definitions/DefinitionGenerator.php:331 | `$a + $b`: keys of `$a` keep their values and positions, keys only in `$b` read as in `$b`, and no other key appears |
| OrderedMap.Reverse | src/Definitions/DefinitionGenerator.php:63 | `array_reverse($a, true)` reverses the entries and the key order and keeps keys unique |
| OrderedMap.ReverseGet | src/Definitions/DefinitionGenerator.php:63 | with unique keys, every key reads the same value after reversing |
| OrderedMap.ReverseKeys | src/Definitions/DefinitionGenerator.php:63 | reversing keeps the same key set and moves the first entry to the end |
| OrderedMap.ReverseReverse | src/Definitions/DefinitionGenerator.php:63 | reversing twice restores the array |
| Middleware.Parse | src/DataObjects/Middleware.php:10-15 | the name holds no `:` and is the whole string when there is no `:`; there are no parameters iff there is no `:`; no parameter holds a `,`; rendering the result rebuilds the string |
| Middleware.ParseRender | src/DataObjects/Middleware.php:12-14 | a middleware with a `:`-free name and `,`-free parameters parses back from its rendering |
| Middleware.SplitOnceAt | src/DataObjects/Middleware.php:12 | only the first `:` splits, so `a:b:c` has name `a` and remainder `b:c` |
| Middleware.ParseExample | tests/DataObjects/RouteTest.php:221-232 | `route-middleware:test,test2` parses to name `route-middleware` and parameters `test`, `test2` |
| Helpers.StripOptionalChar | src/helpers.php:7-10 | the result has no `?`, and a URI without `?` is returned unchanged |
| Helpers.StripOptionalCharPiecewise | src/helpers.php:9 | stripping works piecewise, drops each `?` and keeps every other character in order |
| Helpers.StripOptionalCharIdempotent | src/helpers.php:9 | stripping twice is stripping once |
| Helpers.LeadingNameChars | src/helpers.php:131 | the run the regex character class matches: all file-name characters, stopped by the first other character |
| Helpers.IsValidFileNameAsWrittenIff | src/helpers.php:129-132 | the pattern as written accepts exactly the valid names, plus valid names followed by one newline |
| Helpers.TrailingNewlineAccepted | src/helpers.php:131 | `swagger.json` followed by a newline passes the check as written but is not a valid name |
| Helpers.ValidFileNameHasNoSeparator | src/helpers.php:131 | a valid file name holds no `/`, backslash, space, newline or tab |
| Helpers.SwaggerUiDistPath | src/helpers.php:71-98 | no asset, or a falsy one, names the directory without any check; any other asset succeeds iff it is on the fixed allow-list of eleven files |
| Route.OriginalUri | src/DataObjects/Route.php:38-47 | the URI always starts with `/`, gets one prepended only when it lacks it, and is otherwise unchanged |
| Route.OriginalUriIdempotent | src/DataObjects/Route.php:42-44 | normalising an already normalised URI changes nothing |
| Route.Uri | src/DataObjects/Route.php:49-52 | `getUri` is `getOriginalUri` with every `?` removed and still starts with `/` |
| Route.UriExamples | src/DataObjects/Route.php:38-52 | `path/{user_id?}` becomes `/path/{user_id?}`, and its URI is `/path/{user_id}` |
| Route.Methods | src/DataObjects/Route.php:67-70 | each verb is lower-cased, one for one and in order |
| Route.MethodsAreLowerCase | src/DataObjects/Route.php:67-70 | no verb of `getMethods` holds an upper-case ASCII letter |
| Route.DropHead | src/DataObjects/Route.php:75-80 | exactly the `head` entries are dropped: the result has no `head` and keeps every other verb |
| Route.DropHeadAppend | src/DataObjects/Route.php:75-80 | dropping works piecewise, so the remaining verbs keep their order |
| Route.ActionMethods | src/DataObjects/Route.php:75-80 | the action methods are the lower-cased verbs other than `head` |
| Route.ActionMethodsExample | src/DataObjects/Route.php:75-80 | `GET`, `POST`, `HEAD` give `get`, `post` |
| Route.Truthy | src/DataObjects/Route.php:215 | `array_filter` keeps exactly the truthy tag values |
| Route.TagValues | src/DataObjects/Route.php:203-216 | an empty docblock has no tag values; otherwise the values are exactly the non-empty tags |
| Route.TruthyAppend | src/DataObjects/Route.php:215 | `array_values(array_filter(...))` keeps the tag order: filtering a concatenation filters each part in place |
| Route.TagValuesFirst | src/DataObjects/Route.php:203-216 | the first tag value of a non-empty docblock is its first non-empty tag |
| Route.NormalizeThrow | src/DataObjects/Route.php:102 | a normalised exception name has no backslash at either end |
| Route.MapNormalizeThrow | src/DataObjects/Route.php:101-103 | every `@throws` value is normalised, one for one |
| Route.MapNormalizeThrowMembers | src/DataObjects/Route.php:101-103 | the normalised list holds exactly the normalisations of the tag values |
| Route.Throws | src/DataObjects/Route.php:95-104 | `getThrows` is duplicate-free, holds exactly the normalised `@throws` values, and is empty for a closure |
| Route.ModelName | src/DataObjects/Route.php:113-118 | a closure has no `@model`, and a model name found is never empty |
| Route.ModelNameMethodWins | src/DataObjects/Route.php:113-114 | the first method-level `@model` is the model, whatever the class docblock says |
| Route.ModelNameFallback | src/DataObjects/Route.php:113-118 | without a method-level tag the class-level `@model` is used, and with neither there is no model |
| Route.ModelNameFirstTag | src/DataObjects/Route.php:146-150 | the model is named by the first non-empty `@model` tag of a non-empty method docblock, wherever it stands |
| Route.GetModel | src/DataObjects/Route.php:111-127 | no tag gives `null`; a tag naming a known model gives it; a tag naming anything else throws `LaravelSwaggerException` |
| Route.FirstFormRequest | src/DataObjects/Route.php:251-266 | the first action parameter whose class is a form request, or none iff no parameter is one |
| Route.FormRequestClass | src/DataObjects/Route.php:244-267 | a closure has no form request; otherwise it is the first form-request parameter |
| Route.FormRequestRules | src/DataObjects/Route.php:231-239 | rules exist iff there is a form request, and they are that request's rules |
| Route.MiddlewareList | src/DataObjects/Route.php:132-137 | each middleware string is parsed, one for one and in order |
| Route.AnyAuth | src/DataObjects/Route.php:272-281 | true iff some middleware name contains `auth` |
| Route.HasAuthMiddleware | src/DataObjects/Route.php:272-281 | a route has auth middleware iff one of its middleware names contains `auth` |
| Route.Exceptions | src/DataObjects/Route.php:289-303 | duplicate-free; exactly the throws list, then `ValidationException` for a form request, then `AuthenticationException` for auth middleware, each only when not already thrown |
| Rules.Words | src/Parameters/ParameterGenerator.php:45-52 | each piece of a piped rule string becomes one string rule, in order |
| Rules.SplitRules | src/Parameters/ParameterGenerator.php:45-52 | a list passes through unchanged; a string gives pipe-free string rules that rejoin to it |
| Rules.TextsOfWords | src/Parameters/ParameterGenerator.php:45-52 | the texts of the rules made from pieces are those pieces |
| Rules.ParamType | src/Parameters/ParameterGenerator.php:24-38 | the type follows the fixed precedence `integer`, `numeric` as `number`, `boolean`, `array`, otherwise `string`, each as an if-and-only-if |
| Rules.ParamTypeIgnoresOtherRules | tests/Parameters/BodyParameterGeneratorTest.php:198-232 | a rule that is not a type word, closures and rule objects included, never changes the type |
| Rules.HasRuleInsert | src/Parameters/ParameterGenerator.php:24-38 | inserting a rule with other text does not change whether a token is present |
| Rules.InParameter | src/Parameters/ParameterGenerator.php:67-76 | the first rule that is a string or stringable and starts with `in:`, or none iff there is no such rule |
| Rules.EnumValues | src/Parameters/ParameterGenerator.php:54-65 | empty without an `in:` rule; otherwise the comma-separated values between the first and second `:` of the first `in:` rule |
| Rules.FirstPiece | src/Parameters/ParameterGenerator.php:62 | the first piece of `explode` is the text before the first separator |
| Rules.EnumValuesExample | tests/Parameters/QueryParameterGeneratorTest.php:46-55 | `integer`, `in:1,2`, `in_array:foo` give the values `1` and `2` |
| Rules.FirstInExample | tests/Parameters/QueryParameterGeneratorTest.php:46-55 | `in_array:foo` is not taken for an `in:` rule |
| Rules.ColonSplitExample | src/Parameters/ParameterGenerator.php:62 | `in:1,2` splits on `:` into `in` and `1,2` |
| Rules.CommaSplitExample | src/Parameters/ParameterGenerator.php:64 | `1,2` splits on `,` into `1` and `2` |
| Rules.EnumValuesEmptyIn | src/Parameters/ParameterGenerator.php:62-64 | `in:` alone gives one empty value, not an empty list |
| Parameters.WordRun | src/Parameters/PathParameterGenerator.php:27 | the longest run of `\w` characters at the front |
| Parameters.PlaceholderAt | src/Parameters/PathParameterGenerator.php:27 | a placeholder match always consumes input, so extraction moves forward |
| Parameters.PathParameter | src/Parameters/PathParameterGenerator.php:13-19 | a path parameter of type integer named after the placeholder without `?`, required iff the placeholder has no `?` |
| Parameters.PathParameters | src/Parameters/PathParameterGenerator.php:7-23 | one parameter per placeholder, in order |
| Parameters.PlaceholdersSkipLiteral | src/Parameters/PathParameterGenerator.php:27 | text without `{` contributes no placeholder |
| Parameters.WordRunPrefix | src/Parameters/PathParameterGenerator.php:27 | the `\w` run stops exactly at the first non-word character |
| Parameters.PlaceholdersAtPlaceholder | src/Parameters/PathParameterGenerator.php:27-29 | a `{name}` or `{name?}` with a word-character name is extracted, then extraction goes on after it |
| Parameters.PlaceholdersOfRender | src/Parameters/PathParameterGenerator.php:27-29 | for any URI built from literals and placeholders, the extracted placeholders are exactly those it was built from, in order |
| Parameters.PathParametersOfRender | src/Parameters/PathParameterGenerator.php:10-20 | for any such URI, the parameters are the expected ones: the names, and required exactly for non-optional placeholders |
| Parameters.ParametersOfTexts | src/Parameters/PathParameterGenerator.php:10-20 | each placeholder text yields the parameter its segment expects |
| Parameters.NoBraceNoParameters | tests/Parameters/PathParameterGeneratorTest.php:37-42 | a URI without `{` has no path parameters |
| Parameters.HyphenatedPlaceholderIgnored | src/Parameters/PathParameterGenerator.php:27 | `{user-id}` is not a placeholder, so `/users/{user-id}` has no parameters |
| Parameters.PathParametersExample | tests/Parameters/PathParameterGeneratorTest.php:26-35 | `/users/{username}/{id?}` gives a required `username` and an optional `id` |
| Parameters.QueryParameter | src/Parameters/QueryParameterGenerator.php:12-20 | a query parameter named by the rule key, typed by the rule precedence, required iff `required` is among the rules |
| Parameters.QueryParameters | src/Parameters/QueryParameterGenerator.php:7-24 | one query parameter per rule key, in order, so no rules give none |
| Parameters.QueryRuleFormsAgree | tests/Parameters/QueryParameterGeneratorTest.php:11-33 | the rules `integer` and `required`, written as one piped string or as a list, give the same required integer parameter |
| Parameters.BodyProperty | src/Parameters/BodyParameterGenerator.php:29-37 | a field's schema has the rule type and the rule enum, and nothing else |
| Parameters.RequiredFields | src/Parameters/BodyParameterGenerator.php:25-27 | exactly the keys whose rules hold `required` |
| Parameters.RequiredFieldsAppend | src/Parameters/BodyParameterGenerator.php:25-27 | the required list keeps the rule order |
| Parameters.BodyProperties | src/Parameters/BodyParameterGenerator.php:21-38 | properties exist for exactly the rule keys (and what was there), keys stay unique, and other entries are untouched |
| Parameters.BodyPropertiesFresh | src/Parameters/BodyParameterGenerator.php:21-38 | with distinct rule keys the properties are one schema per key, in rule order |
| Parameters.FieldSchemas | src/Parameters/BodyParameterGenerator.php:29-37 | each rule key paired with its field schema, in order |
| Parameters.BodyParameters | src/Parameters/BodyParameterGenerator.php:7-47 | one body parameter of object schema, whose required list is the required fields and whose properties are exactly the rule keys |
| Parameters.BodyParametersEmpty | src/Parameters/BodyParameterGenerator.php:40-46 | no rules give one body parameter with an empty object and no required list |
| Definitions.AllGetOrPost | src/Definitions/DefinitionGenerator.php:95-109 | true iff every verb is `get` or `post` |
| Definitions.AllowsModelDefinitions | src/Definitions/DefinitionGenerator.php:95-109 | models are walked iff every action method other than `head` is `get` or `post` |
| Definitions.ColumnSchema | src/Definitions/DefinitionGenerator.php:215-246 | a date column is a date-time string; otherwise `float`, `int` and `boolean` casts give number/float, integer and boolean, and anything else a string |
| Definitions.ColumnSchemaShape | src/Definitions/DefinitionGenerator.php:215-246 | a column schema has one of four types and a format exactly for dates and floats |
| Definitions.DateOverridesCast | src/Definitions/DefinitionGenerator.php:228-232 | a date column stays a date-time whatever it is cast to |
| Definitions.Visible | src/Definitions/DefinitionGenerator.php:142-151 | exactly the names that are not hidden |
| Definitions.VisibleAppend | src/Definitions/DefinitionGenerator.php:142-151 | hiding works piecewise, so visible names keep their order |
| Definitions.PutColumns | src/Definitions/DefinitionGenerator.php:142-151 | each visible name gets its column schema, hidden names are skipped, and keys stay unique |
| Definitions.PutColumnsKeys | src/Definitions/DefinitionGenerator.php:142-151 | fresh distinct names are added in order, hidden ones left out |
| Definitions.PropertyNames | src/Definitions/DefinitionGenerator.php:126-140 | the columns followed by the appends; no `getAppends` adds nothing; non-array appends throw |
| Definitions.DefinitionProperties | src/Definitions/DefinitionGenerator.php:124-152 | fails iff the appends are not an array; otherwise one property per visible column or append, each with its column schema |
| Definitions.DefinitionPropertiesOrder | src/Definitions/DefinitionGenerator.php:124-152 | the properties are the visible columns, then the visible appends |
| Definitions.SetProperty | src/Definitions/DefinitionGenerator.php:255-261 | sets one property of one definition, creating the definition if absent; keeps its other property names and leaves other definitions untouched |
| Definitions.SetPropertyValues | src/Definitions/DefinitionGenerator.php:260 | inside the definition the property reads the new schema, every other property keeps its schema, and `required` is unchanged |
| Definitions.RelationSchema | src/Definitions/DefinitionGenerator.php:278-286 | a reference to the related model's definition, wrapped as an array iff the relation class contains `Many` |
| Definitions.AddModel | src/Definitions/DefinitionGenerator.php:190-203 | an already registered name is left alone; otherwise the model's definition is appended, or its property error raised |
| Definitions.RelationProperty | src/Definitions/DefinitionGenerator.php:288-292 | setting a relation property never removes a name and never grows the set of unregistered models |
| Definitions.RelationPropertyFacts | src/Definitions/DefinitionGenerator.php:278-292 | the relation property touches only the current model's definition; there the accessor reads the relation's `$ref` schema, other properties keep their schemas and `required` is unchanged |
| Definitions.WalkRelations | src/Definitions/DefinitionGenerator.php:268-304 | the walk ends for any catalog, cycles included, and never removes a registered name |
| Definitions.WalkStep | src/Definitions/DefinitionGenerator.php:294-302 | the walk descends into a related model only when that model's definition was newly added |
| Definitions.WalkKeepsUniqueKeys | src/Definitions/DefinitionGenerator.php:268-304 | a definition name is registered at most once |
| Definitions.WalkKeepsOthers | src/Definitions/DefinitionGenerator.php:268-304 | an entry present before the walk, other than the current model's, is never rebuilt, and only catalog models are added |
| Definitions.WalkKeepsOwnProperties | src/Definitions/DefinitionGenerator.php:268-304 | the current model keeps every property it had and its `required` list |
| Definitions.WalkKeepsProperty | src/Definitions/DefinitionGenerator.php:268-304 | a property of the current model that no remaining relation names keeps its schema through the whole walk, sub-walks included |
| Definitions.WalkSetsAccessor | src/Definitions/DefinitionGenerator.php:278-292 | every relation still to walk sets its accessor on the current model, even when the related definition exists; the last relation with that accessor decides its schema |
| Definitions.WalkSetsRelationProperties | src/Definitions/DefinitionGenerator.php:268-304 | all relations from a given one on have their accessors among the model's properties, each reading the schema of the last relation with that accessor |
| Definitions.WalkStepOwnProperties | src/Definitions/DefinitionGenerator.php:273-302 | one relation and its sub-walk set the accessor to the relation's schema, keep every other property's schema and `required`, and do not grow the unregistered set |
| Definitions.ModelDefinitions | src/Definitions/DefinitionGenerator.php:56-58 | the model comes first, names are unique catalog models, and failure only comes from non-array appends; in the model's definition every accessor reads the schema of its last relation, every other property keeps its column schema, and `required` is empty |
| Definitions.WalkFailure | src/Definitions/DefinitionGenerator.php:133-137 | a walk fails only on a model whose appends are not an array |
| Definitions.ErrorsProperties | src/Definitions/ErrorHandlers/ValidationErrorDefinitionHandler.php:20-28 | one error entry per rule key, keys unique, other entries untouched |
| Definitions.ErrorsPropertiesKeys | src/Definitions/ErrorHandlers/ValidationErrorDefinitionHandler.php:20-28 | with distinct fresh rule keys, the entries are appended in the rules' own order |
| Definitions.ValidationErrorContent | src/Definitions/ErrorHandlers/ValidationErrorDefinitionHandler.php:14-48 | requires `message` and `errors`; `errors` has one entry per rule key (none without a form request), in the rules' order, rule values ignored |
| Definitions.Handle | src/Definitions/ErrorHandlers/DefaultDefinitionHandler.php:28-33 | exactly one entry, under the configured ref, holding the handler's content |
| Definitions.DefaultErrorContentShape | src/Definitions/ErrorHandlers/DefaultErrorDefinitionHandler.php:7-21 | the default error definition is an object requiring only `message`, a string with a fixed example, and does not depend on the route |
| Definitions.FindHandler | src/Definitions/DefinitionGenerator.php:339-350 | the first config entry for exactly this exception class, or none iff no entry names it |
| Definitions.AddErrorDefinition | src/Definitions/DefinitionGenerator.php:325-332 | a handled exception adds its ref by union; existing keys keep their values; nothing else is added |
| Definitions.ErrorDefinitions | src/Definitions/DefinitionGenerator.php:321-333 | error definitions never remove a key and keep keys unique |
| Definitions.ErrorDefinitionsFacts | src/Definitions/DefinitionGenerator.php:321-333 | existing entries keep their values, every handled exception has its ref, and every new key is some exception's ref |
| Definitions.ModelStage | src/Definitions/DefinitionGenerator.php:50-58 | routes with other verbs skip the models; no `@model` means no definitions; errors come from the model or the walk |
| Definitions.Generate | src/Definitions/DefinitionGenerator.php:48-64 | other verbs always succeed, no model gives no definitions, failures are the model stage's, and names are unique |
| Definitions.GenerateFailure | src/DataObjects/Route.php:120-124 | `generate` fails only on an unknown `@model` class or on non-array appends |
| Definitions.GenerateModelLast | src/Definitions/DefinitionGenerator.php:63 | the reversal puts the route's own model last |
| Definitions.GenerateReverseOrder | src/Definitions/DefinitionGenerator.php:63 | the walked models close the list, in the reverse of the order the walk registered them |
| Definitions.GenerateErrorsFirst | src/Definitions/DefinitionGenerator.php:61-63 | every entry before the walked models is an error definition, named by the ref of a handled exception of the route |
| Definitions.GenerateErrorDefinitions | src/Definitions/DefinitionGenerator.php:61-63 | every handled exception of the route has its definition; for other verbs these are all the definitions |
| Definitions.GenerateAsWritten | src/Definitions/DefinitionGenerator.php:52-56 | as written, a walkable route without `@model` raises the null-model error; otherwise it agrees with Generate |
| Definitions.NullModelCounterexample | src/Definitions/DefinitionGenerator.php:52-54 | `GET /orders` without a model fails as written but yields no definitions as intended |
| Responses.SuccessCode | src/Responses/SuccessResponseGenerator.php:31-42 | `get`, `post`, `put` and `delete` have codes 200, 201, 204 and 204, and no other verb has one |
| Responses.SuccessDescription | src/Responses/SuccessResponseGenerator.php:65-74 | 200, 201 and 204 read `OK`, `Created` and `No Content`; any other code reads `''` |
| Responses.FirstActionMethod | src/Responses/SuccessResponseGenerator.php:39-42 | the first verb, which exists iff the first verb is not `head` |
| Responses.MountSchema | src/Responses/SuccessResponseGenerator.php:81-104 | no schema exactly for 204; otherwise a reference to the model, as an array iff the route name contains `index` |
| Responses.SuccessResponses | src/Responses/SuccessResponseGenerator.php:29-63 | an unmapped first verb raises a notice, a bad `@model` propagates, no model gives nothing, and there is at most one response |
| Responses.SuccessResponseShape | src/Responses/SuccessResponseGenerator.php:46-60 | a success response sits under the verb's code with that code's phrase and the mounted schema |
| Responses.SuccessResponsesIgnoreLaterVerbs | src/Responses/SuccessResponseGenerator.php:41-42 | verbs after the first change nothing |
| Responses.HeadFirstHasNoCode | src/Responses/SuccessResponseGenerator.php:39-42 | a route registered `HEAD` first raises the missing-index notice |
| Responses.ErrorResponse | src/Responses/ErrorResponseGenerator.php:33-70 | 422, 401, 404 and 403 give `Validation errors`, `Unauthenticated`, `Model not found` and `Forbidden`, referring to `UnprocessableEntityError`, `UnauthenticatedError`, `NotFoundError` and `ForbiddenError` |
| Responses.ErrorResponseRefsDistinct | src/Responses/ErrorResponseGenerator.php:33-70 | each error code has its own description and refers to a definition of its own |
| Responses.ThrowCode | src/Responses/ErrorResponseGenerator.php:45-74 | after trimming, `AuthenticationException`, `ModelNotFoundException` and `AuthorizationException` give 401, 404 and 403; nothing else has a code |
| Responses.AddThrowResponses | src/Responses/ErrorResponseGenerator.php:72-78 | existing codes stay, and the codes are exactly those present plus those of the thrown exceptions |
| Responses.ValidationResponses | src/Responses/ErrorResponseGenerator.php:33-40 | 422 exactly when there is a form request |
| Responses.ErrorResponses | src/Responses/ErrorResponseGenerator.php:28-92 | unique codes, each with its fixed response |
| Responses.ErrorResponseCodes | src/Responses/ErrorResponseGenerator.php:30-91 | 422 iff form request, 401 iff auth middleware or a thrown `AuthenticationException`, 403 and 404 iff thrown, nothing else; 422 comes first |
| Responses.ErrorResponsesEmpty | src/Responses/ErrorResponseGenerator.php:30-91 | empty iff no form request, no auth middleware and no known thrown exception |
| Security.NewOAuthGenerator | src/Definitions/Security/OAuthSecurityDefinitionsGenerator.php:27-42 | the generator is built iff the flow is one of the four, otherwise `Invalid OAuth flow passed` |
| Security.CreateGenerator | src/Definitions/Security/SecurityDefinitionsFactory.php:16-29 | `oauth2` builds the OAuth generator, `jwt` the JWT one, and any other type is an invalid argument |
| Security.CreateGeneratorValid | src/Definitions/Security/SecurityDefinitionsFactory.php:16-29 | the factory succeeds iff the type is `jwt`, or `oauth2` with a valid flow |
| Security.StripScheme | src/Definitions/Security/OAuthSecurityDefinitionsGenerator.php:77-81 | removes one leading `http://` or `https://`, and nothing when there is none |
| Security.Endpoint | src/Definitions/Security/OAuthSecurityDefinitionsGenerator.php:75-84 | the endpoint ends with the path |
| Security.EndpointBase | src/Definitions/Security/OAuthSecurityDefinitionsGenerator.php:75-84 | before the path is the host without trailing `/` and without its scheme |
| Security.OAuthScheme | src/Definitions/Security/OAuthSecurityDefinitionsGenerator.php:55-70 | an `oauth2` scheme with the flow and scopes; the authorization URL iff `implicit` or `accessCode`, the token URL iff `password`, `application` or `accessCode` |
| Security.OAuthSchemeUrls | src/Definitions/Security/OAuthSecurityDefinitionsGenerator.php:62-68 | every valid flow has some URL, and only `accessCode` has both |
| Security.GenerateDefinitions | src/Definitions/Security/OAuthSecurityDefinitionsGenerator.php:47-73 | JWT always gives the `Bearer` header key; OAuth fails iff there is no Passport route and otherwise gives the one `OAuth2` scheme |
| Security.LastScopeMiddleware | src/Definitions/Security/OAuthSecurityDefinitionsGenerator.php:97-109 | the last scope middleware, or none iff no middleware is one |
| Security.ScopeRequirement | src/Definitions/Security/OAuthSecurityDefinitionsGenerator.php:97-109 | empty iff there is no scope middleware; otherwise `OAuth2` with the parameters of the last one |
| Security.OAuthRouteSecurity | src/Definitions/Security/OAuthSecurityDefinitionsGenerator.php:97-109 | one requirement object: empty iff no middleware checks scopes, otherwise the last scope middleware's parameters under `OAuth2` |
| Security.JwtRouteSecurity | src/Definitions/Security/JWTSecurityDefinitionsGenerator.php:27-38 | a list: `[{Bearer: []}]` iff the route has auth middleware, else empty |
| Security.ScopeRequirementIgnoresOthers | src/Definitions/Security/OAuthSecurityDefinitionsGenerator.php:100-106 | inserting a middleware that is not a scope middleware does not change the requirement |
| Security.LastScopeIgnoresOthers | src/Definitions/Security/OAuthSecurityDefinitionsGenerator.php:100-106 | inserting such a middleware still selects the same scope middleware |
| Security.LastSetIgnoresUnset | src/Definitions/Security/OAuthSecurityDefinitionsGenerator.php:100-106 | an unset flag inserted anywhere keeps the last set flag, shifted by one when it comes after the insertion |
| DocsManager.FilterVersions | src/SwaggerDocsManager.php:54-62 | exactly the versions with that key |
| DocsManager.FilterVersionsAppend | src/SwaggerDocsManager.php:54-62 | filtering works piecewise, so the original order is kept |
| DocsManager.FilterVersionsFirst | src/SwaggerDocsManager.php:54-62 | the first filtered version is the first matching one |
| DocsManager.FindVersionConfig | src/SwaggerDocsManager.php:33-46 | none iff no version matches; otherwise it has the key and the top-level title and description |
| DocsManager.FindVersionConfigIsFirstMatch | src/SwaggerDocsManager.php:40-45 | the config found is the first match, with every other field unchanged |
| DocsManager.DefaultVersionConfig | src/SwaggerDocsManager.php:79-82 | the config of the default version, present iff some version has that key |
| DocsManager.FindVersionConfigListed | src/SwaggerDocsManager.php:33-46 | a version can be found iff it is listed among all versions |
| Generator.NonEmpty | src/Generator.php:90-100 | a configured list is written iff it is non-empty, and then as configured |
| Generator.BaseInfo | src/Generator.php:77-105 | Swagger `2.0` with the configured info and base path; the host loses only a leading scheme; lists written iff non-empty; nothing else yet |
| Generator.BaseInfoHost | src/Generator.php:86 | a host without a scheme is kept, and a trailing `/` survives |
| Generator.AppRoutes | src/Generator.php:110-130 | exactly the routes not ignored by name whose URI passes the prefix filter |
| Generator.AppRoutesAppend | src/Generator.php:114-127 | filtering works route by route, so the kept routes stay in order |
| Generator.AppRoutesNoFilter | src/Generator.php:118 | with nothing ignored and no truthy filter every route is kept |
| Generator.RouteUri | src/Generator.php:383-386 | the URI with the first occurrence of `basePath` removed, and unchanged when there is none |
| Generator.RouteUriExamples | src/Generator.php:383-386 | under base path `/`, the route `users` has path key `users` |
| Generator.RouteUriStripsBasePath | src/Generator.php:383-386 | under base path `/api`, the route `api/store` has path key `/store` |
| Generator.ParseActionDocBlock | src/Generator.php:286-304 | an empty docblock, disabled parsing or a parse failure give not deprecated with empty texts; otherwise the parsed summary |
| Generator.ActionDoc | src/Generator.php:179-182 | a closure has no docblock, so an empty summary |
| Generator.RuleParameters | src/Generator.php:262-272 | `post`, `put` and `patch` give one body parameter; any other verb one query parameter per rule |
| Generator.ActionParameters | src/Generator.php:206-221 | the path parameters, then the rule parameters; no key iff both are empty |
| Generator.ActionSecurity | src/Generator.php:223-232 | present iff security definitions exist and a scope middleware does; one `OAuth2` requirement |
| Generator.ActionSecurityIsOAuthRequirement | src/Generator.php:223-232 | the inline requirement is the one the OAuth generator computes for the route |
| Generator.GeneratorEndpoint | src/Generator.php:322-325 | the host without trailing `/`, then the path; the scheme stays |
| Generator.GeneratorSecurityDefinitions | src/Generator.php:148-172 | fails iff the flow is invalid; otherwise the one `OAuth2` scheme with the flow's URLs |
| Generator.GeneratorSecurityAgreesWithOAuth | src/Generator.php:148-172 | for a host without scheme, the same definitions as the OAuth generator |
| Generator.GeneratorSecurityKeepsScheme | src/Generator.php:322-325 | with host `https://api.test/` the generator's token URL keeps `https://`, unlike the OAuth generator's |
| Generator.AddVerbs | src/Generator.php:63-71 | the verb loop keeps path items and definitions unique-keyed |
| Generator.AddVerbsOutcome | src/Generator.php:63-71 | the verb loop fails iff some verb is documented and the route's definitions fail |
| Generator.AddVerbsItem | src/Generator.php:63-71 | every documented verb gets its operation; no other verb is touched |
| Generator.AddVerbsDefinitions | src/Generator.php:376-381 | merged definitions keep their values, and the route's are added only with a documented verb |
| Generator.AddVerbsNewDefinition | src/Generator.php:376-381 | a name not merged before takes the route's value |
| Generator.AddJob | src/Generator.php:56-72 | one route keeps path keys and definitions unique |
| Generator.AddJobUnfold | src/Generator.php:56-72 | a route's verb loop runs on its path item, created empty when missing |
| Generator.AddJobOutcome | src/Generator.php:56-72 | a route fails iff it has a documented verb and its definitions fail, with their error |
| Generator.AddJobPaths | src/Generator.php:59-61 | a route adds its path key even when every verb is ignored |
| Generator.AddJobOp | src/Generator.php:63-71 | after one route, a key and verb hold the route's operation when the route writes that verb there, and what they held before otherwise |
| Generator.AddJobKeys | src/Generator.php:59-61 | a route adds its own path key and no other |
| Generator.AddJobDefinitions | src/Generator.php:376-381 | a route keeps merged definitions and adds its own by union |
| Generator.AddJobDefinitionName | src/Generator.php:376-381 | after one route, a definition name is present iff it was before or the route supplies it |
| Generator.AddJobNewDefinition | src/Generator.php:376-381 | a new name takes the route's value |
| Generator.AddJobs | src/Generator.php:56-72 | the route loop keeps keys unique |
| Generator.AddJobsOutcome | src/Generator.php:56-72 | the loop fails iff some route fails |
| Generator.AddJobsError | src/Generator.php:56-72 | a failed loop reports the first failing route's error |
| Generator.AddJobsPathKey | src/Generator.php:59-61 | path keys are those before plus those of the routes |
| Generator.AddJobsWrite | src/Generator.php:63-71 | a verb is documented under a key iff it was or some route writes it |
| Generator.AddJobsUntouched | src/Generator.php:63-71 | an operation no later route writes stays |
| Generator.AddJobsLastWriter | src/Generator.php:186 | the last route writing a key and verb decides its operation |
| Generator.AddJobsKeepsDefinitions | src/Generator.php:376-381 | merged definitions keep their place and value |
| Generator.AddJobsDefinitionName | src/Generator.php:376-381 | a name is present iff merged before or some route supplies it |
| Generator.AddJobsFirstDefinition | src/Generator.php:378 | the first supplying route decides a definition's value |
| Generator.SecurityStage | src/Generator.php:51-54 | definitions exist iff `parseSecurity` is set and Passport routes exist, and only then can the flow be refused |
| Generator.Generate | src/Generator.php:46-75 | a successful document is the base info with unique path keys and definitions, and has security definitions iff they were asked for and possible |
| Generator.GenerateUnfold | src/Generator.php:46-75 | past the security step, `generate` is the route walk |
| Generator.GenerateOutcome | src/Generator.php:46-75 | `generate` throws iff the flow is refused or some kept route with a documented verb has failing definitions |
| Generator.GenerateError | src/Generator.php:46-75 | the error is the refused flow, or else the first failing route's |
| Generator.GeneratePathKeys | src/Generator.php:59-61 | the path keys are exactly the kept routes' keys |
| Generator.GenerateVerbs | src/Generator.php:63-68 | a verb is documented under a key iff a kept route with that key has it unignored; ignored methods never appear |
| Generator.GenerateOperation | src/Generator.php:186-200 | the operation under a key and verb is the one the last kept route writing it builds |
| Generator.GenerateDefinitionName | src/Generator.php:376-381 | a definition name is present iff some kept route with a documented verb supplies it |
| Generator.GenerateFirstDefinition | src/Generator.php:376-381 | a definition keeps the value of the first such route supplying it |

## Left out

- Console command, file output and serialisation (`GenerateSwaggerDocCommand`, `GenerateSwaggerDoc`, `FormatterManager`, `Formatters/*`): process I/O and `json_encode`/`yaml_emit`.
- HTTP wiring and configuration data (`Http/Controllers/*`, `routes.php`, `SwaggerServiceProvider`, `config/laravel-swagger.php`): framework glue with no decisions of its own.
- Reflection and docblock parsing (phpDocumentor, `ReflectionMethod`, `ReflectionClass`): replaced by the route record. Its tag values, the parsed summary (`parsedDoc`), the action's parameter classes and the form requests' rules are inputs.
- `get_all_model_relations` and the schema builder: replaced by the model record. `Definitions.WellFormedApp` requires every relation target to be a model of the application, which reflection over real classes guarantees.
- Example values built by model factories inside a database transaction (src/Definitions/DefinitionGenerator.php:66-77, 164-175): database side effects, so definitions carry no `example`.
- `realpath` in `laravel_swagger_ui_dist_path`: file-system I/O. `Helpers.SwaggerUiDistPath` returns the directory or the allowed asset instead of a path.
- The router's middleware alias map and Passport's scope list: parameters (`App.middlewareAliases` and the scopes map).
- PHP loose `==` (src/SwaggerDocsManager.php:59 and `in_array` throughout): modelled as exact string equality. Numeric-looking version keys such as `1.0` and `1.00` are therefore distinct here.
- Method-name mismatches between the classes: `Generator`, `DefinitionGenerator` (src/Definitions/DefinitionGenerator.php:99) and the response generators call `uri()`, `methods()`, `middleware()`, `validMethods()`, `originalUri()` and `action()`, which `Route` does not define. As written each such call raises an `Error`. They are read as `getUri`, `getMethods`, `getMiddleware`, `getActionMethods`, `getOriginalUri` and the action of the route record.
- Generator.ActionDoc: `action()` is read as the route's controller action, absent for a closure, so a closure route gets an empty docblock. Read as `getAction()` (src/DataObjects/Route.php:62-65), a closure gives the string `Closure`. `getActionClassInstance` (src/Generator.php:279-284) has no guard for a missing method name, unlike src/DataObjects/Route.php:196-198, so as written it raises a `ReflectionException` for every closure route.
- Generator.ActionParameters: reads `originalUri()` as `getOriginalUri`. It also passes the URI alone to `PathParameterGenerator` (src/Generator.php:210), whose constructor is `ParameterGenerator::__construct($method, $uri, array $rules)` (src/Parameters/ParameterGenerator.php:13). As written that call raises an `ArgumentCountError` on every documented verb. The model reads it as the generator of that URI's path parameters. The same rule as for closures applies to `getFormRules` (src/Generator.php:240-244).
- Generator.RuleParameters: `BodyParameterGenerator` and `QueryParameterGenerator` are built with the rules alone (src/Generator.php:268, 270), against the three-argument constructor of src/Parameters/ParameterGenerator.php:13. As written this raises an `ArgumentCountError`. The model reads the call as the generator of those rules.
- Responses of an operation: `Generator::addActionResponses` (src/Generator.php:364-370) calls `ResponseGenerator::generate()`, which `ResponseGenerator` does not define. As written this raises an `Error` on the first documented verb. The model reads the call as producing no responses, so the generated operations carry no `responses` key. The success and error response generators are modelled on their own.
- Generator.Generate, Generator.GenerateOutcome and Generator.GenerateError: these compose the corrected `Definitions.Generate` from the Findings table, not `Definitions.GenerateAsWritten`. A kept `get` or `post` route without `@model` therefore succeeds here, while the source as written raises an `Error` (src/Definitions/DefinitionGenerator.php:52-56). Together with the undefined calls above, they describe the generator as evidently intended. They do not describe the source as written, which raises an `Error` on every documented verb.
- `ResponseGenerator::getResponses`, `SwaggerDocsManager::getAllVersionsConfigs`, `ResponseGeneratorInterface`, the security generator contract and `HasAppends`: no behaviour beyond a constant or a getter. `DocsManager.AllVersionsConfigs` is kept only as the vocabulary of `DocsManager.FindVersionConfigListed`.
- `Definitions/Handlers/*`: line-for-line copies of `Definitions/ErrorHandlers/*`, modelled once. `DefinitionGenerator` declares a `Handlers\` return type for `findExceptionDefinitionHandler` while the configuration names `ErrorHandlers\` classes; the model resolves to the `ErrorHandlers` behaviour.
- Closures and validation-rule objects: modelled as `Rules.Opaque` and `Rules.Stringable`. Only their text (when stringable) takes part.
- Absent keys of the PHP arrays: `enum`, `required` and `parameters` are written only when non-empty. Here an empty list, or `None`, stands for the missing key. The order of a schema object's own fixed fields (`type`, `format`, `items`, `required`, `properties`) is not modelled. The order of the entries of a `properties` map, and of the definitions, is modelled.
- Whether the `$ref`s written by the response generators resolve to definitions: the two generators are independent, and nothing checks this.
- Behaviour asserted by tests written against another version of the package and absent from this code: nested dotted or `*` body fields, the body `date` format, query `enum`/`items`, a configurable error-response table, and a four-argument `DefinitionGenerator`.
- Generator.GenerateDefinitionName: stated per definition name rather than as an equality of key lists, so the order of the merged definitions across routes is stated only through Generator.AddJobsKeepsDefinitions.
- Rules.IsParamRequired: a predicate whose definition is the source's test, the `required` token. It carries no contract of its own and is stated through Parameters.QueryParameter and Parameters.RequiredFields.
- Rules.InParameter: a closure, or a rule object without a string form, is skipped while looking for the first `in:` rule. `getInParameter` (src/Parameters/ParameterGenerator.php:67-76) passes every rule to `starts_with` without an `is_string` check. On PHP 8 a rule that is not a string raises a `TypeError`; on PHP 7 it gives a warning and does not match. Skipping is what the tests `testIgnoresClosureRules` and `testIgnoresRuleObject` expect.
- The `GeneratesFromRules` trait (src/Parameters/Concerns/GeneratesFromRules.php): no class uses it. Only the copies of its helpers in `ParameterGenerator` are modelled; `getFormatValue`, `isArrayParameter` and `getArrayKey` exist only in the trait and are left out.

## Findings

| source | as written | input that shows it | evidently intended | confidence | as-written member | corrected member |
|---|---|---|---|---|---|---|
| src/helpers.php:131 | `preg_match('/^([-_.\w]+)$/', $f)`: without the `D` modifier, `$` also matches before a final newline | `"swagger.json\n"` is accepted | only names made of `-`, `_`, `.`, letters and digits | not executed | Helpers.TrailingNewlineAccepted | Helpers.ValidFileNameHasNoSeparator |
| src/Definitions/DefinitionGenerator.php:52 | the no-model check is `=== false`, but `getModel` returns `null`, so the walk asks a null model for its table | a closure route `GET /orders` with no `@model` | no model gives no definitions (`return []`) | not executed | Definitions.NullModelCounterexample | Definitions.Generate |
