# swagger-api-client: the request-shaping core in Dafny

`buildApiClient(swaggerUrl, apiBase, headers)` reads a Swagger 1.2 resource listing. It publishes one
function per operation under `client[groupName][operationName]`. When called, such a generated method:

1. sorts its positional arguments into path values, one query object and one body object
   (`formatArgs`, with `determineArgTypes` scoring each object argument);
2. checks the path-value count (`validateUrlArgs`) and the body object (`validateBodyArgs`,
   `checkForMissingBodyArgs`);
3. substitutes the path values into the `{name}` placeholders of the API path;
4. renders the query object through the `?k={k}&...` template found in the operation's notes
   (`formatQuery`);
5. calls `fetch` with the merged headers;
6. settles on the reply: the raw response for `text/html`, camelized JSON for `application/json`,
   and a thrown `API ERROR` for any status other than 200.

This project models those steps. The classifier is modelled twice:
- as the loops it is (`Classifier.DetermineArgType` and `Classifier.FormatArgs`, both methods);
- as the functions that specify those loops.

The remaining helpers are pure functions. JavaScript semantics are written out where they matter:
- `[A-z]` includes the six characters between `Z` and `a`;
- `\s` is the JavaScript whitespace set;
- `String.prototype.replace` with a string pattern replaces only the first occurrence;
- `match` returns `null`, and indexing it throws;
- `returnValues[undefined]` is the property named `"undefined"`;
- the `path` array in `formatArgs` is always truthy;
- an array of parameter objects joins as `[object Object]`.

Where the library's documentation and its code disagree, the model follows the code:
- Ties in `determineArgTypes` go to the last tied type, because the reduce keeps a type whose count
  equals the maximum.
- A 200 reply whose content type is neither HTML nor JSON resolves with `undefined`.
- A 200 reply without a `content-type` header throws.
- Every status other than 200, including 201 and 204, throws `API ERROR`.

Modules:
- `Wrappers`: `Option` and `Result`.
- `Text`: `indexOf`, first-occurrence `replace`, decimal rendering, `join`, ASCII `toLowerCase`.
- `JsValues`: arguments, objects, parameters, operations and errors.
- `Classifier`: `formatArgs` and `determineArgTypes`.
- `Validators`: `validateUrlArgs`, `validateBodyArgs` and `checkForMissingBodyArgs`.
- `PathTemplate`: path substitution.
- `QueryTemplate`: `formatQuery`.
- `Client`: headers, published names, reply handling and request assembly.

## Model

| member | source | states |
|---|---|---|
| JsValues.OfType | src/index.js:46-47 | the filter keeps exactly the parameters of the given type, and no more of them than were declared |
| JsValues.OfTypeAppend | src/index.js:46-47 | the filter distributes over concatenation, so it keeps the declared order and every repeated entry |
| Text.IndexOfMeaning | src/index.js:76-79 | `indexOf` returns the first occurrence of the pattern, and returns -1 exactly when the pattern does not occur |
| Text.ReplaceFirstMeaning | src/index.js:56 | `replace` with a string pattern leaves the text unchanged when the pattern is absent; otherwise it replaces only the first occurrence |
| Text.ReplaceFirstKeepsHead | src/index.js:156 | a pattern that does not start with the text's first character leaves that character first |
| Classifier.ScoreCountsMatches | src/index.js:165 | the count for a type is the number of that type's parameters whose name is a key of the object |
| Classifier.TypesAreDeclared | src/index.js:164-167 | the keys of `counts` are exactly the declared parameter types |
| Classifier.CountsAreScores | src/index.js:162-166 | the `forEach` builds one entry per declared type, and that entry holds the type's score |
| Classifier.PickMaxIsLastMaximum | src/index.js:167-169 | the reduce returns a type of maximal count; every type after it in key order counts strictly less |
| Classifier.ArgType | src/index.js:161-170 | the result is `undefined` exactly when the operation declares no parameters |
| Classifier.ArgTypeIsLastMaximum | src/index.js:161-170 | the chosen type has the highest score, and ties go to the last tied type in order of first declaration |
| Classifier.ArgTypeStrictWinner | src/index.js:161-170 | a type that outscores every other declared type is chosen |
| Classifier.ArgTypeOfQueryObject | src/index.js:161-170 | an object whose keys all name query parameters, and no parameter of another type, is typed `query` |
| Classifier.DetermineArgType | src/index.js:161-170 | the loop and the reduce compute the specified type |
| Classifier.ScanSlotsSet | src/index.js:136-146 | after visiting a suffix of the arguments, a slot other than `path` is set exactly when a visited object is headed for it |
| Classifier.ScanSlotsHold | src/index.js:136-146 | an object with no later object headed for the same slot is the one stored in that slot |
| Classifier.ScanPath | src/index.js:136-146 | the path list holds the visited arguments that fill no slot, in reverse order |
| Classifier.Classify | src/index.js:132-148 | the path values, the query and the body together are no more than the arguments, and a query or body that is set is one of the call's object arguments |
| Classifier.ClassifyPath | src/index.js:132-148 | the returned path list is exactly the arguments that fill no slot, in reverse call order |
| Classifier.ClassifySlots | src/index.js:132-148 | the query or body slot is set exactly when some object is typed `query` or `body`, and it holds the rightmost such object |
| Classifier.ClassifyScalars | src/index.js:132-148 | with scalar arguments only, the result is the reversed arguments, with no query and no body |
| Classifier.FormatArgs | src/index.js:132-148 | the right-to-left loop computes the specified classification |
| Validators.PathCountMessageDecodes | src/index.js:105 | the error message carries the declared count, the received count and the declared names, all of which can be read back |
| Validators.ValidateUrlArgs | src/index.js:103-115 | the check throws exactly when the count of path values differs from the count of declared path parameters |
| Validators.CheckForMissingBodyArgs | src/index.js:172-174 | the filter keeps exactly the declared body parameters whose name is a key of the body |
| Validators.CheckForMissingBodyArgsAppend | src/index.js:172-174 | the filter distributes over concatenation, so it keeps the declared order and every repeated entry |
| Validators.ValidateBodyArgs | src/index.js:117-130 | the check throws exactly when some declared body parameter is named by a key of the body |
| Validators.BodyArgsMessageNamesNothing | src/index.js:120 | two failures with the same number of offending parameters carry the same message |
| Validators.EmptyBodyPasses | src/index.js:117-121 | an empty body passes |
| Validators.SuppliedBodyFieldRejected | src/index.js:117-121 | a body that supplies the declared field is rejected with "Missing body args [ [object Object] ]" |
| Validators.BodyCheckInverted | src/index.js:172-174 | with one declared body field, a body without it passes and a body with it is rejected |
| Validators.MissingBodyParams | src/index.js:173 | the intended filter keeps exactly the declared body parameters missing from the body |
| Validators.MissingBodyParamsAppend | src/index.js:173 | the intended filter distributes over concatenation, so it keeps the declared order and every repeated entry |
| Validators.ValidateBodyArgsIntended | src/index.js:117-121 | the intended check throws exactly when some declared body parameter is missing |
| Validators.IntendedBodyCheck | src/index.js:117-121 | under the intended check, an empty body fails when a body field is declared, and a complete body passes |
| PathTemplate.ReplaceAfterBraceFree | src/index.js:56 | behind a brace-free prefix, `replace` fills the placeholder that follows it |
| PathTemplate.Substitute | src/index.js:55-57 | a template in which no declared placeholder occurs comes back unchanged |
| PathTemplate.SubstituteFills | src/index.js:55-57 | a template holding the declared placeholders in declaration order, with no other `{` before the last one, gets the i-th path value in the i-th placeholder; the text after the last placeholder is kept as it is |
| PathTemplate.SubstituteWithoutPlaceholders | src/index.js:55-57 | a template with no declared placeholder comes back unchanged |
| QueryTemplate.FindTemplateOpens | src/index.js:154 | a template found is at least two characters long and starts with `?` |
| QueryTemplate.FindTemplateMeaning | src/index.js:154 | the template is the leftmost `?` followed by a non-space character, extended to the next space or the end; there is none exactly when no such `?` exists |
| QueryTemplate.FindTemplateAfter | src/index.js:154 | a `?`-word after text with no `?` is the template found |
| QueryTemplate.DocumentedTemplateFound | src/index.js:154 | notes that document `?k0={k0}&...` yield that template |
| QueryTemplate.TemplateIsOneWord | src/index.js:154 | a template of the documented shape holds no space, so `match` takes all of it |
| QueryTemplate.MatchLenSound | src/index.js:158 | what the fragment matcher consumes is an optional `&`, a run of `[A-z]`, `={`, a value without `}`, then `}` |
| QueryTemplate.MatchLenComplete | src/index.js:158 | a fragment at the start of a text is matched whole, whatever follows it |
| QueryTemplate.StripFragments | src/index.js:158 | the global replace of unfilled fragments never lengthens the text |
| QueryTemplate.StripDropsFragment | src/index.js:158 | the global replace removes a fragment |
| QueryTemplate.StripBraceFree | src/index.js:158 | text without `{` passes the global replace unchanged |
| QueryTemplate.StripKeepsQuestionMark | src/index.js:158 | the leading `?` survives the global replace |
| QueryTemplate.FormatQuery | src/index.js:150-159 | no query object gives the empty string; a query object throws exactly when the notes hold no template, and otherwise gives a query string that starts with `?` |
| QueryTemplate.FillQuery | src/index.js:155-157 | the reduce over the query entries keeps a template's leading `?` |
| QueryTemplate.FillTemplate | src/index.js:155-157 | the reduce over the query keys fills each fragment with the first entry for its key, and leaves the other fragments as placeholders |
| QueryTemplate.ReplaceInFrags | src/index.js:156 | replacing `{k}` fills the one unfilled fragment keyed `k`, if there is one, and changes nothing else |
| QueryTemplate.StripFrags | src/index.js:158 | the global replace removes every unfilled fragment and keeps every filled one |
| QueryTemplate.FormatQueryKeepsSupplied | src/index.js:150-159 | the query string is `?` followed by the supplied fragments only, each with its original separator |
| QueryTemplate.AllSuppliedFillsTemplate | src/index.js:150-159 | when every documented key is supplied, the query string is the filled template |
| QueryTemplate.MissingFirstKeepsAmpersand | src/index.js:150-159 | a missing first key with a supplied second key gives `?&k1=v...`, keeping that fragment's `&` |
| QueryTemplate.EmptyQueryLeavesQuestionMark | src/index.js:150-159 | an empty query object renders as `?` alone |
| QueryTemplate.NoTemplateThrows | src/index.js:154 | notes without a `?` make a call with a query object throw |
| Client.AssignGet | src/index.js:17 | after a property assignment, the key reads the new value and every other key reads as before |
| Client.AssignKeepsPlaces | src/index.js:17 | an assignment keeps every existing property in its place |
| Client.SpreadGet | src/index.js:17 | after a spread, a key of the source reads the source's value and any other key reads as before |
| Client.SpreadKeepsPlaces | src/index.js:17 | a spread keeps every existing property in its place |
| Client.MergeHeadersGet | src/index.js:14-18 | a header the caller gives is sent with the caller's value; otherwise `Accept` and `Content-Type` are `application/json`; no other header is sent |
| Client.MergeHeaders | src/index.js:14-18 | `Accept` and `Content-Type` stay the first two headers, even when overridden |
| Client.FirstSlash | src/index.js:32 | `indexOf('/')` finds the first slash, and finds none exactly when there is none |
| Client.StripFirstSlash | src/index.js:32 | only the first `/` of the API path is removed; a path without `/` is kept |
| Client.GroupName | src/index.js:32 | the group name is the camelized API path with its first `/` removed |
| Client.LowerFirst | src/index.js:43 | only an empty nickname throws; otherwise only the first character changes, and a capital becomes the matching small letter |
| Client.OperationName | src/index.js:43 | the operation name throws exactly for an empty nickname, and is otherwise the camelized nickname with its first letter lowered |
| Client.NicknamesClashOnFirstLetter | src/index.js:42-43 | nicknames that differ only in the case of their first letter publish the same name |
| Client.ApiErrorMessageDecodes | src/index.js:85 | the error message carries the status and the status text, and both can be read back |
| Client.Settle | src/index.js:68-88 | the reply settles as follows: status other than 200 throws `API ERROR`; a missing content type throws; `text/html` resolves raw; otherwise `application/json` resolves camelized JSON; anything else resolves `undefined` |
| Client.BuildRequest | src/index.js:48-60 | a request built starts its URL with the API base and carries the operation's method, the merged headers and the classified body; a failure is a validation error, never an API error |
| Client.BuildRequestFails | src/index.js:48-60 | a call throws exactly on a path-count mismatch, on a body naming a declared body field, or on a query object without a template; a count mismatch throws the path error |
| Client.ScalarCall | src/index.js:48-60 | with scalar arguments, the URL is the base, then the template with the reversed arguments in its placeholders; a count mismatch throws |
| Client.PathValuesSwapped | src/index.js:55-57 | two path values fill their placeholders in swapped order |
| Client.IntendedReversesScalars | src/index.js:49 | for scalar calls, the intended request is the written request for the reversed call |
| Client.ScalarCallIntended | src/index.js:55-57 | under the intended order, scalar path values fill the placeholders in call order |
| Client.BuildRequestIntendedFails | src/index.js:48-60 | under the intended checks, a call throws exactly on a path-count mismatch, a body missing a declared body field, or a query object without a template |

## Left out

- The network and the discovery loop are not modelled:
  - fetching the resource listing and each API declaration;
  - the `Promise.all` over API blocks;
  - the `fetch` of a generated request.

  `Client.BuildRequest` stops at the `Request` value handed to `fetch`, and `Client.Settle` takes the
  reply's status, status text, content type and parsed body as parameters.
- `docs`, `printDocs` and the `debug` logging only write text out, so they are not modelled.
- `JSON.stringify(body)` is not modelled: the request carries the body object itself.
- `humps.camelize` and `humps.camelizeKeys` are taken as function parameters.
- The rejection of `res.json()` on a malformed body is not modelled.
- The type-checking loops in `validateUrlArgs` and `validateBodyArgs` have empty bodies and no effect.
- The `method` argument of `formatArgs` is never read.
- Objects are entry lists whose values are already rendered as `String(value)`. The model takes it that:
  - the keys are distinct;
  - the keys are in `Object.keys` order.

  These cases are not modelled:
  - `null` arguments, for which `typeof` is `'object'`;
  - array arguments;
  - integer-like keys, which JavaScript reorders;
  - parameter types that name inherited properties such as `constructor`.
- The registration of published names is not modelled. A later API block or operation with the same
  name overwrites an earlier one; `Client.NicknamesClashOnFirstLetter` states only when two nicknames
  clash.
- Text.ReplaceFirst: inserts the replacement literally; the `$&`, `$1` and similar patterns that
  `String.prototype.replace` expands in a replacement string are not modelled.
- Text.ToLowerAscii: lowers ASCII capitals only; `toLowerCase` on other scripts is not modelled.
- QueryTemplate.FormatQueryKeepsSupplied: is stated only for templates of the documented shape
  `?k0={k0}&k1={k1}...` with distinct keys in `[A-z]`, keys without `}` and values without `{`. For
  other notes, `QueryTemplate.FormatQuery` states that a found template gives a query string that
  starts with `?`, and the fragment lemmas state the rest piecewise.
  The same limit holds for `AllSuppliedFillsTemplate`, `MissingFirstKeepsAmpersand` and
  `EmptyQueryLeavesQuestionMark`.
- PathTemplate.SubstituteFills: is stated only for templates that hold the declared placeholders in
  declaration order, with brace-free path values and no `{` before the last placeholder other than the
  placeholders themselves. Templates that list the placeholders out of order, or that hold an
  undeclared `{...}` before the last placeholder, are not covered; `PathTemplate.Substitute` covers
  templates with no declared placeholder.
- Client.ScalarCall: is stated only for scalar, brace-free path values and for the templates
  `PathTemplate.SubstituteFills` covers. `Client.BuildRequestFails` covers the
  error paths of every call.
- Client.Settle: models only which value the promise settles with. The raw response object is
  reduced to the tag `Raw`.

## Findings

| source | as written | input that shows it | evidently intended | confidence | as-written member | corrected member |
|---|---|---|---|---|---|---|
| src/index.js:172-174 | `checkForMissingBodyArgs` keeps the declared body parameters whose name IS a key of the body, so `validateBodyArgs` rejects a body that supplies a declared field and passes one that lacks it | one declared body parameter `name`: body `{ name: 'x' }` throws "Missing body args [ [object Object] ]", and body `{}` passes | throw when a declared body field is missing from the body | not executed | Validators.BodyCheckInverted | Validators.IntendedBodyCheck |
| src/index.js:136-147 | `formatArgs` collects path values from the last argument back, and the substitution at lines 55-57 indexes them in declaration order | path `/users/{id}/posts/{postId}` called with `(42, 7)` gives `/users/7/posts/42` | path values fill the placeholders in call order | not executed | Client.PathValuesSwapped | Client.ScalarCallIntended |
