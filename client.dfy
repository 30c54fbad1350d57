/** What `buildApiClient` wires around the request-shaping helpers: the merged request headers, the
    names under which API blocks and operations are published, the request a generated method
    sends, and how it settles on the reply. */
module Client {
  import opened Wrappers
  import opened Text
  import opened JsValues
  import opened Classifier
  import opened Validators
  import opened PathTemplate
  import opened QueryTemplate

  // ---------------------------------------------------------------------------------------------
  // Headers

  /** Some entry is keyed `k`. */
  predicate HasKey(es: seq<(string, string)>, k: string)
    decreases |es|
  {
    es != [] && (es[|es| - 1].0 == k || HasKey(es[..|es| - 1], k))
  }

  /** `o[k]`, `None` standing for `undefined`. */
  function Get(o: Obj, k: string): (r: Option<string>)
    ensures r.None? <==> !HasKey(o.entries, k)
    ensures r.Some? ==> (k, r.value) in o.entries
    decreases |o.entries|
  {
    var es := o.entries;
    if es == [] then None
    else if es[|es| - 1].0 == k then Some(es[|es| - 1].1)
    else Get(Obj(es[..|es| - 1]), k)
  }

  /** `{ ...es, [k]: v }`: an existing property keeps its place and takes the new value; a new one
      goes last. */
  function Assign(es: seq<(string, string)>, k: string, v: string): seq<(string, string)>
  {
    if HasKey(es, k) then Overwrite(es, k, v) else es + [(k, v)]
  }

  /** Every entry keyed `k` takes the value `v`. */
  function Overwrite(es: seq<(string, string)>, k: string, v: string): (r: seq<(string, string)>)
    ensures |r| == |es| && forall i :: 0 <= i < |es| ==> r[i].0 == es[i].0
    decreases |es|
  {
    if es == [] then []
    else
      var last := es[|es| - 1];
      Overwrite(es[..|es| - 1], k, v) + [if last.0 == k then (k, v) else last]
  }

  /** `{ ...es, ...src }`: the properties of `src` assigned one by one, in order. */
  function Spread(es: seq<(string, string)>, src: seq<(string, string)>): seq<(string, string)>
    decreases |src|
  {
    if src == [] then es
    else
      var last := src[|src| - 1];
      Assign(Spread(es, src[..|src| - 1]), last.0, last.1)
  }

  const DefaultHeaders: seq<(string, string)> :=
    [("Accept", "application/json"), ("Content-Type", "application/json")]

  /** `{ 'Accept': 'application/json', 'Content-Type': 'application/json', ...headers }`, where
      spreading `undefined` adds nothing. `Accept` and `Content-Type` stay the first two headers,
      even when the caller overrides them. */
  function MergeHeaders(user: Option<Obj>): (r: Obj)
    ensures |r.entries| >= 2 && r.entries[0].0 == "Accept" && r.entries[1].0 == "Content-Type"
  {
    match user
    case None => Obj(DefaultHeaders)
    case Some(u) =>
      SpreadKeepsPlaces(DefaultHeaders, u.entries);
      Obj(Spread(DefaultHeaders, u.entries))
  }

  /** Reading after one more entry. */
  lemma GetSnoc(es: seq<(string, string)>, e: (string, string), k: string)
    ensures Get(Obj(es + [e]), k) == if e.0 == k then Some(e.1) else Get(Obj(es), k)
    ensures HasKey(es + [e], k) <==> e.0 == k || HasKey(es, k)
  {
    assert (es + [e])[..|es|] == es;
  }

  lemma {:induction false} OverwriteGet(es: seq<(string, string)>, k: string, v: string, k': string)
    ensures Get(Obj(Overwrite(es, k, v)), k') == if k' == k && HasKey(es, k) then Some(v) else Get(Obj(es), k')
    decreases |es|
  {
    if es != [] {
      var n := |es| - 1;
      OverwriteGet(es[..n], k, v, k');
      OverwriteLast(es, k, v, k');
    }
  }

  /** The step of `OverwriteGet` for the last entry. */
  lemma OverwriteLast(es: seq<(string, string)>, k: string, v: string, k': string)
    requires es != []
    requires var n := |es| - 1;
             Get(Obj(Overwrite(es[..n], k, v)), k') == if k' == k && HasKey(es[..n], k) then Some(v) else Get(Obj(es[..n]), k')
    ensures Get(Obj(Overwrite(es, k, v)), k') == if k' == k && HasKey(es, k) then Some(v) else Get(Obj(es), k')
  {
    var n := |es| - 1;
    var last := if es[n].0 == k then (k, v) else es[n];
    GetSnoc(Overwrite(es[..n], k, v), last, k');
  }

  /** After an assignment, `k` reads `v` and every other property reads as before. */
  lemma AssignGet(es: seq<(string, string)>, k: string, v: string, k': string)
    ensures Get(Obj(Assign(es, k, v)), k') == if k' == k then Some(v) else Get(Obj(es), k')
  {
    if HasKey(es, k) {
      OverwriteGet(es, k, v, k');
    } else {
      assert (es + [(k, v)])[..|es|] == es;
    }
  }

  /** An assignment keeps every existing property in its place. */
  lemma AssignKeepsPlaces(es: seq<(string, string)>, k: string, v: string)
    ensures |es| <= |Assign(es, k, v)| && forall i :: 0 <= i < |es| ==> Assign(es, k, v)[i].0 == es[i].0
  {
  }

  /** After a spread, a property of `src` reads as in `src`, and any other as before. */
  lemma {:induction false} SpreadGet(es: seq<(string, string)>, src: seq<(string, string)>, k: string)
    ensures Get(Obj(Spread(es, src)), k) == if HasKey(src, k) then Get(Obj(src), k) else Get(Obj(es), k)
    decreases |src|
  {
    if src != [] {
      var n := |src| - 1;
      SpreadGet(es, src[..n], k);
      AssignGet(Spread(es, src[..n]), src[n].0, src[n].1, k);
    }
  }

  /** A spread keeps every existing property in its place. */
  lemma {:induction false} SpreadKeepsPlaces(es: seq<(string, string)>, src: seq<(string, string)>)
    ensures |es| <= |Spread(es, src)| && forall i :: 0 <= i < |es| ==> Spread(es, src)[i].0 == es[i].0
    decreases |src|
  {
    if src != [] {
      var n := |src| - 1;
      SpreadKeepsPlaces(es, src[..n]);
      AssignKeepsPlaces(Spread(es, src[..n]), src[n].0, src[n].1);
    }
  }

  /** Every header the caller gives is sent with the caller's value; `Accept` and `Content-Type`
      default to `application/json`; nothing else is sent. */
  lemma MergeHeadersGet(user: Option<Obj>, k: string)
    ensures Get(MergeHeaders(user), k)
            == if user.Some? && HasKey(user.value.entries, k) then Get(user.value, k)
               else if k == "Accept" || k == "Content-Type" then Some("application/json")
               else None
  {
    var d := Obj(DefaultHeaders);
    assert Obj(DefaultHeaders).entries[..1] == [("Accept", "application/json")];
    assert Get(d, k) == if k == "Accept" || k == "Content-Type" then Some("application/json") else None;
    if user.Some? {
      SpreadGet(DefaultHeaders, user.value.entries, k);
    }
  }

  // ---------------------------------------------------------------------------------------------
  // Published names

  /** `path.replace('/', '')`: exactly one '/' goes, the first one, and nothing else changes. */
  function StripFirstSlash(path: string): (r: string)
    ensures '/' !in path ==> r == path
    ensures '/' in path ==>
              IndexOf(path, "/").Some? &&
              var i := IndexOf(path, "/").value;
              path[i] == '/' && '/' !in path[..i] && r == path[..i] + path[i + 1..]
  {
    ReplaceFirstMeaning(path, "/", "");
    FirstSlash(path);
    ReplaceFirst(path, "/", "")
  }

  /** `path.indexOf('/')` finds the first '/', and finds none exactly when there is none. */
  lemma FirstSlash(path: string)
    ensures IndexOf(path, "/").Some? <==> '/' in path
    ensures IndexOf(path, "/").Some? ==>
              var i := IndexOf(path, "/").value; path[i] == '/' && '/' !in path[..i]
  {
    IndexOfMeaning(path, "/");
    assert forall j :: 0 <= j < |path| ==> (OccursAt(path, "/", j) <==> path[j] == '/') by {
      forall j | 0 <= j < |path|
        ensures OccursAt(path, "/", j) <==> path[j] == '/'
      {
        assert path[j..j + 1] == [path[j]];
      }
    }
    if '/' in path {
      var j :| 0 <= j < |path| && path[j] == '/';
      assert OccursAt(path, "/", j);
    }
  }

  /** `humps.camelize(rootApiDetails.path.replace('/', ''))`: the property of the client that
      holds an API block's methods. */
  function GroupName(camelize: string -> string, path: string): (r: string)
    ensures '/' !in path ==> r == camelize(path)
    ensures '/' in path ==>
              IndexOf(path, "/").Some? &&
              var i := IndexOf(path, "/").value;
              r == camelize(path[..i] + path[i + 1..])
  {
    camelize(StripFirstSlash(path))
  }

  /** `nickname[0].toLowerCase() + nickname.slice(1)`: reading index 0 of an empty nickname gives
      `undefined`, and calling `toLowerCase` on it throws. */
  function LowerFirst(nickname: string): (r: Result<string, Error>)
    ensures r.Failure? <==> nickname == []
    ensures r.Failure? ==> r.error == EmptyNickname
    ensures r.Success? ==>
              |r.value| == |nickname| && r.value[1..] == nickname[1..]
              && ('A' <= nickname[0] <= 'Z' ==> 'a' <= r.value[0] <= 'z' && r.value[0] as int - nickname[0] as int == 32)
              && (!('A' <= nickname[0] <= 'Z') ==> r.value == nickname)
  {
    if nickname == [] then Failure(EmptyNickname)
    else
      var lowered := [ToLowerAscii(nickname[0])] + nickname[1..];
      assert lowered[1..] == nickname[1..];
      assert [nickname[0]] + nickname[1..] == nickname;
      Success(lowered)
  }

  /** `humps.camelize(...)` of the nickname with its first letter lowered: the method's name within
      its block. */
  function OperationName(camelize: string -> string, nickname: string): (r: Result<string, Error>)
    ensures r.Failure? <==> nickname == []
    ensures r.Failure? ==> r.error == EmptyNickname
    ensures r.Success? ==> LowerFirst(nickname).Success? && r.value == camelize(LowerFirst(nickname).value)
  {
    match LowerFirst(nickname)
    case Failure(e) => Failure(e)
    case Success(lowered) => Success(camelize(lowered))
  }

  /** Two nicknames that differ only in the case of their first letter publish the same name, so
      the later operation replaces the earlier one. */
  lemma NicknamesClashOnFirstLetter(camelize: string -> string, a: string, b: string)
    requires |a| > 0 && |a| == |b| && a[1..] == b[1..]
    requires 'A' <= a[0] <= 'Z' && b[0] as int == a[0] as int + 32
    ensures OperationName(camelize, a) == OperationName(camelize, b)
  {
    assert [ToLowerAscii(a[0])] + a[1..] == [ToLowerAscii(b[0])] + b[1..];
  }

  // ---------------------------------------------------------------------------------------------
  // Replies

  /** What a generated method's promise resolves with: the raw response, the parsed JSON body with
      its keys camelized, or `undefined`. */
  datatype Outcome<J> = Raw | Json(value: J) | Undefined

  /** The message of the error thrown on a status other than 200. */
  function ApiErrorMessage(status: nat, statusText: string): string
  {
    "API ERROR: " + NatToString(status) + " " + statusText
  }

  /** Reads back the status and status text from a message shaped like `ApiErrorMessage`'s. */
  function DecodeApiErrorMessage(m: string): Option<(nat, string)>
  {
    match StripPrefix(m, "API ERROR: ")
    case None => None
    case Some(r1) =>
      match ParseNat(r1)
      case None => None
      case Some((status, r2)) =>
        match StripPrefix(r2, " ")
        case None => None
        case Some(text) => Some((status, text))
  }

  lemma ApiErrorMessageDecodes(status: nat, statusText: string)
    ensures DecodeApiErrorMessage(ApiErrorMessage(status, statusText)) == Some((status, statusText))
  {
    var r2 := " " + statusText;
    var r1 := NatToString(status) + r2;
    assert ApiErrorMessage(status, statusText) == "API ERROR: " + r1;
    StripPrefixOfConcat("API ERROR: ", r1);
    ParseNatRoundTrip(status, r2);
    StripPrefixOfConcat(" ", statusText);
  }

  /** The `then` on the fetched reply. `contentType` is `res.headers.get('content-type')`, `None`
      for a missing header; `json` is what `res.json()` parses the body into. */
  function Settle<J>(status: nat, statusText: string, contentType: Option<string>, json: J,
                     camelizeKeys: J -> J): (r: Result<Outcome<J>, Error>)
    ensures r.Failure? <==> status != 200 || contentType.None?
    ensures status != 200 ==>
              r.Failure? && r.error.ApiError?
              && DecodeApiErrorMessage(r.error.message) == Some((status, statusText))
    ensures status == 200 && contentType.None? ==> r == Failure(NoContentType)
    ensures r.Success? ==>
              (r.value.Raw? <==> ContainsText(contentType.value, "text/html"))
              && (r.value.Json? <==> !ContainsText(contentType.value, "text/html")
                                     && ContainsText(contentType.value, "application/json"))
              && (r.value.Json? ==> r.value.value == camelizeKeys(json))
  {
    if status != 200 then
      ApiErrorMessageDecodes(status, statusText);
      Failure(ApiError(ApiErrorMessage(status, statusText)))
    else if contentType.None? then Failure(NoContentType)
    else
      var ct := contentType.value;
      IndexOfMeaning(ct, "text/html");
      IndexOfMeaning(ct, "application/json");
      if IndexOf(ct, "text/html").Some? then Success(Raw)
      else if IndexOf(ct, "application/json").Some? then Success(Json(camelizeKeys(json)))
      else Success(Undefined)
  }

  // ---------------------------------------------------------------------------------------------
  // Requests

  /** What a generated method hands to `fetch`: the URL, the HTTP method, the body object that
      `JSON.stringify` renders, and the merged headers. */
  datatype Request = Request(url: string, httpMethod: string, body: Option<Obj>, headers: Obj)

  /** A generated method, `childApi[apiName](...args)`, up to the `fetch` it makes. `pathTemplate`
      is the path of the API entry that declares the operation. */
  function BuildRequest(apiBase: string, pathTemplate: string, op: Operation, headers: Obj,
                        args: seq<Arg>): (r: Result<Request, Error>)
    ensures r.Success? ==>
              |apiBase| <= |r.value.url| && r.value.url[..|apiBase|] == apiBase
              && r.value.httpMethod == op.httpMethod && r.value.headers == headers
              && r.value.body == Classify(args, op.parameters).body
    ensures r.Failure? ==> !r.error.ApiError? && !r.error.NoContentType? && !r.error.EmptyNickname?
  {
    var c := Classify(args, op.parameters);
    var urlParams := OfType(op.parameters, "path");
    match ValidateUrlArgs(urlParams, c.path)
    case Some(e) => Failure(e)
    case None =>
      match (if c.body.Some? then ValidateBodyArgs(OfType(op.parameters, "body"), c.body.value) else None)
      case Some(e) => Failure(e)
      case None =>
        var path := Substitute(pathTemplate, Names(urlParams), c.path);
        match FormatQuery(c.query, op.notes)
        case Failure(e) => Failure(e)
        case Success(q) => Success(Request(apiBase + path + q, op.httpMethod, c.body, headers))
  }

  /** A call throws exactly when the number of path values is not the number of declared path
      parameters, or the body object names a declared body parameter, or a query object comes with
      notes that hold no query template; the path check comes first. */
  lemma BuildRequestFails(apiBase: string, pathTemplate: string, op: Operation, headers: Obj, args: seq<Arg>)
    ensures var c := Classify(args, op.parameters);
            BuildRequest(apiBase, pathTemplate, op, headers, args).Failure?
            <==> |c.path| != |OfType(op.parameters, "path")|
                 || (c.body.Some? && exists p :: p in op.parameters && p.paramType == "body" && p.name in Keys(c.body.value))
                 || (c.query.Some? && FindTemplate(op.notes).None?)
    ensures var c := Classify(args, op.parameters);
            |c.path| != |OfType(op.parameters, "path")| ==>
              BuildRequest(apiBase, pathTemplate, op, headers, args).Failure?
              && BuildRequest(apiBase, pathTemplate, op, headers, args).error.MissingPathArguments?
  {
    var c := Classify(args, op.parameters);
    if c.body.Some? {
      var b := c.body.value;
      assert (exists p :: p in OfType(op.parameters, "body") && p.name in Keys(b))
             <==> (exists p :: p in op.parameters && p.paramType == "body" && p.name in Keys(b));
    }
  }

  /** A call with scalar arguments only, on a path template `segs[0]{n0}segs[1]{n1}...` whose
      placeholders are the declared path parameters in order: the path values fill the
      placeholders in REVERSE call order, since `formatArgs` collects them from the last argument
      down. No query string is added, and there is no body. */
  lemma ScalarCall(apiBase: string, segs: seq<string>, op: Operation, headers: Obj, args: seq<Arg>)
    requires forall j :: 0 <= j < |args| ==> args[j].Scalar? && NoBrace(args[j].text)
    requires |segs| == |OfType(op.parameters, "path")| + 1 && forall j :: 0 <= j < |segs| - 1 ==> NoBrace(segs[j])
    ensures var names := Names(OfType(op.parameters, "path"));
            var r := BuildRequest(apiBase, Interleave(segs, Placeholders(names)), op, headers, args);
            if |args| == |names| then
              r == Success(Request(apiBase + Interleave(segs, Rendered(Reverse(args))), op.httpMethod, None, headers))
            else
              r == Failure(MissingPathArguments(PathCountMessage(OfType(op.parameters, "path"), |args|)))
  {
    var names := Names(OfType(op.parameters, "path"));
    ClassifyScalars(args, op.parameters);
    ReverseIndex(args);
    if |args| == |names| {
      var vals := Reverse(args);
      assert forall j :: 0 <= j < |vals| ==> NoBrace(Render(vals[j])) by {
        forall j | 0 <= j < |vals|
          ensures NoBrace(Render(vals[j]))
        {
          assert vals[j] == args[|args| - 1 - j];
        }
      }
      SubstituteFills(segs, names, vals);
      var path := Interleave(segs, Rendered(vals));
      assert apiBase + path + "" == apiBase + path;
    }
  }

  /** As written, two path values arrive swapped: on `s0{n0}s1{n1}s2` the call `(a, b)` fills `{n0}`
      with `b` and `{n1}` with `a`. */
  lemma PathValuesSwapped(apiBase: string, s0: string, s1: string, s2: string, op: Operation,
                          headers: Obj, a: string, b: string)
    requires NoBrace(s0) && NoBrace(s1) && NoBrace(a) && NoBrace(b)
    requires |OfType(op.parameters, "path")| == 2
    ensures var names := Names(OfType(op.parameters, "path"));
            BuildRequest(apiBase, s0 + Placeholder(names[0]) + s1 + Placeholder(names[1]) + s2, op, headers,
                         [Scalar(a), Scalar(b)])
            == Success(Request(apiBase + (s0 + b + s1 + a + s2), op.httpMethod, None, headers))
  {
    var names := Names(OfType(op.parameters, "path"));
    var segs := [s0, s1, s2];
    var args := [Scalar(a), Scalar(b)];
    ScalarCall(apiBase, segs, op, headers, args);
    TwoSlots(segs, Placeholders(names));
    assert Reverse(args) == [Scalar(b), Scalar(a)];
    TwoSlots(segs, Rendered(Reverse(args)));
  }

  /** `Interleave` over three segments. */
  lemma TwoSlots(segs: seq<string>, fills: seq<string>)
    requires |segs| == 3 && |fills| == 2
    ensures Interleave(segs, fills) == segs[0] + fills[0] + segs[1] + fills[1] + segs[2]
  {
    assert Interleave(segs[2..], fills[2..]) == segs[2];
    assert Interleave(segs[1..], fills[1..]) == segs[1] + fills[1] + segs[2];
  }

  /** A generated method as evidently intended: the path values fill the placeholders in call order,
      and the body check rejects a body that lacks a declared body field. */
  function BuildRequestIntended(apiBase: string, pathTemplate: string, op: Operation, headers: Obj,
                                args: seq<Arg>): Result<Request, Error>
  {
    var c := Classify(args, op.parameters);
    var urlParams := OfType(op.parameters, "path");
    var pathValues := Reverse(c.path);
    match ValidateUrlArgs(urlParams, pathValues)
    case Some(e) => Failure(e)
    case None =>
      match (if c.body.Some? then ValidateBodyArgsIntended(OfType(op.parameters, "body"), c.body.value) else None)
      case Some(e) => Failure(e)
      case None =>
        var path := Substitute(pathTemplate, Names(urlParams), pathValues);
        match FormatQuery(c.query, op.notes)
        case Failure(e) => Failure(e)
        case Success(q) => Success(Request(apiBase + path + q, op.httpMethod, c.body, headers))
  }

  /** On scalar values the intended assembly is the written one applied to the reversed call. */
  lemma IntendedReversesScalars(apiBase: string, pathTemplate: string, op: Operation, headers: Obj, args: seq<Arg>)
    requires forall j :: 0 <= j < |args| ==> args[j].Scalar?
    ensures BuildRequestIntended(apiBase, pathTemplate, op, headers, args)
            == BuildRequest(apiBase, pathTemplate, op, headers, Reverse(args))
  {
    ClassifyScalars(args, op.parameters);
    ReverseIndex(args);
    ClassifyScalars(Reverse(args), op.parameters);
    ReverseReverse(args);
  }

  /** As intended, scalar path values fill the placeholders in call order. */
  lemma ScalarCallIntended(apiBase: string, segs: seq<string>, op: Operation, headers: Obj, args: seq<Arg>)
    requires forall j :: 0 <= j < |args| ==> args[j].Scalar? && NoBrace(args[j].text)
    requires |segs| == |OfType(op.parameters, "path")| + 1 && forall j :: 0 <= j < |segs| - 1 ==> NoBrace(segs[j])
    ensures var names := Names(OfType(op.parameters, "path"));
            var r := BuildRequestIntended(apiBase, Interleave(segs, Placeholders(names)), op, headers, args);
            if |args| == |names| then
              r == Success(Request(apiBase + Interleave(segs, Rendered(args)), op.httpMethod, None, headers))
            else
              r == Failure(MissingPathArguments(PathCountMessage(OfType(op.parameters, "path"), |args|)))
  {
    var names := Names(OfType(op.parameters, "path"));
    var t := Interleave(segs, Placeholders(names));
    IntendedReversesScalars(apiBase, t, op, headers, args);
    ReverseIndex(args);
    ScalarCall(apiBase, segs, op, headers, Reverse(args));
    ReverseReverse(args);
  }

  /** As intended, a call throws exactly when the number of path values is not the number of
      declared path parameters, or the body object lacks a declared body field, or a query object
      comes with notes that hold no query template. */
  lemma BuildRequestIntendedFails(apiBase: string, pathTemplate: string, op: Operation, headers: Obj, args: seq<Arg>)
    ensures var c := Classify(args, op.parameters);
            BuildRequestIntended(apiBase, pathTemplate, op, headers, args).Failure?
            <==> |c.path| != |OfType(op.parameters, "path")|
                 || (c.body.Some? && exists p :: p in op.parameters && p.paramType == "body" && p.name !in Keys(c.body.value))
                 || (c.query.Some? && FindTemplate(op.notes).None?)
  {
    var c := Classify(args, op.parameters);
    if c.body.Some? {
      var b := c.body.value;
      assert (exists p :: p in OfType(op.parameters, "body") && p.name !in Keys(b))
             <==> (exists p :: p in op.parameters && p.paramType == "body" && p.name !in Keys(b));
    }
  }
}
