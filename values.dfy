/** The JavaScript values a generated client method receives, and the discovered operation metadata. */
module JsValues {

  /** A plain, non-null JavaScript object: its own properties in `Object.keys` order, each value
      as `String(value)` renders it. As in JavaScript, the keys of one object are distinct. */
  datatype Obj = Obj(entries: seq<(string, string)>)

  /** `Object.keys(o)`. */
  function Keys(o: Obj): seq<string>
  {
    seq(|o.entries|, i requires 0 <= i < |o.entries| => o.entries[i].0)
  }

  /** One call-time argument: either `typeof arg === 'object'` or a scalar, kept as `String(arg)`. */
  datatype Arg = Scalar(text: string) | Object(obj: Obj)

  /** `String(arg)`, as `String.prototype.replace` renders a replacement value. */
  function Render(a: Arg): string
  {
    match a
    case Scalar(t) => t
    case Object(_) => "[object Object]"
  }

  /** A declared operation parameter: `{ name, paramType }`. */
  datatype Param = Param(name: string, paramType: string)

  /** A discovered operation; its path template belongs to the enclosing API block. */
  datatype Operation = Operation(nickname: string, httpMethod: string, summary: string,
                                 notes: string, parameters: seq<Param>)

  /** `params.filter((param) => param.paramType === t)`. */
  function OfType(params: seq<Param>, t: string): (r: seq<Param>)
    ensures |r| <= |params|
    ensures forall p :: p in r <==> p in params && p.paramType == t
    decreases |params|
  {
    if params == [] then []
    else if params[0].paramType == t then [params[0]] + OfType(params[1..], t)
    else OfType(params[1..], t)
  }

  /** The filter keeps declaration order and repeats: filtering a concatenation concatenates the
      filtered parts. */
  lemma {:induction false} OfTypeAppend(a: seq<Param>, b: seq<Param>, t: string)
    ensures OfType(a + b, t) == OfType(a, t) + OfType(b, t)
    decreases |a|
  {
    if a != [] {
      assert (a + b)[1..] == a[1..] + b;
      OfTypeAppend(a[1..], b, t);
    } else {
      assert a + b == b;
    }
  }

  /** `params.map((param) => param.name)`. */
  function Names(params: seq<Param>): (ns: seq<string>)
    ensures |ns| == |params| && forall i :: 0 <= i < |params| ==> ns[i] == params[i].name
  {
    seq(|params|, i requires 0 <= i < |params| => params[i].name)
  }

  /** What a generated method throws before any request is sent, and what a reply rejects with. */
  datatype Error =
    | MissingPathArguments(message: string)  // `validateUrlArgs`
    | MissingBodyArgs(message: string)       // `validateBodyArgs`
    | NoQueryTemplate                        // `formatQuery`: indexing the `null` that `match` returned
    | EmptyNickname                          // `nickname[0].toLowerCase()` on an empty nickname
    | ApiError(message: string)              // a reply whose status is not 200
    | NoContentType                          // `contentType.indexOf` on the `null` of a missing header
}
