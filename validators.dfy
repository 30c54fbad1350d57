/** The guards a generated method runs before templating: `validateUrlArgs`, `validateBodyArgs`
    and `checkForMissingBodyArgs`. Their type-checking loops have no effect and are not modelled. */
module Validators {
  import opened Wrappers
  import opened Text
  import opened JsValues

  /** The message `validateUrlArgs` throws (its spelling "recieved" included). */
  function PathCountMessage(required: seq<Param>, received: nat): string
  {
    NatToString(|required|) + " required, only recieved " + NatToString(received)
    + ". [ " + Join(Names(required), ",") + " ]"
  }

  /** Reads back the declared count, the received count and the joined names from a message
      shaped like `validateUrlArgs`'s. */
  function DecodePathCountMessage(m: string): Option<(nat, nat, string)>
  {
    match ParseNat(m)
    case None => None
    case Some((declared, r1)) =>
      match StripPrefix(r1, " required, only recieved ")
      case None => None
      case Some(r2) =>
        match ParseNat(r2)
        case None => None
        case Some((received, r3)) =>
          match StripPrefix(r3, ". [ ")
          case None => None
          case Some(r4) =>
            match StripSuffix(r4, " ]")
            case None => None
            case Some(names) => Some((declared, received, names))
  }

  /** The message carries both counts and the declared names, and they can be read back from it. */
  lemma PathCountMessageDecodes(required: seq<Param>, received: nat)
    ensures DecodePathCountMessage(PathCountMessage(required, received))
            == Some((|required|, received, Join(Names(required), ",")))
  {
    var a := NatToString(|required|);
    var b := NatToString(received);
    var names := Join(Names(required), ",");
    var r4 := names + " ]";
    var r3 := ". [ " + r4;
    var r2 := b + r3;
    var r1 := " required, only recieved " + r2;
    assert PathCountMessage(required, received) == a + r1;
    ParseNatRoundTrip(|required|, r1);
    StripPrefixOfConcat(" required, only recieved ", r2);
    ParseNatRoundTrip(received, r3);
    StripPrefixOfConcat(". [ ", r4);
    StripSuffixOfConcat(names, " ]");
  }

  /** `validateUrlArgs(requiredArgs, args)`: `None` when it returns normally. It throws exactly when
      the number of path values differs from the number of declared path parameters, with a message
      from which both counts and the declared names read back. */
  function ValidateUrlArgs(required: seq<Param>, args: seq<Arg>): (r: Option<Error>)
    ensures r.Some? <==> |args| != |required|
    ensures r.Some? ==> r.value.MissingPathArguments?
                        && DecodePathCountMessage(r.value.message)
                           == Some((|required|, |args|, Join(Names(required), ",")))
  {
    if |args| != |required| then
      PathCountMessageDecodes(required, |args|);
      Some(MissingPathArguments(PathCountMessage(required, |args|)))
    else None
  }

  /** `checkForMissingBodyArgs(requiredArgs, body)` as written: it keeps the declared body parameters
      whose name IS a key of the body (`indexOf(arg.name) > -1`), in declaration order. */
  function CheckForMissingBodyArgs(required: seq<Param>, body: Obj): (r: seq<Param>)
    ensures |r| <= |required|
    ensures forall p :: p in r <==> p in required && p.name in Keys(body)
    decreases |required|
  {
    if required == [] then []
    else
      var rest := CheckForMissingBodyArgs(required[1..], body);
      assert forall p :: p in required <==> p == required[0] || p in required[1..];
      if required[0].name in Keys(body) then [required[0]] + rest else rest
  }

  /** The filter keeps declaration order and repeats. */
  lemma {:induction false} CheckForMissingBodyArgsAppend(a: seq<Param>, b: seq<Param>, body: Obj)
    ensures CheckForMissingBodyArgs(a + b, body) == CheckForMissingBodyArgs(a, body) + CheckForMissingBodyArgs(b, body)
    decreases |a|
  {
    if a != [] {
      assert (a + b)[1..] == a[1..] + b;
      CheckForMissingBodyArgsAppend(a[1..], b, body);
    } else {
      assert a + b == b;
    }
  }

  /** `n` copies of `s`. */
  function Repeat(s: string, n: nat): seq<string>
  {
    if n == 0 then [] else [s] + Repeat(s, n - 1)
  }

  /** `missingBodyArgs.join(',')`: the list holds parameter objects, and each one renders as
      "[object Object]". */
  function BodyArgsMessage(missing: seq<Param>): string
  {
    "Missing body args [ " + Join(Repeat("[object Object]", |missing|), ",") + " ]"
  }

  /** `validateBodyArgs(requiredArgs, body)`: `None` when it returns normally. It throws exactly when
      some declared body parameter is named by a key of the body. */
  function ValidateBodyArgs(required: seq<Param>, body: Obj): (r: Option<Error>)
    ensures r.Some? <==> exists p :: p in required && p.name in Keys(body)
    ensures r.Some? ==> r.value.MissingBodyArgs?
  {
    var missing := CheckForMissingBodyArgs(required, body);
    if |missing| > 0 then
      assert missing[0] in missing;
      Some(MissingBodyArgs(BodyArgsMessage(missing)))
    else None
  }

  /** The body error names no parameter: two failures with the same number of offending parameters
      carry the same message. */
  lemma BodyArgsMessageNamesNothing(required: seq<Param>, body: Obj, required': seq<Param>, body': Obj)
    requires ValidateBodyArgs(required, body).Some? && ValidateBodyArgs(required', body').Some?
    requires |CheckForMissingBodyArgs(required, body)| == |CheckForMissingBodyArgs(required', body')|
    ensures ValidateBodyArgs(required, body) == ValidateBodyArgs(required', body')
  {
    assert ValidateBodyArgs(required, body)
           == Some(MissingBodyArgs(BodyArgsMessage(CheckForMissingBodyArgs(required, body))));
    assert ValidateBodyArgs(required', body')
           == Some(MissingBodyArgs(BodyArgsMessage(CheckForMissingBodyArgs(required', body'))));
    assert BodyArgsMessage(CheckForMissingBodyArgs(required, body))
           == BodyArgsMessage(CheckForMissingBodyArgs(required', body'));
  }

  /** An empty body passes the check. */
  lemma EmptyBodyPasses(required: seq<Param>)
    ensures ValidateBodyArgs(required, Obj([])) == None
  {
    assert Keys(Obj([])) == [];
  }

  /** A body that supplies a declared body field is rejected. */
  lemma SuppliedBodyFieldRejected()
    ensures ValidateBodyArgs([Param("name", "body")], Obj([("name", "x")]))
            == Some(MissingBodyArgs("Missing body args [ [object Object] ]"))
  {
    var body := Obj([("name", "x")]);
    assert Keys(body) == ["name"];
    assert CheckForMissingBodyArgs([Param("name", "body")], body) == [Param("name", "body")];
    assert Repeat("[object Object]", 1) == ["[object Object]"];
    assert Join(["[object Object]"], ",") == "[object Object]";
    assert BodyArgsMessage([Param("name", "body")]) == "Missing body args [ [object Object] ]";
  }

  /** As written, the check is inverted: with one declared body field `name`, an empty body passes
      and a body that supplies `name` is rejected. */
  lemma BodyCheckInverted(v: string)
    ensures ValidateBodyArgs([Param("name", "body")], Obj([])) == None
    ensures ValidateBodyArgs([Param("name", "body")], Obj([("name", v)])).Some?
  {
    EmptyBodyPasses([Param("name", "body")]);
    assert Keys(Obj([("name", v)])) == ["name"];
  }

  /** The check evidently intended: the declared body parameters whose name is NOT a key of the
      body, in declaration order. */
  function MissingBodyParams(required: seq<Param>, body: Obj): (r: seq<Param>)
    ensures |r| <= |required|
    ensures forall p :: p in r <==> p in required && p.name !in Keys(body)
    decreases |required|
  {
    if required == [] then []
    else
      var rest := MissingBodyParams(required[1..], body);
      assert forall p :: p in required <==> p == required[0] || p in required[1..];
      if required[0].name !in Keys(body) then [required[0]] + rest else rest
  }

  /** The intended filter keeps declaration order and repeats. */
  lemma {:induction false} MissingBodyParamsAppend(a: seq<Param>, b: seq<Param>, body: Obj)
    ensures MissingBodyParams(a + b, body) == MissingBodyParams(a, body) + MissingBodyParams(b, body)
    decreases |a|
  {
    if a != [] {
      assert (a + b)[1..] == a[1..] + b;
      MissingBodyParamsAppend(a[1..], b, body);
    } else {
      assert a + b == b;
    }
  }

  /** `validateBodyArgs` with the intended filter: it throws exactly when some declared body
      parameter is missing from the body. */
  function ValidateBodyArgsIntended(required: seq<Param>, body: Obj): (r: Option<Error>)
    ensures r.Some? <==> exists p :: p in required && p.name !in Keys(body)
    ensures r.Some? ==> r.value.MissingBodyArgs?
  {
    var missing := MissingBodyParams(required, body);
    if |missing| > 0 then
      assert missing[0] in missing;
      Some(MissingBodyArgs(BodyArgsMessage(missing)))
    else None
  }

  /** With the intended filter, an empty body is rejected whenever a body field is declared, and a
      body that supplies every declared field passes. */
  lemma IntendedBodyCheck(required: seq<Param>, body: Obj)
    ensures required != [] ==> ValidateBodyArgsIntended(required, Obj([])).Some?
    ensures (forall p :: p in required ==> p.name in Keys(body)) ==> ValidateBodyArgsIntended(required, body) == None
  {
    if required != [] {
      assert required[0] in required && Keys(Obj([])) == [];
    }
  }
}
