/** The argument classifier of a generated client method: `determineArgTypes` scores an object
    argument against the declared parameters, and `formatArgs` scans the call's arguments from the
    last to the first, filling the `query` and `body` slots and collecting the rest as path values. */
module Classifier {
  import opened Wrappers
  import opened JsValues

  /** How many parameters of type `t` have a name that is a key of the object: the count
      `determineArgTypes` accumulates for `t` as `forEach` visits `params`. */
  function Score(keys: seq<string>, params: seq<Param>, t: string): nat
    decreases |params|
  {
    if params == [] then 0
    else
      var p := params[|params| - 1];
      Score(keys, params[..|params| - 1], t) + (if p.paramType == t && p.name in keys then 1 else 0)
  }

  /** The positions of the parameters of type `t` whose name is a key of the object. */
  ghost function Matching(keys: seq<string>, params: seq<Param>, t: string): set<int>
  {
    set i | 0 <= i < |params| && params[i].paramType == t && params[i].name in keys
  }

  /** The score of a type is the number of its parameters named by the object's keys. */
  lemma {:induction false} ScoreCountsMatches(keys: seq<string>, params: seq<Param>, t: string)
    ensures Score(keys, params, t) == |Matching(keys, params, t)|
    decreases |params|
  {
    if params != [] {
      var n := |params| - 1;
      var prefix := params[..n];
      ScoreCountsMatches(keys, prefix, t);
      var before := Matching(keys, prefix, t);
      if params[n].paramType == t && params[n].name in keys {
        assert Matching(keys, params, t) == before + {n};
      } else {
        assert Matching(keys, params, t) == before;
      }
    }
  }

  /** The parameter types in order of first appearance: the key order of the `counts` object. */
  function Types(params: seq<Param>): (ts: seq<string>)
    ensures ts == [] <==> params == []
    ensures forall i, j :: 0 <= i < j < |ts| ==> ts[i] != ts[j]
    decreases |params|
  {
    if params == [] then []
    else
      var ts := Types(params[..|params| - 1]);
      var t := params[|params| - 1].paramType;
      if t in ts then ts else ts + [t]
  }

  /** Exactly the declared types appear in `Types`. */
  lemma {:induction false} TypesAreDeclared(params: seq<Param>, t: string)
    ensures t in Types(params) <==> exists i :: 0 <= i < |params| && params[i].paramType == t
    decreases |params|
  {
    if params != [] {
      var n := |params| - 1;
      TypesAreDeclared(params[..n], t);
      DeclaredStep(params, t);
    }
  }

  /** A type is declared by `params` when the last parameter or one before it declares it. */
  lemma DeclaredStep(params: seq<Param>, t: string)
    requires params != []
    ensures var n := |params| - 1;
            (exists i :: 0 <= i < |params| && params[i].paramType == t)
            <==> (exists i :: 0 <= i < n && params[..n][i].paramType == t) || params[n].paramType == t
  {
    var n := |params| - 1;
    if exists i :: 0 <= i < n && params[..n][i].paramType == t {
      var i :| 0 <= i < n && params[..n][i].paramType == t;
      assert params[i].paramType == t;
    }
    if exists i :: 0 <= i < |params| && params[i].paramType == t {
      var i :| 0 <= i < |params| && params[i].paramType == t;
      if i < n {
        assert params[..n][i].paramType == t;
      }
    }
  }

  /** One more parameter visited by `forEach`: its type joins the key order if it is new. */
  lemma TypesStep(params: seq<Param>, i: nat)
    requires i < |params|
    ensures Types(params[..i + 1]) ==
              if params[i].paramType in Types(params[..i]) then Types(params[..i])
              else Types(params[..i]) + [params[i].paramType]
  {
    assert params[..i + 1][..i] == params[..i];
  }

  /** A type never declared so far scores zero. */
  lemma {:induction false} ScoreOfUndeclared(keys: seq<string>, params: seq<Param>, t: string)
    requires t !in Types(params)
    ensures Score(keys, params, t) == 0
    decreases |params|
  {
    if params != [] {
      var n := |params| - 1;
      TypesStep(params, n);
      assert params[..n + 1] == params;
      ScoreOfUndeclared(keys, params[..n], t);
    }
  }

  /** The `counts` object `determineArgTypes` builds, one `forEach` step per parameter:
      `counts[type] = (counts[type] || 0) + hit`. */
  function Counts(keys: seq<string>, params: seq<Param>): map<string, nat>
    decreases |params|
  {
    if params == [] then map[]
    else
      var before := Counts(keys, params[..|params| - 1]);
      var p := params[|params| - 1];
      var prev := if p.paramType in before then before[p.paramType] else 0;
      before[p.paramType := prev + (if p.name in keys then 1 else 0)]
  }

  /** `counts` has one entry per declared type, holding that type's score. */
  lemma {:induction false} CountsAreScores(keys: seq<string>, params: seq<Param>)
    ensures forall t :: t in Counts(keys, params) <==> t in Types(params)
    ensures forall t :: t in Counts(keys, params) ==> Counts(keys, params)[t] == Score(keys, params, t)
    decreases |params|
  {
    if params != [] {
      var n := |params| - 1;
      CountsAreScores(keys, params[..n]);
      forall t | t !in Types(params[..n])
        ensures Score(keys, params[..n], t) == 0
      {
        ScoreOfUndeclared(keys, params[..n], t);
      }
    }
  }

  /** `order.reduce((maxKey, type) => Math.max(counts[maxKey], counts[type]) === counts[type]
      ? type : maxKey, init)`: a type replaces the running choice when its count is at least as high. */
  function PickMax(counts: map<string, nat>, order: seq<string>, init: string): (r: string)
    requires init in counts && forall t :: t in order ==> t in counts
    ensures r == init || r in order
    decreases |order|
  {
    if order == [] then init
    else
      var acc := PickMax(counts, order[..|order| - 1], init);
      var t := order[|order| - 1];
      if counts[t] >= counts[acc] then t else acc
  }

  /** Seeded with its first element, the reduce picks the LAST type of maximal count: the one at
      position `k`. */
  lemma {:induction false} PickMaxIsLastMaximum(counts: map<string, nat>, order: seq<string>) returns (k: nat)
    requires |order| > 0 && forall t :: t in order ==> t in counts
    ensures k < |order| && order[k] == PickMax(counts, order, order[0])
    ensures forall j :: 0 <= j < |order| ==> counts[order[j]] <= counts[order[k]]
    ensures forall j :: k < j < |order| ==> counts[order[j]] < counts[order[k]]
    decreases |order|
  {
    var n := |order| - 1;
    if n == 0 {
      assert order[..0] == [];
      k := 0;
    } else {
      var prefix := order[..n];
      assert prefix[0] == order[0];
      var k0 := PickMaxIsLastMaximum(counts, prefix);
      k := PickMaxStep(counts, order, k0);
    }
  }

  /** One more type in the key order: it is the pick when its count reaches the pick so far. */
  lemma PickMaxStep(counts: map<string, nat>, order: seq<string>, k0: nat) returns (k: nat)
    requires |order| > 1 && forall t :: t in order ==> t in counts
    requires var prefix := order[..|order| - 1];
             k0 < |prefix| && prefix[k0] == PickMax(counts, prefix, order[0])
             && (forall j :: 0 <= j < |prefix| ==> counts[prefix[j]] <= counts[prefix[k0]])
             && (forall j :: k0 < j < |prefix| ==> counts[prefix[j]] < counts[prefix[k0]])
    ensures k < |order| && order[k] == PickMax(counts, order, order[0])
    ensures forall j :: 0 <= j < |order| ==> counts[order[j]] <= counts[order[k]]
    ensures forall j :: k < j < |order| ==> counts[order[j]] < counts[order[k]]
  {
    var n := |order| - 1;
    var prefix := order[..n];
    var acc := PickMax(counts, prefix, order[0]);
    assert forall j :: 0 <= j < n ==> order[j] == prefix[j];
    if counts[order[n]] >= counts[acc] {
      k := n;
    } else {
      k := k0;
    }
  }

  /** `determineArgTypes(obj, params)` for an object with the given keys; `None` is `undefined`,
      what the reduce of an empty key list returns. */
  function ArgType(keys: seq<string>, params: seq<Param>): (r: Option<string>)
    ensures r.None? <==> params == []
  {
    var order := Types(params);
    if order == [] then None
    else
      CountsAreScores(keys, params);
      Some(PickMax(Counts(keys, params), order, order[0]))
  }

  /** The chosen type is the declared type at position `k` of the key order: its score is maximal,
      and every type first declared after it scores strictly less, so ties go to the last tied type. */
  lemma ArgTypeIsLastMaximum(keys: seq<string>, params: seq<Param>) returns (k: nat)
    requires params != []
    ensures k < |Types(params)| && ArgType(keys, params) == Some(Types(params)[k])
    ensures forall t :: t in Types(params) ==> Score(keys, params, t) <= Score(keys, params, Types(params)[k])
    ensures forall j :: k < j < |Types(params)| ==>
              Score(keys, params, Types(params)[j]) < Score(keys, params, Types(params)[k])
  {
    var order := Types(params);
    var counts := Counts(keys, params);
    CountsAreScores(keys, params);
    k := PickMaxIsLastMaximum(counts, order);
    forall t | t in order
      ensures Score(keys, params, t) <= Score(keys, params, order[k])
    {
      var j :| 0 <= j < |order| && order[j] == t;
      assert counts[order[j]] <= counts[order[k]];
    }
    forall j | k < j < |order|
      ensures Score(keys, params, order[j]) < Score(keys, params, order[k])
    {
      assert counts[order[j]] < counts[order[k]];
    }
  }

  /** A type that outscores every other declared type is the one chosen. */
  lemma ArgTypeStrictWinner(keys: seq<string>, params: seq<Param>, w: string)
    requires w in Types(params)
    requires forall t :: t in Types(params) && t != w ==> Score(keys, params, t) < Score(keys, params, w)
    ensures ArgType(keys, params) == Some(w)
  {
    var k := ArgTypeIsLastMaximum(keys, params);
  }

  /** An object whose keys all name query parameters, none of them shared with a parameter of
      another type, is classified as the query object. */
  lemma ArgTypeOfQueryObject(keys: seq<string>, params: seq<Param>)
    requires keys != []
    requires forall k :: k in keys ==> Param(k, "query") in params
    requires forall p :: p in params && p.paramType != "query" ==> p.name !in keys
    ensures ArgType(keys, params) == Some("query")
  {
    assert Param(keys[0], "query") in params;
    var i :| 0 <= i < |params| && params[i] == Param(keys[0], "query");
    TypesAreDeclared(params, "query");
    ScoreCountsMatches(keys, params, "query");
    assert i in Matching(keys, params, "query");
    forall t | t in Types(params) && t != "query"
      ensures Score(keys, params, t) < Score(keys, params, "query")
    {
      ScoreCountsMatches(keys, params, t);
      assert Matching(keys, params, t) == {};
    }
    ArgTypeStrictWinner(keys, params, "query");
  }

  /** `determineArgTypes` as written: the `forEach` loop fills `counts`, whose keys keep their
      insertion order (`order`), then the reduce picks the type. */
  method DetermineArgType(keys: seq<string>, params: seq<Param>) returns (t: Option<string>)
    ensures t == ArgType(keys, params)
  {
    var counts: map<string, nat> := map[];
    var order: seq<string> := [];
    var i := 0;
    while i < |params|
      invariant 0 <= i <= |params|
      invariant order == Types(params[..i])
      invariant counts == Counts(keys, params[..i])
    {
      var p := params[i];
      assert params[..i + 1][..i] == params[..i];
      counts := counts[p.paramType := (if p.paramType in counts then counts[p.paramType] else 0)
                                      + (if p.name in keys then 1 else 0)];
      if p.paramType !in order {
        order := order + [p.paramType];
      }
      i := i + 1;
    }
    assert params[..i] == params;
    CountsAreScores(keys, params);
    if order == [] {
      t := None;
    } else {
      t := Some(PickMax(counts, order, order[0]));
    }
  }

  /** The property of `returnValues` an object of the given type is stored under:
      `returnValues[undefined]` is the property named "undefined". */
  function SlotKey(t: Option<string>): string
  {
    match t
    case None => "undefined"
    case Some(name) => name
  }

  /** The slot an object argument is headed for. */
  function KeyOf(params: seq<Param>, o: Obj): string
  {
    SlotKey(ArgType(Keys(o), params))
  }

  /** `returnValues`: the `path` array and every other property `formatArgs` has set. */
  datatype Slots = Slots(path: seq<Arg>, named: map<string, Obj>)

  /** The triple `[path, query, body]` that `formatArgs` returns. */
  datatype Classified = Classified(path: seq<Arg>, query: Option<Obj>, body: Option<Obj>)

  /** One iteration of the `formatArgs` loop. `returnValues.path` is an array and so always truthy:
      an object classified `path` is pushed onto it like a scalar. */
  function Step(params: seq<Param>, st: Slots, a: Arg): Slots
  {
    match a
    case Object(o) =>
      var k := KeyOf(params, o);
      if k != "path" && k !in st.named then st.(named := st.named[k := o])
      else st.(path := st.path + [a])
    case Scalar(_) => st.(path := st.path + [a])
  }

  /** `returnValues` once the loop has visited `args[i..]`, the last argument first. */
  function ScanFrom(args: seq<Arg>, params: seq<Param>, i: nat): Slots
    requires i <= |args|
    decreases |args| - i
  {
    if i == |args| then Slots([], map[])
    else Step(params, ScanFrom(args, params, i + 1), args[i])
  }

  /** Each visited argument lands in at most one place, `path` is never a slot, and every slot holds
      one of the visited objects. */
  lemma {:induction false} ScanBounds(args: seq<Arg>, params: seq<Param>, i: nat)
    requires i <= |args|
    ensures var st := ScanFrom(args, params, i);
              |st.path| + |st.named| <= |args| - i
              && "path" !in st.named
              && forall k :: k in st.named ==> Object(st.named[k]) in args[i..]
    decreases |args| - i
  {
    if i < |args| {
      ScanBounds(args, params, i + 1);
      var before := ScanFrom(args, params, i + 1);
      var st := ScanFrom(args, params, i);
      assert st == Step(params, before, args[i]);
      assert args[i..] == [args[i]] + args[i + 1..];
      if args[i].Object? && KeyOf(params, args[i].obj) != "path" && KeyOf(params, args[i].obj) !in before.named {
        var k := KeyOf(params, args[i].obj);
        assert st.path == before.path && st.named == before.named[k := args[i].obj];
        assert |st.named| == |before.named| + 1;
        forall k' | k' in st.named
          ensures Object(st.named[k']) in args[i..]
        {
          if k' != k { assert Object(before.named[k']) in args[i + 1..]; }
        }
      } else {
        assert st.named == before.named && st.path == before.path + [args[i]];
      }
    }
  }

  /** `returnValues[k]` for a property that holds an object or is absent. */
  function Lookup(m: map<string, Obj>, k: string): Option<Obj>
  {
    if k in m then Some(m[k]) else None
  }

  /** The query and body slots take one property each of `returnValues`. */
  lemma SlotCount(m: map<string, Obj>)
    ensures (if "query" in m then 1 else 0) + (if "body" in m then 1 else 0) <= |m|
  {
    if "query" in m && "body" in m {
      var s := m.Keys;
      var r := s - {"query"};
      assert "body" in r;
      assert s == r + {"query"};
    } else if "query" in m || "body" in m {
      assert m.Keys != {};
    }
  }

  /** `formatArgs(args, method, params)`: every argument lands in at most one place, and a query
      or body object is one of the arguments. */
  function Classify(args: seq<Arg>, params: seq<Param>): (c: Classified)
    ensures |c.path| + (if c.query.Some? then 1 else 0) + (if c.body.Some? then 1 else 0) <= |args|
    ensures c.query.Some? ==> Object(c.query.value) in args
    ensures c.body.Some? ==> Object(c.body.value) in args
  {
    var st := ScanFrom(args, params, 0);
    assert args[0..] == args;
    ScanBounds(args, params, 0);
    SlotCount(st.named);
    Classified(st.path, Lookup(st.named, "query"), Lookup(st.named, "body"))
  }

  /** The argument is an object headed for slot `k`. */
  predicate HeadsFor(params: seq<Param>, a: Arg, k: string)
  {
    a.Object? && KeyOf(params, a.obj) == k
  }

  /** Argument `i` fills its slot: it is an object headed for a slot other than `path`, and no
      argument to its right is headed for the same slot. */
  ghost predicate Fills(args: seq<Arg>, params: seq<Param>, i: int)
    requires 0 <= i < |args|
  {
    && args[i].Object?
    && KeyOf(params, args[i].obj) != "path"
    && forall j :: i < j < |args| ==> !HeadsFor(params, args[j], KeyOf(params, args[i].obj))
  }

  /** The arguments from position `i` on that fill no slot, in call order. */
  ghost function Unslotted(args: seq<Arg>, params: seq<Param>, i: nat): seq<Arg>
    requires i <= |args|
    decreases |args| - i
  {
    if i == |args| then []
    else (if Fills(args, params, i) then [] else [args[i]]) + Unslotted(args, params, i + 1)
  }

  /** `s` back to front. */
  function Reverse<T>(s: seq<T>): (r: seq<T>)
    ensures |r| == |s|
  {
    if s == [] then [] else Reverse(s[1..]) + [s[0]]
  }

  /** Position `i` of the reversal holds position `|s| - 1 - i` of the original. */
  lemma {:induction false} ReverseIndex<T>(s: seq<T>)
    ensures forall i :: 0 <= i < |s| ==> Reverse(s)[i] == s[|s| - 1 - i]
  {
    if s != [] {
      ReverseIndex(s[1..]);
    }
  }

  /** Reversing twice gives the sequence back. */
  lemma {:induction false} ReverseReverse<T>(s: seq<T>)
    ensures Reverse(Reverse(s)) == s
  {
    ReverseIndex(s);
    ReverseIndex(Reverse(s));
  }

  /** Some argument from position `i` on is an object headed for slot `k`. */
  ghost predicate SomeHeadsFor(args: seq<Arg>, params: seq<Param>, i: nat, k: string)
  {
    exists j :: i <= j < |args| && HeadsFor(params, args[j], k)
  }

  /** After visiting `args[i..]`, a slot other than `path` is set exactly when some visited argument
      is headed for it. */
  lemma {:induction false} ScanSlotsSet(args: seq<Arg>, params: seq<Param>, i: nat)
    requires i <= |args|
    ensures forall k :: k in ScanFrom(args, params, i).named <==>
              k != "path" && SomeHeadsFor(args, params, i, k)
    decreases |args| - i
  {
    if i < |args| {
      ScanSlotsSet(args, params, i + 1);
      forall k
        ensures SomeHeadsFor(args, params, i, k) <==>
                  HeadsFor(params, args[i], k) || SomeHeadsFor(args, params, i + 1, k)
      {
        if SomeHeadsFor(args, params, i, k) {
          var j :| i <= j < |args| && HeadsFor(params, args[j], k);
          if j > i {
            assert SomeHeadsFor(args, params, i + 1, k);
          }
        }
        if HeadsFor(params, args[i], k) {
          assert SomeHeadsFor(args, params, i, k);
        }
      }
    }
  }

  /** After visiting `args[i..]`, every argument that fills its slot is the one stored there. */
  lemma {:induction false} ScanSlotsHold(args: seq<Arg>, params: seq<Param>, i: nat)
    requires i <= |args|
    ensures forall j :: i <= j < |args| && Fills(args, params, j) ==>
              KeyOf(params, args[j].obj) in ScanFrom(args, params, i).named
              && ScanFrom(args, params, i).named[KeyOf(params, args[j].obj)] == args[j].obj
    decreases |args| - i
  {
    if i < |args| {
      ScanSlotsHold(args, params, i + 1);
      ScanSlotsSet(args, params, i + 1);
      var before := ScanFrom(args, params, i + 1);
      if Fills(args, params, i) {
        var k := KeyOf(params, args[i].obj);
        assert !SomeHeadsFor(args, params, i + 1, k);
        forall j | i < j < |args| && Fills(args, params, j)
          ensures KeyOf(params, args[j].obj) != k
        {
          assert !HeadsFor(params, args[j], k);
        }
      }
    }
  }

  /** After visiting `args[i..]`, the path list holds, in reverse call order, the visited arguments
      that fill no slot. */
  lemma {:induction false} ScanPath(args: seq<Arg>, params: seq<Param>, i: nat)
    requires i <= |args|
    ensures ScanFrom(args, params, i).path == Reverse(Unslotted(args, params, i))
    decreases |args| - i
  {
    if i < |args| {
      ScanPath(args, params, i + 1);
      ScanSlotsSet(args, params, i + 1);
      var before := ScanFrom(args, params, i + 1);
      var a := args[i];
      var u := Unslotted(args, params, i + 1);
      if a.Object? && KeyOf(params, a.obj) != "path" && KeyOf(params, a.obj) !in before.named {
        assert !SomeHeadsFor(args, params, i + 1, KeyOf(params, a.obj));
        assert Fills(args, params, i);
        assert Unslotted(args, params, i) == [] + u == u;
      } else {
        if a.Object? && KeyOf(params, a.obj) != "path" {
          var j :| i + 1 <= j < |args| && HeadsFor(params, args[j], KeyOf(params, a.obj));
        }
        assert !Fills(args, params, i);
        assert ([a] + u)[1..] == u;
      }
    }
  }

  /** The path list `formatArgs` returns: exactly the arguments that fill no slot, in reverse call
      order. */
  lemma ClassifyPath(args: seq<Arg>, params: seq<Param>)
    ensures Classify(args, params).path == Reverse(Unslotted(args, params, 0))
  {
    ScanPath(args, params, 0);
  }

  /** The query and body slots: set exactly when some object argument is classified `query`
      (resp. `body`), and then to the rightmost such argument. */
  lemma ClassifySlots(args: seq<Arg>, params: seq<Param>)
    ensures Classify(args, params).query.Some? <==> exists j :: 0 <= j < |args| && HeadsFor(params, args[j], "query")
    ensures Classify(args, params).body.Some? <==> exists j :: 0 <= j < |args| && HeadsFor(params, args[j], "body")
    ensures forall j :: 0 <= j < |args| && Fills(args, params, j) && KeyOf(params, args[j].obj) == "query" ==>
              Classify(args, params).query == Some(args[j].obj)
    ensures forall j :: 0 <= j < |args| && Fills(args, params, j) && KeyOf(params, args[j].obj) == "body" ==>
              Classify(args, params).body == Some(args[j].obj)
  {
    ScanSlotsSet(args, params, 0);
    ScanSlotsHold(args, params, 0);
  }

  /** With scalar arguments only, every argument is a path value, in reverse call order. */
  lemma {:induction false} UnslottedScalars(args: seq<Arg>, params: seq<Param>, i: nat)
    requires i <= |args|
    requires forall j :: 0 <= j < |args| ==> args[j].Scalar?
    ensures Unslotted(args, params, i) == args[i..]
    decreases |args| - i
  {
    if i < |args| {
      UnslottedScalars(args, params, i + 1);
      assert args[i..] == [args[i]] + args[i + 1..];
    }
  }

  lemma ClassifyScalars(args: seq<Arg>, params: seq<Param>)
    requires forall j :: 0 <= j < |args| ==> args[j].Scalar?
    ensures Classify(args, params) == Classified(Reverse(args), None, None)
  {
    ClassifyPath(args, params);
    ClassifySlots(args, params);
    UnslottedScalars(args, params, 0);
    assert args[0..] == args;
  }

  /** `formatArgs` as written: a loop from the last argument down to the first that sets
      properties of `returnValues` and pushes onto its `path` array. */
  method FormatArgs(args: seq<Arg>, params: seq<Param>) returns (c: Classified)
    ensures c == Classify(args, params)
  {
    var path: seq<Arg> := [];
    var named: map<string, Obj> := map[];
    var i := |args|;
    while i > 0
      invariant 0 <= i <= |args|
      invariant Slots(path, named) == ScanFrom(args, params, i)
    {
      i := i - 1;
      var next := args[i];
      if next.Object? {
        var t := DetermineArgType(Keys(next.obj), params);
        var k := SlotKey(t);
        if k != "path" && k !in named {
          named := named[k := next.obj];
          continue;
        }
      }
      path := path + [next];
    }
    c := Classified(path, Lookup(named, "query"), Lookup(named, "body"));
  }
}
