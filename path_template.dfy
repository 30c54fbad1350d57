/** Path substitution: the `reduce` over the declared path parameters that replaces, in declaration
    order, the first `{name}` of the path template with the path value at the same position. */
module PathTemplate {
  import opened Text
  import opened JsValues

  /** `{name}`. */
  function Placeholder(name: string): string
  {
    "{" + name + "}"
  }

  /** `urlArgs[ix]` as the replacement renders it; past the end of the list it is `undefined`. */
  function ArgText(vals: seq<Arg>, ix: nat): string
  {
    if ix < |vals| then Render(vals[ix]) else "undefined"
  }

  /** The reduce from position `ix` on, with accumulator `s`. */
  function SubstituteFrom(s: string, names: seq<string>, vals: seq<Arg>, ix: nat): string
    decreases |names| - ix
  {
    if ix >= |names| then s
    else SubstituteFrom(ReplaceFirst(s, Placeholder(names[ix]), ArgText(vals, ix)), names, vals, ix + 1)
  }

  /** `names.reduce((str, name, ix) => str.replace(`{${name}}`, urlArgs[ix]), template)`. A template
      in which no declared placeholder occurs comes back unchanged. */
  function Substitute(template: string, names: seq<string>, vals: seq<Arg>): (r: string)
    ensures (forall n :: n in names ==> !ContainsText(template, Placeholder(n))) ==> r == template
  {
    SubstituteUnchanged(template, names, vals);
    SubstituteFrom(template, names, vals, 0)
  }

  function Placeholders(names: seq<string>): (ps: seq<string>)
    ensures |ps| == |names| && forall i :: 0 <= i < |names| ==> ps[i] == Placeholder(names[i])
  {
    seq(|names|, i requires 0 <= i < |names| => Placeholder(names[i]))
  }

  function Rendered(vals: seq<Arg>): (rs: seq<string>)
    ensures |rs| == |vals| && forall i :: 0 <= i < |vals| ==> rs[i] == Render(vals[i])
  {
    seq(|vals|, i requires 0 <= i < |vals| => Render(vals[i]))
  }

  /** `segs[0] + fills[0] + segs[1] + fills[1] + ... + segs[n]`. */
  function Interleave(segs: seq<string>, fills: seq<string>): string
    requires |segs| == |fills| + 1
    decreases |fills|
  {
    if fills == [] then segs[0] else segs[0] + fills[0] + Interleave(segs[1..], fills[1..])
  }

  predicate NoBrace(s: string)
  {
    '{' !in s
  }

  /** Behind a brace-free prefix, the first occurrence of a placeholder is the one that follows it. */
  lemma ReplaceAfterBraceFree(front: string, pat: string, rest: string, v: string)
    requires NoBrace(front) && |pat| > 0 && pat[0] == '{'
    ensures ReplaceFirst(front + (pat + rest), pat, v) == front + (v + rest)
  {
    NoOccurrenceBefore(front, pat + rest, pat, '{');
    ReplaceFirstSkips(front, pat + rest, pat, v);
    ReplaceFirstAtStart(pat, rest, v);
  }

  /** `Interleave` from position `ix` peels one segment and one fill. */
  lemma InterleaveStep(segs: seq<string>, fills: seq<string>, ix: nat)
    requires |segs| == |fills| + 1 && ix < |fills|
    ensures Interleave(segs[ix..], fills[ix..]) == segs[ix] + fills[ix] + Interleave(segs[ix + 1..], fills[ix + 1..])
  {
    assert segs[ix..][1..] == segs[ix + 1..];
    assert fills[ix..][1..] == fills[ix + 1..];
  }

  lemma Regroup(p: string, a: string, b: string, c: string)
    ensures p + (a + b + c) == (p + a) + (b + c)
    ensures p + (a + b + c) == (p + a + b) + c
  {
  }

  /** One step of the reduce. */
  lemma SubstituteStep(s: string, names: seq<string>, vals: seq<Arg>, ix: nat, pat: string, v: string)
    requires ix < |names| && pat == Placeholder(names[ix]) && v == ArgText(vals, ix)
    ensures SubstituteFrom(s, names, vals, ix) == SubstituteFrom(ReplaceFirst(s, pat, v), names, vals, ix + 1)
  {
  }

  /** The induction behind `SubstituteFills`: a brace-free prefix `p` already holds the values of
      the first `ix` placeholders. */
  lemma {:induction false} SubstituteFillsFrom(p: string, segs: seq<string>, names: seq<string>,
                                               vals: seq<Arg>, ix: nat)
    requires |segs| == |names| + 1 && |vals| == |names| && ix <= |names|
    requires NoBrace(p)
    requires forall i :: 0 <= i < |names| ==> NoBrace(segs[i])
    requires forall i :: 0 <= i < |vals| ==> NoBrace(Render(vals[i]))
    ensures SubstituteFrom(p + Interleave(segs[ix..], Placeholders(names)[ix..]), names, vals, ix)
            == p + Interleave(segs[ix..], Rendered(vals)[ix..])
    decreases |names| - ix
  {
    var ph := Placeholders(names);
    var rs := Rendered(vals);
    if ix == |names| {
      assert ph[ix..] == [] && rs[ix..] == [];
    } else {
      var restT := Interleave(segs[ix + 1..], ph[ix + 1..]);
      var restV := Interleave(segs[ix + 1..], rs[ix + 1..]);
      var front := p + segs[ix];
      var p' := front + rs[ix];
      var t0 := p + Interleave(segs[ix..], ph[ix..]);
      assert t0 == front + (ph[ix] + restT) by {
        InterleaveStep(segs, ph, ix);
        Regroup(p, segs[ix], ph[ix], restT);
      }
      assert ReplaceFirst(t0, ph[ix], rs[ix]) == p' + restT by {
        ReplaceAfterBraceFree(front, ph[ix], restT, rs[ix]);
      }
      assert SubstituteFrom(t0, names, vals, ix) == SubstituteFrom(p' + restT, names, vals, ix + 1) by {
        SubstituteStep(t0, names, vals, ix, ph[ix], rs[ix]);
      }
      assert SubstituteFrom(p' + restT, names, vals, ix + 1) == p' + restV by {
        SubstituteFillsFrom(p', segs, names, vals, ix + 1);
      }
      assert p' + restV == p + Interleave(segs[ix..], rs[ix..]) by {
        InterleaveStep(segs, rs, ix);
        Regroup(p, segs[ix], rs[ix], restV);
      }
    }
  }

  /** For a template that holds the declared placeholders in declaration order, with no '{' before
      the last of them other than their own, and brace-free path values, the i-th placeholder
      receives the i-th path value: the template with its placeholders filled in order. The text
      after the last placeholder is left as it is, even when it holds further `{...}` text such as
      an undeclared `{format}` or a second copy of a declared placeholder. */
  lemma SubstituteFills(segs: seq<string>, names: seq<string>, vals: seq<Arg>)
    requires |segs| == |names| + 1 && |vals| == |names|
    requires forall i :: 0 <= i < |names| ==> NoBrace(segs[i])
    requires forall i :: 0 <= i < |vals| ==> NoBrace(Render(vals[i]))
    ensures Substitute(Interleave(segs, Placeholders(names)), names, vals) == Interleave(segs, Rendered(vals))
  {
    SubstituteFillsFrom("", segs, names, vals, 0);
    assert segs[0..] == segs && Placeholders(names)[0..] == Placeholders(names);
    assert Rendered(vals)[0..] == Rendered(vals);
    assert "" + Interleave(segs, Placeholders(names)) == Interleave(segs, Placeholders(names));
    assert "" + Interleave(segs, Rendered(vals)) == Interleave(segs, Rendered(vals));
  }

  /** A template in which no declared placeholder occurs comes back unchanged. */
  lemma {:induction false} SubstituteWithoutPlaceholders(template: string, names: seq<string>, vals: seq<Arg>, ix: nat)
    requires forall n :: n in names ==> !ContainsText(template, Placeholder(n))
    ensures SubstituteFrom(template, names, vals, ix) == template
    decreases |names| - ix
  {
    if ix < |names| {
      assert names[ix] in names;
      IndexOfMeaning(template, Placeholder(names[ix]));
      ReplaceFirstMeaning(template, Placeholder(names[ix]), ArgText(vals, ix));
      SubstituteWithoutPlaceholders(template, names, vals, ix + 1);
    }
  }

  /** `SubstituteWithoutPlaceholders` from the first name on, stated for every template. */
  lemma SubstituteUnchanged(template: string, names: seq<string>, vals: seq<Arg>)
    ensures (forall n :: n in names ==> !ContainsText(template, Placeholder(n))) ==>
              SubstituteFrom(template, names, vals, 0) == template
  {
    if forall n :: n in names ==> !ContainsText(template, Placeholder(n)) {
      SubstituteWithoutPlaceholders(template, names, vals, 0);
    }
  }
}
