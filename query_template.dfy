/** The query string of a generated method (`formatQuery`): the first `?...` word of the operation's
    notes is the template, each key of the query object fills its first `{key}`, and every
    fragment `&?[A-z]+={[^}]+}` left unfilled is removed. */
module QueryTemplate {
  import opened Wrappers
  import opened Text
  import opened JsValues
  import opened PathTemplate

  /** `\s` in a JavaScript regular expression. */
  predicate IsSpace(c: char)
  {
    c == ' ' || c == '\t' || c == '\n' || c == '\U{000B}' || c == '\U{000C}' || c == '\r'
    || c == '\U{00A0}' || c == '\U{1680}' || ('\U{2000}' <= c <= '\U{200A}')
    || c == '\U{2028}' || c == '\U{2029}' || c == '\U{202F}' || c == '\U{205F}'
    || c == '\U{3000}' || c == '\U{FEFF}'
  }

  /** `[A-z]`: the code-point range from 'A' to 'z', which takes in `[`, `\`, `]`, `^`, `_` and the
      backquote besides the letters, and no digit. */
  predicate IsAz(c: char)
  {
    'A' <= c <= 'z'
  }

  predicate AllAz(s: string)
  {
    forall i :: 0 <= i < |s| ==> IsAz(s[i])
  }

  /** The length of the longest prefix of `s` free of `\s`. */
  function NonSpaceRun(s: string): (n: nat)
    ensures n <= |s|
    ensures forall k :: 0 <= k < n ==> !IsSpace(s[k])
    ensures n == |s| || IsSpace(s[n])
    decreases |s|
  {
    if s == [] || IsSpace(s[0]) then 0 else 1 + NonSpaceRun(s[1..])
  }

  /** `\?[^\s]+` can match starting at index `j` of `s`. */
  predicate Candidate(s: string, j: int)
  {
    0 <= j && j + 1 < |s| && s[j] == '?' && !IsSpace(s[j + 1])
  }

  /** `notes.match(/\?[^\s]+/)`: the leftmost '?' followed by a non-space character, with the longest
      run of non-space characters after it; `None` stands for the `null` that `match` returns. */
  function FindTemplate(notes: string): (r: Option<string>)
    decreases |notes|
  {
    if |notes| < 2 then None
    else if notes[0] == '?' && !IsSpace(notes[1]) then Some(notes[..1 + NonSpaceRun(notes[1..])])
    else FindTemplate(notes[1..])
  }

  /** The template found starts at the leftmost candidate `i`, opens with '?', has at least one more
      character, holds no space and stops only at a space or at the end; no candidate at all means
      no template. */
  lemma {:induction false} FindTemplateMeaning(notes: string) returns (i: nat)
    ensures FindTemplate(notes).None? <==> forall j :: 0 <= j < |notes| ==> !Candidate(notes, j)
    ensures FindTemplate(notes).Some? ==>
              var t := FindTemplate(notes).value;
              Candidate(notes, i) && (forall j :: 0 <= j < i ==> !Candidate(notes, j))
              && i + |t| <= |notes| && notes[i..i + |t|] == t && |t| >= 2 && t[0] == '?'
              && (forall k :: 1 <= k < |t| ==> !IsSpace(t[k]))
              && (i + |t| == |notes| || IsSpace(notes[i + |t|]))
    decreases |notes|
  {
    FindTemplateNone(notes);
    if |notes| < 2 {
      i := 0;
    } else if notes[0] == '?' && !IsSpace(notes[1]) {
      i := 0;
      FindTemplateHead(notes);
    } else {
      var i' := FindTemplateMeaning(notes[1..]);
      i := i' + 1;
      if FindTemplate(notes).Some? {
        var t := FindTemplate(notes).value;
        assert t == FindTemplate(notes[1..]).value;
        assert !Candidate(notes, 0);
        CandidateShift(notes);
        assert Candidate(notes, i);
        assert notes[i..i + |t|] == notes[1..][i'..i' + |t|];
        if i + |t| < |notes| {
          assert notes[i + |t|] == notes[1..][i' + |t|];
        }
      }
    }
  }

  /** A template found opens with '?' and has at least one more character. */
  lemma {:induction false} FindTemplateOpens(notes: string)
    ensures FindTemplate(notes).Some? ==> |FindTemplate(notes).value| >= 2 && FindTemplate(notes).value[0] == '?'
  {
    var _ := FindTemplateMeaning(notes);
  }

  /** Notes that open with a candidate yield the '?'-word at their start. */
  lemma FindTemplateHead(notes: string)
    requires |notes| >= 2 && notes[0] == '?' && !IsSpace(notes[1])
    ensures FindTemplate(notes).Some?
    ensures var t := FindTemplate(notes).value;
              Candidate(notes, 0) && |t| <= |notes| && notes[0..|t|] == t
              && (forall k :: 1 <= k < |t| ==> !IsSpace(t[k]))
              && (|t| == |notes| || IsSpace(notes[|t|]))
  {
    var n := NonSpaceRun(notes[1..]);
    var t := notes[..1 + n];
    assert t == FindTemplate(notes).value;
    forall k | 1 <= k < |t|
      ensures !IsSpace(t[k])
    {
      assert t[k] == notes[1..][k - 1];
    }
    if 1 + n < |notes| {
      assert notes[1 + n] == notes[1..][n];
    }
  }

  /** No template is found exactly when the notes hold no candidate. */
  lemma {:induction false} FindTemplateNone(notes: string)
    ensures FindTemplate(notes).None? <==> forall j :: 0 <= j < |notes| ==> !Candidate(notes, j)
    decreases |notes|
  {
    if |notes| >= 2 && notes[0] == '?' && !IsSpace(notes[1]) {
      assert Candidate(notes, 0);
    } else if |notes| >= 2 {
      FindTemplateNone(notes[1..]);
      CandidateShift(notes);
      assert !Candidate(notes, 0);
      if FindTemplate(notes).None? {
        forall j | 0 <= j < |notes|
          ensures !Candidate(notes, j)
        {
          if j >= 1 {
            assert !Candidate(notes[1..], j - 1);
          }
        }
      } else {
        var j :| 0 <= j < |notes[1..]| && Candidate(notes[1..], j);
        assert Candidate(notes, j + 1);
      }
    }
  }

  /** A candidate at `j >= 1` is a candidate at `j - 1` of the tail. */
  lemma CandidateShift(notes: string)
    requires |notes| >= 1
    ensures forall j :: 1 <= j < |notes| ==> (Candidate(notes, j) <==> Candidate(notes[1..], j - 1))
  {
    forall j | 1 <= j < |notes|
      ensures Candidate(notes, j) <==> Candidate(notes[1..], j - 1)
    {
      if j + 1 < |notes| {
        assert notes[j] == notes[1..][j - 1] && notes[j + 1] == notes[1..][j];
      }
    }
  }

  /** A '?'-word after a '?'-free prefix, ended by a space or by the end of the notes, is the
      template. */
  lemma {:induction false} FindTemplateAfter(pre: string, t: string, post: string)
    requires '?' !in pre
    requires |t| >= 2 && t[0] == '?' && forall k :: 1 <= k < |t| ==> !IsSpace(t[k])
    requires post == [] || IsSpace(post[0])
    ensures FindTemplate(pre + t + post) == Some(t)
    decreases |pre|
  {
    var s := pre + t + post;
    if pre == [] {
      assert s == t + post;
      var n := NonSpaceRun(s[1..]);
      assert s[1..] == t[1..] + post;
      assert forall k :: 0 <= k < |t| - 1 ==> s[1..][k] == t[k + 1];
      assert |post| > 0 ==> s[1..][|t| - 1] == post[0];
      assert n == |t| - 1;
      assert s[..1 + n] == t;
    } else {
      assert s[0] == pre[0] && pre[0] in pre;
      FindTemplateAfter(pre[1..], t, post);
      assert s[1..] == pre[1..] + t + post;
    }
  }

  /** `Object.keys(query).reduce((str, key) => str.replace(`{${key}}`, query[key]), template)`:
      each entry, in key order, replaces the first placeholder named after its key. A placeholder
      opens with '{', so the leading '?' of a template is never replaced. */
  function FillQuery(template: string, entries: seq<(string, string)>): (r: string)
    ensures |template| > 0 && template[0] == '?' ==> |r| > 0 && r[0] == '?'
    decreases |entries|
  {
    if entries == [] then template
    else
      var last := entries[|entries| - 1];
      var s := FillQuery(template, entries[..|entries| - 1]);
      ReplaceFirstKeepsHead(s, Placeholder(last.0), last.1);
      ReplaceFirst(s, Placeholder(last.0), last.1)
  }

  /** The length of the longest prefix of `s` within `[A-z]`. */
  function LetterRun(s: string): (n: nat)
    ensures n <= |s|
    decreases |s|
  {
    if s == [] || !IsAz(s[0]) then 0 else 1 + LetterRun(s[1..])
  }

  lemma {:induction false} LetterRunMeaning(s: string)
    ensures forall k :: 0 <= k < LetterRun(s) ==> IsAz(s[k])
    ensures LetterRun(s) == |s| || !IsAz(s[LetterRun(s)])
    decreases |s|
  {
    if s != [] && IsAz(s[0]) {
      LetterRunMeaning(s[1..]);
      assert forall k :: 1 <= k <= LetterRun(s[1..]) && k < |s| ==> s[k] == s[1..][k - 1];
    }
  }

  /** The length of the longest prefix of `s` free of '}'. */
  function NonCloseRun(s: string): (n: nat)
    ensures n <= |s|
    decreases |s|
  {
    if s == [] || s[0] == '}' then 0 else 1 + NonCloseRun(s[1..])
  }

  lemma {:induction false} NonCloseRunMeaning(s: string)
    ensures forall k :: 0 <= k < NonCloseRun(s) ==> s[k] != '}'
    ensures NonCloseRun(s) == |s| || s[NonCloseRun(s)] == '}'
    decreases |s|
  {
    if s != [] && s[0] != '}' {
      NonCloseRunMeaning(s[1..]);
      assert forall k :: 1 <= k <= NonCloseRun(s[1..]) && k < |s| ==> s[k] == s[1..][k - 1];
    }
  }

  /** The length of the match of `/&?[A-z]+\={[^}]+}/` at the start of `s`. No backtracking changes
      the outcome: '&' is outside `[A-z]`, '=' ends the letters and '}' ends the value, so each part
      is the longest run it can be. */
  function MatchLen(s: string): (r: Option<nat>)
    ensures r.Some? ==> 5 <= r.value <= |s|
  {
    var a := if |s| > 0 && s[0] == '&' then 1 else 0;
    var b := a + LetterRun(s[a..]);
    if b == a || b + 2 > |s| || s[b] != '=' || s[b + 1] != '{' then None
    else
      var c := b + 2 + NonCloseRun(s[b + 2..]);
      if c == b + 2 || c == |s| then None else Some(c + 1)
  }

  /** The parts of one fragment the pattern removes: an optional '&', a key in `[A-z]+`, and a
      value of at least one character other than '}' between braces. */
  predicate IsFragment(amp: string, letters: string, inner: string)
  {
    (amp == "" || amp == "&") && |letters| > 0 && AllAz(letters) && |inner| > 0 && '}' !in inner
  }

  function FragmentText(amp: string, letters: string, inner: string): string
  {
    amp + letters + "={" + inner + "}"
  }

  /** What `MatchLen` matches is a fragment. */
  lemma MatchLenSound(s: string) returns (amp: string, letters: string, inner: string)
    requires MatchLen(s).Some?
    ensures IsFragment(amp, letters, inner)
    ensures s[..MatchLen(s).value] == FragmentText(amp, letters, inner)
  {
    var a := if |s| > 0 && s[0] == '&' then 1 else 0;
    var b := a + LetterRun(s[a..]);
    var c := b + 2 + NonCloseRun(s[b + 2..]);
    assert MatchLen(s) == Some(c + 1);
    amp := s[..a];
    letters := s[a..b];
    inner := s[b + 2..c];
    assert amp == "" || amp == "&" by {
      assert a == 1 ==> amp == [s[0]];
    }
    assert AllAz(letters) by {
      LetterRunMeaning(s[a..]);
      assert forall k :: 0 <= k < |letters| ==> letters[k] == s[a..][k];
    }
    assert '}' !in inner by {
      NonCloseRunMeaning(s[b + 2..]);
      assert forall k :: 0 <= k < |inner| ==> inner[k] == s[b + 2..][k];
    }
    assert s[c] == '}' by {
      NonCloseRunMeaning(s[b + 2..]);
      assert s[c] == s[b + 2..][c - b - 2];
    }
    assert s[b] == '=' && s[b + 1] == '{';
    SliceFragment(s, a, b, c);
  }

  lemma SliceFragment(s: string, a: nat, b: nat, c: nat)
    requires a <= b && b + 2 <= c < |s| && s[b] == '=' && s[b + 1] == '{' && s[c] == '}'
    ensures s[..c + 1] == s[..a] + s[a..b] + "={" + s[b + 2..c] + "}"
  {
    assert s[..c + 1] == s[..a] + s[a..b] + s[b..b + 2] + s[b + 2..c] + s[c..c + 1];
    assert s[b..b + 2] == "={";
    assert s[c..c + 1] == "}";
  }

  lemma LetterRunOf(letters: string, t: string)
    requires AllAz(letters) && (t == [] || !IsAz(t[0]))
    ensures LetterRun(letters + t) == |letters|
  {
    LetterRunMeaning(letters + t);
    assert forall k :: 0 <= k < |letters| ==> (letters + t)[k] == letters[k];
    assert |t| > 0 ==> (letters + t)[|letters|] == t[0];
  }

  lemma NonCloseRunOf(inner: string, t: string)
    requires '}' !in inner && |t| > 0 && t[0] == '}'
    ensures NonCloseRun(inner + t) == |inner|
  {
    NonCloseRunMeaning(inner + t);
    assert forall k :: 0 <= k < |inner| ==> (inner + t)[k] == inner[k] && inner[k] in inner;
    assert (inner + t)[|inner|] == t[0];
  }

  /** `MatchLen` from the positions where its letters and its value end. */
  lemma MatchLenAt(s: string, a: nat, b: nat, c: nat)
    requires a <= 1 && (a == 1 <==> |s| > 0 && s[0] == '&')
    requires a < b && b + 2 < c < |s| && LetterRun(s[a..]) == b - a
    requires s[b] == '=' && s[b + 1] == '{' && NonCloseRun(s[b + 2..]) == c - b - 2
    ensures MatchLen(s) == Some(c + 1)
  {
  }

  /** Where the parts of a fragment sit in a text that opens with it. */
  lemma FragmentLayout(amp: string, letters: string, inner: string, rest: string)
    requires IsFragment(amp, letters, inner)
    ensures var s := FragmentText(amp, letters, inner) + rest;
            var a := |amp|;
            var b := a + |letters|;
            && |s| > b + 2 + |inner|
            && (a == 1 <==> s[0] == '&')
            && s[a..] == letters + ("={" + inner + "}" + rest)
            && s[b] == '=' && s[b + 1] == '{'
            && s[b + 2..] == inner + ("}" + rest)
  {
    var s := FragmentText(amp, letters, inner) + rest;
    var a := |amp|;
    assert s[0] == '&' <==> a == 1 by {
      if a == 0 {
        assert s[0] == letters[0];
      }
    }
    assert s[a..] == letters + ("={" + inner + "}" + rest);
  }

  /** A fragment at the start of `s` is matched whole, whatever follows it. */
  lemma MatchLenComplete(amp: string, letters: string, inner: string, rest: string)
    requires IsFragment(amp, letters, inner)
    ensures MatchLen(FragmentText(amp, letters, inner) + rest) == Some(|FragmentText(amp, letters, inner)|)
  {
    var s := FragmentText(amp, letters, inner) + rest;
    var a := |amp|;
    var b := a + |letters|;
    FragmentLayout(amp, letters, inner, rest);
    LetterRunOf(letters, "={" + inner + "}" + rest);
    NonCloseRunOf(inner, "}" + rest);
    MatchLenAt(s, a, b, b + 2 + |inner|);
  }

  /** `str.replace(/&?[A-z]+\={[^}]+}/g, '')`: a global replacement scans from the left, removes
      each match and resumes after it. The result is never longer than the text. */
  function StripFragments(s: string): (r: string)
    ensures |r| <= |s|
    decreases |s|
  {
    if s == [] then []
    else
      match MatchLen(s)
      case Some(n) => StripFragments(s[n..])
      case None => [s[0]] + StripFragments(s[1..])
  }

  /** `formatQuery(query, notes)`: the empty string without a query object; otherwise the filled
      template with its unfilled fragments removed. Notes without a template make `match` return
      `null`, and indexing it throws. */
  function FormatQuery(query: Option<Obj>, notes: string): (r: Result<string, Error>)
    ensures query.None? ==> r == Success("")
    ensures r.Failure? <==> query.Some? && FindTemplate(notes).None?
    ensures r.Failure? ==> r.error == NoQueryTemplate
    ensures query.Some? && r.Success? ==> |r.value| > 0 && r.value[0] == '?'
  {
    match query
    case None => Success("")
    case Some(q) =>
      match FindTemplate(notes)
      case None => Failure(NoQueryTemplate)
      case Some(t) =>
        FindTemplateOpens(notes);
        var f := FillQuery(t, q.entries);
        assert f == "?" + f[1..];
        StripKeepsQuestionMark(f[1..]);
        Success(StripFragments(f))
  }

  /** A character that no fragment can run across: outside `[A-z]`, and neither '=' nor '{'. */
  predicate Stopper(c: char)
  {
    !IsAz(c) && c != '=' && c != '{'
  }

  /** No fragment starts in a brace-free text followed by a stopper or by the end. */
  lemma NoMatchBeforeStopper(p: string, rest: string)
    requires |p| > 0 && '{' !in p && (rest == [] || Stopper(rest[0]))
    ensures MatchLen(p + rest) == None
  {
    var s := p + rest;
    var a := if s[0] == '&' then 1 else 0;
    var run := LetterRun(s[a..]);
    LetterRunMeaning(s[a..]);
    var b := a + run;
    assert |p| < |s| ==> s[a..][|p| - a] == rest[0] && s[|p|] == rest[0];
    assert b <= |p|;
    assert b + 1 < |p| ==> s[b + 1] == p[b + 1] && p[b + 1] in p;
  }

  /** Where no fragment starts, the scan keeps the first character. */
  lemma StripKeepsFirst(p: string, rest: string)
    requires |p| > 0 && MatchLen(p + rest) == None
    ensures StripFragments(p + rest) == [p[0]] + StripFragments(p[1..] + rest)
  {
    var s := p + rest;
    assert StripFragments(s) == [s[0]] + StripFragments(s[1..]);
    assert s[1..] == p[1..] + rest;
  }

  /** The scan keeps a brace-free text followed by a stopper or by the end. */
  lemma {:induction false} StripKeepsBraceFree(p: string, rest: string)
    requires '{' !in p && (rest == [] || Stopper(rest[0]))
    ensures StripFragments(p + rest) == p + StripFragments(rest)
    decreases |p|
  {
    if p == [] {
      assert p + rest == rest;
    } else {
      assert MatchLen(p + rest) == None by {
        NoMatchBeforeStopper(p, rest);
      }
      StripKeepsFirst(p, rest);
      assert '{' !in p[1..] by {
        assert p == [p[0]] + p[1..];
      }
      StripKeepsBraceFree(p[1..], rest);
      ConsTail(p, StripFragments(rest));
    }
  }

  /** The scan removes a fragment at the start. */
  lemma StripDropsFragment(amp: string, letters: string, inner: string, rest: string)
    requires IsFragment(amp, letters, inner)
    ensures StripFragments(FragmentText(amp, letters, inner) + rest) == StripFragments(rest)
  {
    MatchLenComplete(amp, letters, inner, rest);
    var f := FragmentText(amp, letters, inner);
    assert (f + rest)[|f|..] == rest;
  }

  /** Text without '{' passes the scan unchanged. */
  lemma StripBraceFree(s: string)
    requires '{' !in s
    ensures StripFragments(s) == s
  {
    StripKeepsBraceFree(s, []);
    assert s + [] == s;
  }

  /** The leading '?' of a template survives the scan. */
  lemma StripKeepsQuestionMark(s: string)
    ensures StripFragments("?" + s) == "?" + StripFragments(s)
  {
    var t := "?" + s;
    assert LetterRun(t) == 0;
    assert MatchLen(t) == None;
    assert t[1..] == s;
  }

  /* ---- Templates of the documented shape `?k0={k0}&k1={k1}...` ---- */

  /** The separator before fragment `i`. */
  function Sep(i: nat): string
  {
    if i == 0 then "" else "&"
  }

  /** A fragment's value: its placeholder while unfilled. */
  function Slot(k: string, f: Option<string>): string
  {
    match f
    case None => Placeholder(k)
    case Some(v) => v
  }

  function Frag(i: nat, k: string, f: Option<string>): string
  {
    Sep(i) + k + "=" + Slot(k, f)
  }

  /** Fragments `i..` of a template with keys `ks`, each filled or not as `fills` says. */
  function Frags(ks: seq<string>, fills: seq<Option<string>>, i: nat): string
    requires |fills| == |ks| && i <= |ks|
    decreases |ks| - i
  {
    if i == |ks| then "" else Frag(i, ks[i], fills[i]) + Frags(ks, fills, i + 1)
  }

  /** Fragments `i..` that were filled, each with the separator its position gives it. */
  function Kept(ks: seq<string>, fills: seq<Option<string>>, i: nat): string
    requires |fills| == |ks| && i <= |ks|
    decreases |ks| - i
  {
    if i == |ks| then ""
    else (if fills[i].Some? then Frag(i, ks[i], fills[i]) else "") + Kept(ks, fills, i + 1)
  }

  function Unfilled(n: nat): (fs: seq<Option<string>>)
    ensures |fs| == n && forall j :: 0 <= j < n ==> fs[j] == None
  {
    seq(n, j => None)
  }

  /** `?k0={k0}&k1={k1}...`. */
  function Template(ks: seq<string>): string
  {
    "?" + Frags(ks, Unfilled(|ks|), 0)
  }

  /** `query[k]`: the value of the first entry with key `k`. */
  function FirstValue(entries: seq<(string, string)>, k: string): (r: Option<string>)
    ensures r.Some? ==> (k, r.value) in entries
    decreases |entries|
  {
    if entries == [] then None
    else
      var before := FirstValue(entries[..|entries| - 1], k);
      if before.Some? then before
      else if entries[|entries| - 1].0 == k then Some(entries[|entries| - 1].1)
      else None
  }

  function FillsFor(ks: seq<string>, entries: seq<(string, string)>): (fs: seq<Option<string>>)
    ensures |fs| == |ks| && forall j :: 0 <= j < |ks| ==> fs[j] == FirstValue(entries, ks[j])
  {
    seq(|ks|, j requires 0 <= j < |ks| => FirstValue(entries, ks[j]))
  }

  /** Template keys: non-empty, within `[A-z]`, and distinct. */
  predicate KeysOk(ks: seq<string>)
  {
    (forall j :: 0 <= j < |ks| ==> |ks[j]| > 0 && AllAz(ks[j]))
    && (forall j, l :: 0 <= j < l < |ks| ==> ks[j] != ks[l])
  }

  predicate BraceFreeFills(fills: seq<Option<string>>)
  {
    forall j :: 0 <= j < |fills| && fills[j].Some? ==> '{' !in fills[j].value
  }

  /** Query entries: keys free of '}', values free of '{'. */
  predicate EntriesOk(entries: seq<(string, string)>)
  {
    forall e :: e in entries ==> '}' !in e.0 && '{' !in e.1
  }

  /** Filling `k` with `v`: the unfilled fragment keyed `k`, if any, takes `v`. */
  function Update(ks: seq<string>, fills: seq<Option<string>>, k: string, v: string): (fs: seq<Option<string>>)
    requires |fills| == |ks|
    ensures |fs| == |ks|
    ensures forall j :: 0 <= j < |ks| ==> fs[j] == if ks[j] == k && fills[j].None? then Some(v) else fills[j]
  {
    seq(|ks|, j requires 0 <= j < |ks| => if ks[j] == k && fills[j].None? then Some(v) else fills[j])
  }

  lemma {:induction false} FragsAgree(ks: seq<string>, f1: seq<Option<string>>, f2: seq<Option<string>>, i: nat)
    requires |f1| == |ks| && |f2| == |ks| && i <= |ks|
    requires forall j :: i <= j < |ks| ==> f1[j] == f2[j]
    ensures Frags(ks, f1, i) == Frags(ks, f2, i)
    decreases |ks| - i
  {
    if i < |ks| {
      FragsAgree(ks, f1, f2, i + 1);
      assert Frags(ks, f1, i) == Frag(i, ks[i], f1[i]) + Frags(ks, f1, i + 1);
      assert Frags(ks, f2, i) == Frag(i, ks[i], f2[i]) + Frags(ks, f2, i + 1);
    }
  }

  /** A placeholder never starts where another key's placeholder starts. */
  lemma PlaceholderClash(ki: string, k: string, y: string)
    requires AllAz(ki) && '}' !in k && k != ki
    ensures !OccursAt(Placeholder(ki) + y, Placeholder(k), 0)
  {
    var z := Placeholder(ki) + y;
    var pat := Placeholder(k);
    // An index below `|pat|` where the two differ.
    var m: nat;
    if |k| < |ki| {
      m := |k| + 1;
      assert z[m] == ki[|k|] && pat[m] == '}';
    } else if |k| > |ki| {
      m := |ki| + 1;
      assert z[m] == '}' && pat[m] == k[|ki|] && k[|ki|] in k;
    } else {
      var d :| 0 <= d < |k| && k[d] != ki[d];
      m := d + 1;
      assert z[m] == ki[d] && pat[m] == k[d];
    }
    assert m < |pat| && m < |z| && z[m] != pat[m];
    assert |pat| <= |z| ==> z[..|pat|][m] == z[m];
  }

  /** The text before a fragment's value holds no '{'. */
  lemma FrontBraceFree(i: nat, k: string)
    requires AllAz(k)
    ensures '{' !in Sep(i) + k + "="
  {
    var front := Sep(i) + k + "=";
    forall j | 0 <= j < |front|
      ensures front[j] != '{'
    {
      if |Sep(i)| <= j < |Sep(i)| + |k| {
        assert front[j] == k[j - |Sep(i)|];
      }
    }
  }

  /** Past its opening brace, a placeholder holds no '{'. */
  lemma PlaceholderOpensOnce(k: string)
    requires AllAz(k)
    ensures forall n :: 1 <= n < |Placeholder(k)| ==> Placeholder(k)[n] != '{'
  {
    var p := Placeholder(k);
    forall n | 1 <= n < |p|
      ensures p[n] != '{'
    {
      if n <= |k| {
        assert p[n] == k[n - 1];
      }
    }
  }

  /** `{k}` does not occur in an unfilled fragment keyed otherwise, nor where such a fragment
      starts. */
  lemma UnfilledFragSkips(front: string, ki: string, y: string, k: string)
    requires '{' !in front && AllAz(ki) && '}' !in k && k != ki
    ensures forall j :: 0 <= j < |front + Placeholder(ki)| ==> !OccursAt(front + Placeholder(ki) + y, Placeholder(k), j)
  {
    var p := Placeholder(ki);
    var pat := Placeholder(k);
    var s := front + p + y;
    assert s == front + (p + y);
    NoOccurrenceBefore(front, p + y, pat, '{');
    PlaceholderOpensOnce(ki);
    forall j | |front| <= j < |front + p|
      ensures !OccursAt(s, pat, j)
    {
      if j == |front| {
        PlaceholderClash(ki, k, y);
        assert s[j..] == p + y;
        OccursAtSuffix(s, pat, j);
      } else {
        assert s[j] == p[j - |front|];
        NotOccursAtMismatch(s, pat, j);
      }
    }
  }

  /** Replacing `{k}` passes over a fragment keyed differently or already filled. */
  lemma FragSkips(i: nat, ki: string, f: Option<string>, y: string, k: string, v: string)
    requires AllAz(ki) && '}' !in k
    requires f.Some? ==> '{' !in f.value
    requires f.None? ==> k != ki
    ensures ReplaceFirst(Frag(i, ki, f) + y, Placeholder(k), v) == Frag(i, ki, f) + ReplaceFirst(y, Placeholder(k), v)
  {
    var front := Sep(i) + ki + "=";
    var x := Frag(i, ki, f);
    var pat := Placeholder(k);
    FrontBraceFree(i, ki);
    match f
    case Some(w) =>
      assert x == front + w;
      assert '{' !in x;
      NoOccurrenceBefore(x, y, pat, '{');
      ReplaceFirstSkips(x, y, pat, v);
    case None =>
      assert x == front + Placeholder(ki);
      UnfilledFragSkips(front, ki, y, k);
      ReplaceFirstSkips(x, y, pat, v);
  }

  /** Replacing `{k}` fills a fragment keyed `k` that is still unfilled. */
  lemma FragFills(i: nat, k: string, y: string, v: string)
    requires AllAz(k)
    ensures ReplaceFirst(Frag(i, k, None) + y, Placeholder(k), v) == Frag(i, k, Some(v)) + y
  {
    var front := Sep(i) + k + "=";
    FrontBraceFree(i, k);
    assert Frag(i, k, None) + y == front + (Placeholder(k) + y);
    ReplaceAfterBraceFree(front, Placeholder(k), y, v);
  }

  /** Replacing `{k}` in fragments `i..` fills the one unfilled fragment keyed `k`, if there is one,
      and changes nothing else. */
  lemma {:induction false} ReplaceInFrags(ks: seq<string>, fills: seq<Option<string>>, i: nat, k: string, v: string)
    requires KeysOk(ks) && |fills| == |ks| && i <= |ks| && BraceFreeFills(fills)
    requires '}' !in k
    ensures ReplaceFirst(Frags(ks, fills, i), Placeholder(k), v) == Frags(ks, Update(ks, fills, k, v), i)
    decreases |ks| - i, 1
  {
    if i == |ks| {
      assert ReplaceFirst("", Placeholder(k), v) == "";
    } else if ks[i] == k && fills[i].None? {
      ReplaceHit(ks, fills, i, k, v);
    } else {
      ReplaceInFragsPast(ks, fills, i, k, v);
    }
  }

  /** `ReplaceInFrags` when fragment `i` is the unfilled one keyed `k`: it takes `v`, and the keys
      after it differ from `k`. */
  lemma ReplaceHit(ks: seq<string>, fills: seq<Option<string>>, i: nat, k: string, v: string)
    requires KeysOk(ks) && |fills| == |ks| && i < |ks| && ks[i] == k && fills[i].None?
    ensures ReplaceFirst(Frags(ks, fills, i), Placeholder(k), v) == Frags(ks, Update(ks, fills, k, v), i)
  {
    var up := Update(ks, fills, k, v);
    var y := Frags(ks, fills, i + 1);
    assert Frags(ks, fills, i) == Frag(i, k, None) + y;
    UpdatePastKey(ks, fills, i, k, v);
    assert Frags(ks, up, i) == Frag(i, k, Some(v)) + y;
    assert AllAz(ks[i]);
    FragFills(i, k, y, v);
  }

  /** Keys are distinct, so filling `k` leaves the fragments after the one keyed `k` alone. */
  lemma UpdatePastKey(ks: seq<string>, fills: seq<Option<string>>, i: nat, k: string, v: string)
    requires KeysOk(ks) && |fills| == |ks| && i < |ks| && ks[i] == k
    ensures Frags(ks, Update(ks, fills, k, v), i + 1) == Frags(ks, fills, i + 1)
  {
    assert forall j :: i + 1 <= j < |ks| ==> ks[j] != k;
    FragsAgree(ks, fills, Update(ks, fills, k, v), i + 1);
  }

  /** `ReplaceInFrags` when fragment `i` is keyed otherwise or already filled: the replacement
      passes over it. */
  lemma {:induction false} ReplaceInFragsPast(ks: seq<string>, fills: seq<Option<string>>, i: nat, k: string, v: string)
    requires KeysOk(ks) && |fills| == |ks| && i < |ks| && BraceFreeFills(fills)
    requires '}' !in k && !(ks[i] == k && fills[i].None?)
    ensures ReplaceFirst(Frags(ks, fills, i), Placeholder(k), v) == Frags(ks, Update(ks, fills, k, v), i)
    decreases |ks| - i, 0
  {
    ReplaceInFrags(ks, fills, i + 1, k, v);
    ReplaceMiss(ks, fills, i, k, v);
  }

  lemma ReplaceMiss(ks: seq<string>, fills: seq<Option<string>>, i: nat, k: string, v: string)
    requires KeysOk(ks) && |fills| == |ks| && i < |ks| && BraceFreeFills(fills)
    requires '}' !in k && !(ks[i] == k && fills[i].None?)
    requires ReplaceFirst(Frags(ks, fills, i + 1), Placeholder(k), v) == Frags(ks, Update(ks, fills, k, v), i + 1)
    ensures ReplaceFirst(Frags(ks, fills, i), Placeholder(k), v) == Frags(ks, Update(ks, fills, k, v), i)
  {
    var up := Update(ks, fills, k, v);
    var y := Frags(ks, fills, i + 1);
    assert Frags(ks, fills, i) == Frag(i, ks[i], fills[i]) + y;
    assert Frags(ks, up, i) == Frag(i, ks[i], fills[i]) + Frags(ks, up, i + 1);
    assert AllAz(ks[i]);
    assert fills[i].Some? ==> '{' !in fills[i].value;
    FragSkips(i, ks[i], fills[i], y, k, v);
  }

  lemma EntriesPrefixOk(entries: seq<(string, string)>, n: nat)
    requires EntriesOk(entries) && n <= |entries|
    ensures EntriesOk(entries[..n])
  {
    forall x | x in entries[..n]
      ensures x in entries
    {
      var j :| 0 <= j < n && entries[..n][j] == x;
      assert entries[j] == x;
    }
  }

  /** Values taken from the query entries hold no '{'. */
  lemma FillsBraceFree(ks: seq<string>, entries: seq<(string, string)>)
    requires EntriesOk(entries)
    ensures BraceFreeFills(FillsFor(ks, entries))
  {
    var fills := FillsFor(ks, entries);
    forall j | 0 <= j < |fills| && fills[j].Some?
      ensures '{' !in fills[j].value
    {
      assert (ks[j], fills[j].value) in entries;
    }
  }

  /** One more entry fills the unfilled fragment keyed like it. */
  lemma FillsForStep(ks: seq<string>, entries: seq<(string, string)>)
    requires |entries| > 0
    ensures var n := |entries| - 1;
            Update(ks, FillsFor(ks, entries[..n]), entries[n].0, entries[n].1) == FillsFor(ks, entries)
  {
  }

  /** Filling the template `?k0={k0}&...` with the query entries fills each fragment with the first
      entry keyed like it, and leaves the others as placeholders. */
  lemma {:induction false} FillTemplate(ks: seq<string>, entries: seq<(string, string)>)
    requires KeysOk(ks) && EntriesOk(entries)
    ensures FillQuery(Template(ks), entries) == "?" + Frags(ks, FillsFor(ks, entries), 0)
    decreases |entries|
  {
    if entries == [] {
      assert FillsFor(ks, entries) == Unfilled(|ks|);
    } else {
      var n := |entries| - 1;
      var e := entries[n];
      var before := FillsFor(ks, entries[..n]);
      EntriesPrefixOk(entries, n);
      FillTemplate(ks, entries[..n]);
      assert e in entries;
      FillsBraceFree(ks, entries[..n]);
      var body := Frags(ks, before, 0);
      var pat := Placeholder(e.0);
      NoOccurrenceBefore("?", body, pat, '{');
      ReplaceFirstSkips("?", body, pat, e.1);
      ReplaceInFrags(ks, before, 0, e.0, e.1);
      FillsForStep(ks, entries);
    }
  }

  /** `\s` is never in `[A-z]`, nor any of "?&={}". */
  lemma NotSpace(c: char)
    requires IsAz(c) || c in "?&={}"
    ensures !IsSpace(c)
  {
  }

  predicate NoSpace(s: string)
  {
    forall n :: 0 <= n < |s| ==> !IsSpace(s[n])
  }

  lemma NoSpaceConcat(x: string, y: string)
    requires NoSpace(x) && NoSpace(y)
    ensures NoSpace(x + y)
  {
    assert forall n :: |x| <= n < |x + y| ==> (x + y)[n] == y[n - |x|];
  }

  lemma UnfilledFragNoSpace(i: nat, k: string)
    requires AllAz(k)
    ensures NoSpace(Frag(i, k, None))
  {
    var x := Frag(i, k, None);
    assert x == Sep(i) + k + "={" + k + "}";
    forall n | 0 <= n < |x|
      ensures !IsSpace(x[n])
    {
      var d := n - |Sep(i)|;
      if 0 <= d < |k| {
        assert x[n] == k[d];
      } else if |k| + 2 <= d < 2 * |k| + 2 {
        assert x[n] == k[d - |k| - 2];
      }
      NotSpace(x[n]);
    }
  }

  lemma {:induction false} FragsHaveNoSpace(ks: seq<string>, fills: seq<Option<string>>, i: nat)
    requires KeysOk(ks) && |fills| == |ks| && i <= |ks| && forall j :: 0 <= j < |ks| ==> fills[j] == None
    ensures NoSpace(Frags(ks, fills, i))
    decreases |ks| - i
  {
    if i < |ks| {
      var x := Frag(i, ks[i], None);
      var y := Frags(ks, fills, i + 1);
      assert NoSpace(y) by {
        FragsHaveNoSpace(ks, fills, i + 1);
      }
      assert NoSpace(x) by {
        assert AllAz(ks[i]);
        UnfilledFragNoSpace(i, ks[i]);
      }
      assert Frags(ks, fills, i) == x + y;
      NoSpaceConcat(x, y);
    }
  }

  /** A template `?k0={k0}&...` with keys in `[A-z]` holds no space: `match` takes all of it. */
  lemma TemplateIsOneWord(ks: seq<string>)
    requires KeysOk(ks) && |ks| > 0
    ensures |Template(ks)| >= 2 && Template(ks)[0] == '?'
    ensures forall n :: 1 <= n < |Template(ks)| ==> !IsSpace(Template(ks)[n])
  {
    var body := Frags(ks, Unfilled(|ks|), 0);
    FragsHaveNoSpace(ks, Unfilled(|ks|), 0);
    assert NoSpace(body);
    assert forall n :: 1 <= n < |Template(ks)| ==> Template(ks)[n] == body[n - 1];
    assert |ks[0]| > 0;
  }

  /** Notes that document a call as `?k0={k0}&k1={k1}...`, after text with no '?' and before a
      space or the end, yield that template. */
  lemma DocumentedTemplateFound(pre: string, ks: seq<string>, post: string)
    requires '?' !in pre && KeysOk(ks) && |ks| > 0
    requires post == [] || IsSpace(post[0])
    ensures FindTemplate(pre + Template(ks) + post) == Some(Template(ks))
  {
    TemplateIsOneWord(ks);
    FindTemplateAfter(pre, Template(ks), post);
  }

  /** The rest of the fragments after position `i > 0` is empty or opens with '&'. */
  lemma FragsOpenWithAmp(ks: seq<string>, fills: seq<Option<string>>, i: nat)
    requires |fills| == |ks| && 0 < i <= |ks|
    ensures Frags(ks, fills, i) == [] || Frags(ks, fills, i)[0] == '&'
  {
  }

  /** The scan removes an unfilled fragment. */
  lemma StripUnfilled(i: nat, k: string, y: string)
    requires AllAz(k) && |k| > 0
    ensures StripFragments(Frag(i, k, None) + y) == StripFragments(y)
  {
    assert '}' !in k by {
      forall j | 0 <= j < |k|
        ensures k[j] != '}'
      {
        assert IsAz(k[j]);
      }
    }
    assert Frag(i, k, None) + y == FragmentText(Sep(i), k, k) + y;
    StripDropsFragment(Sep(i), k, k, y);
  }

  /** The scan keeps a filled fragment followed by the next fragment's '&' or by the end. */
  lemma StripFilled(i: nat, k: string, v: string, y: string)
    requires AllAz(k) && '{' !in v && (y == [] || y[0] == '&')
    ensures StripFragments(Frag(i, k, Some(v)) + y) == Frag(i, k, Some(v)) + StripFragments(y)
  {
    FrontBraceFree(i, k);
    assert Frag(i, k, Some(v)) == (Sep(i) + k + "=") + v;
    StripKeepsBraceFree(Frag(i, k, Some(v)), y);
  }

  /** One fragment more: if the scan turns fragments `i + 1..` into the ones kept there, it turns
      fragments `i..` into the ones kept there, dropping fragment `i` when unfilled. */
  lemma StripFragsStep(ks: seq<string>, fills: seq<Option<string>>, i: nat)
    requires KeysOk(ks) && |fills| == |ks| && i < |ks| && BraceFreeFills(fills)
    requires StripFragments(Frags(ks, fills, i + 1)) == Kept(ks, fills, i + 1)
    ensures StripFragments(Frags(ks, fills, i)) == Kept(ks, fills, i)
  {
    var y := Frags(ks, fills, i + 1);
    assert Frags(ks, fills, i) == Frag(i, ks[i], fills[i]) + y;
    assert AllAz(ks[i]) && |ks[i]| > 0;
    match fills[i]
    case None =>
      StripUnfilled(i, ks[i], y);
    case Some(v) =>
      assert '{' !in v;
      FragsOpenWithAmp(ks, fills, i + 1);
      StripFilled(i, ks[i], v, y);
  }

  /** The scan removes every unfilled fragment of `?k0=...&k1=...` and keeps every filled one. */
  lemma {:induction false} StripFrags(ks: seq<string>, fills: seq<Option<string>>, i: nat)
    requires KeysOk(ks) && |fills| == |ks| && i <= |ks| && BraceFreeFills(fills)
    ensures StripFragments(Frags(ks, fills, i)) == Kept(ks, fills, i)
    decreases |ks| - i, 1
  {
    if i == |ks| {
      assert Frags(ks, fills, i) == [];
    } else {
      StripFragsFrom(ks, fills, i);
    }
  }

  /** `StripFrags` for a non-empty run of fragments. */
  lemma {:induction false} StripFragsFrom(ks: seq<string>, fills: seq<Option<string>>, i: nat)
    requires KeysOk(ks) && |fills| == |ks| && i < |ks| && BraceFreeFills(fills)
    ensures StripFragments(Frags(ks, fills, i)) == Kept(ks, fills, i)
    decreases |ks| - i, 0
  {
    StripFrags(ks, fills, i + 1);
    StripFragsStep(ks, fills, i);
  }

  /** `formatQuery` over notes whose template is `?k0={k0}&k1={k1}...`: the query string keeps, in
      template order, exactly the fragments whose key the query object supplies, each with its
      value; a fragment keeps its leading '&' even when every fragment before it was removed. */
  lemma FormatQueryKeepsSupplied(notes: string, ks: seq<string>, entries: seq<(string, string)>)
    requires FindTemplate(notes) == Some(Template(ks))
    requires KeysOk(ks) && EntriesOk(entries)
    ensures FormatQuery(Some(Obj(entries)), notes) == Success("?" + Kept(ks, FillsFor(ks, entries), 0))
  {
    var fills := FillsFor(ks, entries);
    FillTemplate(ks, entries);
    FillsBraceFree(ks, entries);
    StripKeepsQuestionMark(Frags(ks, fills, 0));
    StripFrags(ks, fills, 0);
  }

  /** With every fragment filled, every fragment is kept. */
  lemma {:induction false} KeptAll(ks: seq<string>, fills: seq<Option<string>>, i: nat)
    requires |fills| == |ks| && i <= |ks|
    requires forall j :: i <= j < |ks| ==> fills[j].Some?
    ensures Kept(ks, fills, i) == Frags(ks, fills, i)
    decreases |ks| - i
  {
    if i < |ks| {
      KeptAll(ks, fills, i + 1);
      var f := Frag(i, ks[i], fills[i]);
      assert fills[i].Some?;
      assert Kept(ks, fills, i) == f + Kept(ks, fills, i + 1);
    }
  }

  /** When the query object supplies every documented key, the query string is the template with
      every placeholder replaced. */
  lemma AllSuppliedFillsTemplate(notes: string, ks: seq<string>, entries: seq<(string, string)>)
    requires FindTemplate(notes) == Some(Template(ks)) && KeysOk(ks) && EntriesOk(entries)
    requires forall k :: k in ks ==> FirstValue(entries, k).Some?
    ensures FormatQuery(Some(Obj(entries)), notes) == Success(FillQuery(Template(ks), entries))
  {
    var f := FillsFor(ks, entries);
    assert forall j :: 0 <= j < |ks| ==> ks[j] in ks;
    KeptAll(ks, f, 0);
    FormatQueryKeepsSupplied(notes, ks, entries);
    FillTemplate(ks, entries);
  }

  /** A missing first key with a supplied second one leaves the second fragment's '&' right after
      the '?'. */
  lemma MissingFirstKeepsAmpersand(notes: string, ks: seq<string>, entries: seq<(string, string)>, v: string)
    requires FindTemplate(notes) == Some(Template(ks)) && KeysOk(ks) && EntriesOk(entries)
    requires |ks| >= 2 && FirstValue(entries, ks[0]) == None && FirstValue(entries, ks[1]) == Some(v)
    ensures FormatQuery(Some(Obj(entries)), notes)
            == Success("?" + ("&" + ks[1] + "=" + v) + Kept(ks, FillsFor(ks, entries), 2))
  {
    var f := FillsFor(ks, entries);
    FormatQueryKeepsSupplied(notes, ks, entries);
    KeptSkipsFirst(ks, f, v);
  }

  lemma KeptSkipsFirst(ks: seq<string>, f: seq<Option<string>>, v: string)
    requires |f| == |ks| >= 2 && f[0] == None && f[1] == Some(v)
    ensures "?" + Kept(ks, f, 0) == "?" + ("&" + ks[1] + "=" + v) + Kept(ks, f, 2)
  {
    assert Kept(ks, f, 0) == Kept(ks, f, 1);
    assert Kept(ks, f, 1) == ("&" + ks[1] + "=" + v) + Kept(ks, f, 2);
  }

  lemma {:induction false} KeptNothing(ks: seq<string>, i: nat)
    requires i <= |ks|
    ensures Kept(ks, Unfilled(|ks|), i) == ""
    decreases |ks| - i
  {
    if i < |ks| {
      KeptNothing(ks, i + 1);
    }
  }

  /** An empty query object leaves only the '?' of any template of the documented shape. */
  lemma EmptyQueryLeavesQuestionMark(notes: string, ks: seq<string>)
    requires FindTemplate(notes) == Some(Template(ks)) && KeysOk(ks)
    ensures FormatQuery(Some(Obj([])), notes) == Success("?")
  {
    assert FillsFor(ks, []) == Unfilled(|ks|);
    FormatQueryKeepsSupplied(notes, ks, []);
    KeptNothing(ks, 0);
    assert Kept(ks, FillsFor(ks, []), 0) == "";
    assert "?" + "" == "?";
  }

  /** Notes without a '?'-word make a call with a query object throw. */
  lemma NoTemplateThrows(notes: string, q: Obj)
    requires '?' !in notes
    ensures FormatQuery(Some(q), notes) == Failure(NoQueryTemplate)
  {
    var _ := FindTemplateMeaning(notes);
    assert forall j :: 0 <= j < |notes| ==> notes[j] in notes;
  }
}
