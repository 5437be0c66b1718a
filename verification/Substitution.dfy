/** `substVars` of `configurator.cxx`: `${name}` in configuration values, without recursive expansion. */
module Substitution {
  import opened Options

  /** `pattern.find ("${", from)`, or -1. */
  function FindOpen(s: string, from: nat): (p: int)
    requires from <= |s|
    ensures p == -1 || (from <= p < |s| - 1 && OpenAt(s, p))
    ensures forall q :: from <= q < (if p == -1 then |s| else p) ==> !OpenAt(s, q)
    decreases |s| - from
  {
    if |s| < from + 2 then -1
    else if OpenAt(s, from) then from
    else FindOpen(s, from + 1)
  }

  predicate OpenAt(s: string, p: nat) {
    p + 1 < |s| && s[p] == '$' && s[p + 1] == '{'
  }

  /** `pattern.find ("}", from)`, or -1. */
  function FindClose(s: string, from: nat): (p: int)
    requires from <= |s|
    ensures p == -1 || (from <= p < |s| && s[p] == '}')
    ensures forall q :: from <= q < (if p == -1 then |s| else p) ==> s[q] != '}'
    decreases |s| - from
  {
    if from == |s| then -1
    else if s[from] == '}' then from
    else FindClose(s, from + 1)
  }

  /** Where values come from, and the two flags that matter here. */
  datatype Source = Source(props: string -> string, env: string -> Option<string>, emptyVars: bool, shadowEnv: bool)

  /** The value of a variable; missing when the variable is to be left as it is. */
  function Lookup(src: Source, key: string): Option<string> {
    var fromProps := if src.shadowEnv then src.props(key) else "";
    var value := if !src.shadowEnv || (!src.emptyVars && fromProps == "") then
                   match src.env(key)
                   case Some(v) => v
                   case None => fromProps
                 else fromProps;
    if src.emptyVars || value != "" then Some(value) else None
  }

  /** Left-to-right expansion: text that was put in is never looked at again. None if a `${` is not closed. */
  function Expand(src: Source, s: string): Option<(string, bool)>
    decreases |s|
  {
    var p := FindOpen(s, 0);
    if p == -1 then Some((s, false))
    else
      var e := FindClose(s, p);
      if e == -1 then None
      else
        match Expand(src, s[e + 1..])
        case None => None
        case Some((rest, changed)) =>
          assert e >= p + 2;
          match Lookup(src, s[p + 2..e])
          case Some(value) => Some((s[..p] + value + rest, true))
          case None => Some((s[..e + 1] + rest, changed))
  }

  /** A `${` with no `}` anywhere behind it. */
  predicate Unclosed(s: string) {
    exists p :: 0 <= p < |s| && OpenAt(s, p) && '}' !in s[p..]
  }

  /** The expansion fails exactly if some `${` has no `}` behind it. */
  lemma {:induction false} ExpandFailsIff(src: Source, s: string)
    ensures Expand(src, s) == None <==> Unclosed(s)
    decreases |s|
  {
    hide Lookup;
    var p := FindOpen(s, 0);
    if p != -1 {
      var e := FindClose(s, p);
      if e == -1 {
        assert '}' !in s[p..];
      } else {
        ExpandFailsIff(src, s[e + 1..]);
        UnclosedBehind(s, p, e);
      }
    }
  }

  lemma UnclosedBehind(s: string, p: nat, e: nat)
    requires p < e < |s| && s[e] == '}' && OpenAt(s, p)
    requires forall q :: 0 <= q < p ==> !OpenAt(s, q)
    ensures Unclosed(s) <==> Unclosed(s[e + 1..])
  {
    var rest := s[e + 1..];
    if Unclosed(s) {
      var q :| 0 <= q < |s| && OpenAt(s, q) && '}' !in s[q..];
      assert forall j :: q <= j < |s| ==> s[j] in s[q..];
      assert OpenAt(rest, q - (e + 1)) && rest[q - (e + 1)..] == s[q..];
    }
    if Unclosed(rest) {
      var q :| 0 <= q < |rest| && OpenAt(rest, q) && '}' !in rest[q..];
      assert OpenAt(s, q + e + 1) && rest[q..] == s[q + e + 1..];
    }
  }

  /** Searching a pattern from the end of its finished part on is searching what remains of it. */
  lemma {:induction false} FindOpenShift(done: string, rest: string, from: nat)
    requires from <= |rest|
    ensures FindOpen(done + rest, |done| + from) ==
            if FindOpen(rest, from) == -1 then -1 else |done| + FindOpen(rest, from)
    decreases |rest| - from
  {
    if from + 2 <= |rest| && !OpenAt(rest, from) {
      FindOpenShift(done, rest, from + 1);
    }
  }

  lemma {:induction false} FindCloseShift(done: string, rest: string, from: nat)
    requires from <= |rest|
    ensures FindClose(done + rest, |done| + from) ==
            if FindClose(rest, from) == -1 then -1 else |done| + FindClose(rest, from)
    decreases |rest| - from
  {
    if from < |rest| && rest[from] != '}' {
      FindCloseShift(done, rest, from + 1);
    }
  }

  /** The answer for `rest` with `done` in front and `changed` already known. */
  ghost function Answer(src: Source, done: string, rest: string, changed: bool, val: string): (string, bool) {
    match Expand(src, rest)
    case None => (val, false)
    case Some((text, more)) => (done + text, changed || more)
  }

  /** A variable found in `rest` moves the finished part behind its value, or behind itself. */
  lemma AnswerStep(src: Source, done: string, rest: string, changed: bool, val: string, p: nat, e: nat)
    requires FindOpen(rest, 0) == p && FindClose(rest, p) == e
    ensures p + 2 <= e < |rest|
    ensures match Lookup(src, rest[p + 2..e])
      case Some(value) =>
        Answer(src, done + rest[..p] + value, rest[e + 1..], true, val) == Answer(src, done, rest, changed, val)
      case None =>
        Answer(src, done + rest[..e + 1], rest[e + 1..], changed, val) == Answer(src, done, rest, changed, val)
  {
    hide Lookup;
    assert e >= p + 2;
    var tail, before := Expand(src, rest[e + 1..]), Expand(src, rest);
    assert tail == None ==> before == None;
    if tail.Some? {
      match Lookup(src, rest[p + 2..e])
      case Some(value) =>
        assert before == Some((rest[..p] + value + tail.value.0, true));
        hide Expand, FindOpen, FindClose;
        Regroup(done, rest[..p], value, tail.value.0);
      case None =>
        assert before == Some((rest[..e + 1] + tail.value.0, tail.value.1));
        hide Expand, FindOpen, FindClose;
        Regroup(done, rest[..e + 1], "", tail.value.0);
    }
  }

  lemma Regroup(done: string, x: string, y: string, z: string)
    ensures done + x + y + z == done + (x + y + z)
    ensures y == "" ==> done + x + z == done + (x + z)
  {
  }

  /** `pattern` is a finished part of length `i` and what remains, and its answer is that for `val`. */
  ghost predicate Holds(src: Source, val: string, pattern: string, i: int, changed: bool, done: string, rest: string) {
    i == |done| && pattern == done + rest && Answer(src, done, rest, changed, val) == Answer(src, "", val, false, val)
  }

  /** One turn of the loop. */
  lemma Turn(src: Source, val: string, pattern: string, i: int, changed: bool, done: string, rest: string)
    returns (done': string, rest': string)
    requires Holds(src, val, pattern, i, changed, done, rest)
    ensures 0 <= i <= |pattern|
    ensures var start := FindOpen(pattern, i);
      if start == -1 then Answer(src, "", val, false, val) == (pattern, changed)
      else
        var end := FindClose(pattern, start);
        if end == -1 then Answer(src, "", val, false, val) == (val, false)
        else
          start + 2 <= end < |pattern| && |rest'| < |rest| &&
          var (pattern', i', found) := Replaced(src, pattern, start, end);
          Holds(src, val, pattern', i', changed || found, done', rest')
  {
    done', rest' := done, rest;
    hide Lookup, Expand, Answer, FindOpen, FindClose;
    FindOpenShift(done, rest, 0);
    var p := FindOpen(rest, 0);
    if p == -1 {
      AnswerEnd(src, done, rest, changed, val);
    } else {
      FindCloseShift(done, rest, p);
      var e := FindClose(rest, p);
      if e == -1 {
        AnswerEnd(src, done, rest, changed, val);
      } else {
        assert e >= p + 2;
        AnswerStep(src, done, rest, changed, val, p, e);
        Slices(done, rest, p, e);
        rest' := rest[e + 1..];
        match Lookup(src, rest[p + 2..e])
        case Some(value) => done' := done + rest[..p] + value;
        case None => done' := done + rest[..e + 1];
      }
    }
  }

  /** The pattern after the variable from `start` to `end` was replaced or left as it is, where to go on,
      and whether it was replaced. */
  function Replaced(src: Source, pattern: string, start: nat, end: nat): (string, nat, bool)
    requires start + 2 <= end < |pattern|
  {
    match Lookup(src, pattern[start + 2..end])
    case Some(value) => (pattern[..start] + value + pattern[end + 1..], start + |value|, true)
    case None => (pattern, end + 1, false)
  }

  method ReplaceVariable(src: Source, pattern: string, start: nat, end: nat)
    returns (pattern': string, i: nat, found: bool)
    requires start + 2 <= end < |pattern|
    ensures (pattern', i, found) == Replaced(src, pattern, start, end)
  {
    hide Lookup;
    var replacement := Lookup(src, pattern[start + 2..end]);
    if replacement.Some? {
      return pattern[..start] + replacement.value + pattern[end + 1..], start + |replacement.value|, true;
    }
    return pattern, end + 1, false;
  }

  /** `substVars`: all or nothing. */
  method SubstVars(val: string, src: Source) returns (dest: string, changed: bool)
    ensures Unclosed(val) ==> dest == val && !changed
    ensures !Unclosed(val) ==> Expand(src, val) == Some((dest, changed))
  {
    var i := 0;
    var pattern := val;
    changed := false;
    ghost var done, rest := "", val;
    assert Holds(src, val, pattern, i, changed, done, rest);
    hide Lookup, Unclosed, Expand, Answer, FindOpen, FindClose, Holds, Replaced;
    while true
      invariant Holds(src, val, pattern, i, changed, done, rest)
      decreases |rest|
    {
      ghost var done', rest' := Turn(src, val, pattern, i, changed, done, rest);
      var varStart := FindOpen(pattern, i);
      if varStart == -1 {
        AnswerWhole(src, val, pattern, changed);
        return pattern, changed;
      }
      var varEnd := FindClose(pattern, varStart);
      if varEnd == -1 {
        AnswerWhole(src, val, val, false);
        return val, false;
      }
      var found;
      pattern, i, found := ReplaceVariable(src, pattern, varStart, varEnd);
      changed := changed || found;
      done, rest := done', rest';
    }
  }

  /** The pieces around a variable, cut from the pattern and cut from what remains of it. */
  lemma Slices(done: string, rest: string, p: nat, e: nat)
    requires p + 2 <= e < |rest|
    ensures var s, i := done + rest, |done|;
      && s[..i + p] == done + rest[..p] && s[i + p + 2..i + e] == rest[p + 2..e]
      && s[i + e + 1..] == rest[e + 1..] && s == done + rest[..e + 1] + rest[e + 1..]
  {
  }

  lemma AnswerWhole(src: Source, val: string, dest: string, changed: bool)
    requires Answer(src, "", val, false, val) == (dest, changed)
    ensures Unclosed(val) ==> dest == val && !changed
    ensures !Unclosed(val) ==> Expand(src, val) == Some((dest, changed))
  {
    ExpandFailsIff(src, val);
    hide Unclosed;
    var r := Expand(src, val);
    if r.Some? {
      assert "" + r.value.0 == r.value.0;
    }
  }

  /** Nothing more to expand, or a `${` that is not closed. */
  lemma AnswerEnd(src: Source, done: string, rest: string, changed: bool, val: string)
    requires FindOpen(rest, 0) == -1 || FindClose(rest, FindOpen(rest, 0)) == -1
    ensures Answer(src, done, rest, changed, val) ==
            if FindOpen(rest, 0) == -1 then (done + rest, changed) else (val, false)
  {
  }

  // ----- what a variable is replaced by

  /** The value of a variable: with the flag for it, a property that is not empty goes before the environment,
      and an empty one too if empty values are allowed; without it, only the environment counts. */
  ghost predicate Gives(src: Source, key: string, value: Option<string>) {
    && (src.shadowEnv && src.props(key) != "" ==> value == Some(src.props(key)))
    && (src.shadowEnv && src.props(key) == "" && src.emptyVars ==> value == Some(""))
    && (src.shadowEnv && src.props(key) == "" && !src.emptyVars ==> value == Filled(src.env(key)))
    && (!src.shadowEnv && src.emptyVars ==> value == if src.env(key).Some? then src.env(key) else Some(""))
    && (!src.shadowEnv && !src.emptyVars ==> value == Filled(src.env(key)))
  }

  /** An empty value counts as none. */
  function Filled(value: Option<string>): Option<string> {
    if value == Some("") then None else value
  }

  lemma LookupGives(src: Source, key: string)
    ensures Gives(src, key, Lookup(src, key))
  {
  }

  ghost predicate NoVariable(s: string) {
    forall i :: 0 <= i < |s| - 1 && s[i] == '$' ==> s[i + 1] != '{'
  }

  /** Text without variables stays as it is. */
  lemma ExpandPlain(src: Source, s: string)
    requires NoVariable(s)
    ensures Expand(src, s) == Some((s, false))
  {
  }

  /** A variable behind text without any: text, value and expanded rest; or all as it was and the expanded rest. */
  lemma ExpandVariable(src: Source, pre: string, key: string, rest: string) returns (value: Option<string>)
    requires NoVariable(pre) && '}' !in key
    ensures Gives(src, key, value)
    ensures var s := pre + "${" + key + "}" + rest;
      match Expand(src, rest)
      case None => Expand(src, s) == None
      case Some((text, changed)) =>
        if value.Some? then Expand(src, s) == Some((pre + value.value + text, true))
        else Expand(src, s) == Some((pre + "${" + key + "}" + text, changed))
  {
    value := Lookup(src, key);
    LookupGives(src, key);
    var s := Spliced(pre, key, rest);
    Pieces(pre, key, rest);
    VariableFound(pre, key, rest);
    hide Lookup, Gives, FindOpen, FindClose, Spliced;
    var after := Expand(src, rest);
    assert Expand(src, s) ==
      match after
      case None => None
      case Some((text, changed)) =>
        match value
        case Some(v) => Some((pre + v + text, true))
        case None => Some((s[..|pre| + 2 + |key| + 1] + text, changed));
  }

  ghost function Spliced(pre: string, key: string, rest: string): string {
    pre + "${" + key + "}" + rest
  }

  lemma Pieces(pre: string, key: string, rest: string)
    ensures var s, p, e := Spliced(pre, key, rest), |pre|, |pre| + 2 + |key|;
      && |s| == e + 1 + |rest| && s[..p] == pre && s[p] == '$' && s[p + 1] == '{' && s[p + 2..e] == key
      && s[e] == '}' && s[..e + 1] == pre + "${" + key + "}" && s[e + 1..] == rest
  {
  }

  lemma VariableFound(pre: string, key: string, rest: string)
    requires NoVariable(pre) && '}' !in key
    ensures var s := Spliced(pre, key, rest);
      FindOpen(s, 0) == |pre| && FindClose(s, |pre|) == |pre| + 2 + |key|
  {
    var s := Spliced(pre, key, rest);
    var p, e := |pre|, |pre| + 2 + |key|;
    Pieces(pre, key, rest);
    hide Spliced, FindOpen, FindClose;
    forall q | 0 <= q < p ensures !OpenAt(s, q) {
      assert s[q] == s[..p][q] == pre[q];
      assert q + 1 < p ==> s[q + 1] == s[..p][q + 1] == pre[q + 1];
    }
    forall q | p <= q < e ensures s[q] != '}' {
      assert q >= p + 2 ==> s[q] == s[p + 2..e][q - p - 2];
    }
    assert OpenAt(s, p);
  }

  /** `substVars` of a single variable. */
  method SubstVariable(key: string, src: Source) returns (dest: string, changed: bool)
    requires '}' !in key
    ensures src.shadowEnv && src.props(key) != "" ==> dest == src.props(key) && changed
    ensures src.shadowEnv && src.props(key) == "" && src.emptyVars ==> dest == "" && changed
    ensures (!src.shadowEnv || src.props(key) == "") && !src.emptyVars ==>
      match src.env(key)
      case Some(value) => if value != "" then dest == value && changed else dest == "${" + key + "}" && !changed
      case None => dest == "${" + key + "}" && !changed
    ensures !src.shadowEnv && src.emptyVars ==>
      dest == (match src.env(key) case Some(value) => value case None => "") && changed
  {
    ghost var value := ExpandSingle(src, key);
    var val := "${" + key + "}";
    hide Expand, Unclosed;
    dest, changed := SubstVars(val, src);
  }

  lemma ExpandSingle(src: Source, key: string) returns (value: Option<string>)
    requires '}' !in key
    ensures Gives(src, key, value)
    ensures var val := "${" + key + "}";
      && !Unclosed(val)
      && Expand(src, val) == Some(if value.Some? then (value.value, true) else (val, false))
  {
    var val := "${" + key + "}";
    var whole := "" + "${" + key + "}" + "";
    assert whole == val;
    ExpandFailsIff(src, val);
    ExpandPlain(src, "");
    hide Expand, Unclosed, Gives;
    value := ExpandVariable(src, "", key, "");
    assert Expand(src, whole) == Expand(src, val);
    if value.Some? {
      Around(value.value);
    }
  }

  lemma Around(s: string)
    ensures "" + s + "" == s
  {
  }
}
