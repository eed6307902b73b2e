/**
 * The `.env` loader run at start-up (`lib.rs`, inside `setup`): every line is
 * trimmed, blank lines and `#` comments are skipped, the rest is split at its
 * first '=' and `std::env::set_var(key.trim(), value.trim())` is called.
 * The process environment is a map; `set_var`'s panic on an empty key or a
 * NUL character is an outcome of its own.
 */
module EnvLoader {
  import opened Wrappers
  import opened Text

  /** What one line of the file asks for. */
  datatype LineAction = Skip | Assign(key: string, value: string)

  /** The environment after loading, or the assignment on which `set_var` panicked. */
  datatype Loaded = Env(vars: map<string, string>) | Panicked(key: string, value: string)

  /** `str::split_once`: the text before and after the first `c`. */
  function SplitOnce(s: string, c: char): (r: Option<(string, string)>)
    ensures r.None? <==> c !in s
    ensures r.Some? ==> s == r.value.0 + [c] + r.value.1 && c !in r.value.0
  {
    var e := IndexOfCharFrom(s, c, 0);
    if e == |s| then None
    else
      assert s == s[..e] + [c] + s[e + 1..];
      assert forall i :: 0 <= i < e ==> s[..e][i] == s[i];
      Some((s[..e], s[e + 1..]))
  }

  /** The loop body's decision for one line. */
  function Classify(line: string): LineAction {
    var t := Trim(line);
    if t == [] || t[0] == '#' then Skip
    else
      match SplitOnce(t, '=')
      case None => Skip
      case Some((k, v)) => Assign(Trim(k), Trim(v))
  }

  /** `std::env::set_var` panics on an empty key or on a NUL in the key or the value (the key never holds '='). */
  predicate SetVarPanics(key: string, value: string) {
    key == [] || '\0' in key || '\0' in value
  }

  /** One pass of the loop, on the line's decision. */
  function Step(state: Loaded, a: LineAction): Loaded {
    match state
    case Panicked(_, _) => state
    case Env(vars) =>
      match a
      case Skip => state
      case Assign(k, v) => if SetVarPanics(k, v) then Panicked(k, v) else Env(vars[k := v])
  }

  /** The decisions for a list of lines, in order. */
  function Actions(lines: seq<string>): (r: seq<LineAction>)
    ensures |r| == |lines|
    ensures forall i {:trigger r[i]} :: 0 <= i < |lines| ==> r[i] == Classify(lines[i])
  {
    seq(|lines|, i requires 0 <= i < |lines| => Classify(lines[i]))
  }

  /** The decisions applied in order, from a given state. */
  function Run(state: Loaded, actions: seq<LineAction>): Loaded {
    if actions == [] then state
    else Step(Run(state, actions[..|actions| - 1]), actions[|actions| - 1])
  }

  /** The environment after loading `content` into the variables already set. */
  function LoadEnv(vars: map<string, string>, content: string): Loaded {
    Run(Env(vars), Actions(Lines(content)))
  }

  /** Deciding line by line commutes with cutting the list. */
  lemma ActionsAppend(a: seq<string>, b: seq<string>)
    ensures Actions(a + b) == Actions(a) + Actions(b)
  {
    assert forall i :: 0 <= i < |a + b| ==> (a + b)[i] == if i < |a| then a[i] else b[i - |a|];
  }

  /**
   * The loading step of `setup`: `content` is the `.env` text, `None` when the
   * configuration directory, the file or its text is unavailable.
   */
  method LoadEnvFile(content: Option<string>, vars0: map<string, string>) returns (outcome: Loaded)
    ensures content.None? ==> outcome == Env(vars0)
    ensures content.Some? ==> outcome == LoadEnv(vars0, content.value)
  {
    if content.None? {
      return Env(vars0);
    }
    var lines := Lines(content.value);
    var vars := vars0;
    for k := 0 to |lines|
      invariant Run(Env(vars0), Actions(lines[..k])) == Env(vars)
    {
      RunNextLine(vars0, lines, k);
      var line := Trim(lines[k]);
      if line == [] || line[0] == '#' {
        continue;
      }
      match SplitOnce(line, '=') {
        case Some((key, value)) =>
          var key', value' := Trim(key), Trim(value);
          if SetVarPanics(key', value') {
            PanicEndsLoad(vars0, lines, k + 1);
            return Panicked(key', value');
          }
          vars := vars[key' := value'];
        case None =>
      }
    }
    assert lines[..|lines|] == lines;
    outcome := Env(vars);
  }

  /** The loop's step: one more line is one more decision applied. */
  lemma RunNextLine(vars: map<string, string>, lines: seq<string>, k: nat)
    requires k < |lines|
    ensures Run(Env(vars), Actions(lines[..k + 1])) == Step(Run(Env(vars), Actions(lines[..k])), Classify(lines[k]))
  {
    ActionsAppend(lines[..k], [lines[k]]);
    assert lines[..k] + [lines[k]] == lines[..k + 1];
    var done := Actions(lines[..k]);
    assert Actions(lines[..k + 1]) == done + [Classify(lines[k])];
    assert (done + [Classify(lines[k])])[..|done|] == done;
  }

  /** A panic on a line ends the load: the lines after it are never read. */
  lemma PanicEndsLoad(vars: map<string, string>, lines: seq<string>, k: nat)
    requires k <= |lines| && Run(Env(vars), Actions(lines[..k])).Panicked?
    ensures Run(Env(vars), Actions(lines)) == Run(Env(vars), Actions(lines[..k]))
  {
    ActionsAppend(lines[..k], lines[k..]);
    assert lines[..k] + lines[k..] == lines;
    RunAppend(Env(vars), Actions(lines[..k]), Actions(lines[k..]));
    var p := Run(Env(vars), Actions(lines[..k]));
    PanicSticks(p.key, p.value, Actions(lines[k..]));
  }

  // ------------------------------------------------------------ fold algebra

  /** Loading two pieces one after the other is loading them together. */
  lemma {:induction false} RunAppend(state: Loaded, a: seq<LineAction>, b: seq<LineAction>)
    ensures Run(state, a + b) == Run(Run(state, a), b)
    decreases |b|
  {
    if b == [] {
      assert a + b == a;
    } else {
      assert (a + b)[..|a + b| - 1] == a + b[..|b| - 1];
      assert (a + b)[|a + b| - 1] == b[|b| - 1];
      RunAppend(state, a, b[..|b| - 1]);
    }
  }

  /** After a panic nothing else runs. */
  lemma {:induction false} PanicSticks(key: string, value: string, actions: seq<LineAction>)
    ensures Run(Panicked(key, value), actions) == Panicked(key, value)
  {
    if actions != [] {
      PanicSticks(key, value, actions[..|actions| - 1]);
    }
  }

  /** Once a prefix of the lines panics, the whole load ends in that panic. */
  lemma PanicPrefix(state: Loaded, a: seq<LineAction>, b: seq<LineAction>)
    ensures Run(state, a).Panicked? ==> Run(state, a + b) == Run(state, a)
  {
    RunAppend(state, a, b);
    var s := Run(state, a);
    if s.Panicked? {
      PanicSticks(s.key, s.value, b);
    }
  }

  // ------------------------------------------------------------ line rules

  /** Blank lines, comments and lines without '=' leave the environment as it was. */
  lemma SkippedLine(vars: map<string, string>, line: string)
    requires Trim(line) == [] || Trim(line)[0] == '#' || '=' !in Trim(line)
    ensures Step(Env(vars), Classify(line)) == Env(vars)
  {
  }

  /**
   * An assignment splits the trimmed line at its first '=': the key holds no
   * '=', the value may, and both are trimmed again.
   */
  lemma AssignmentShape(line: string) returns (k: string, v: string)
    requires Classify(line).Assign?
    ensures Trim(line) == k + "=" + v && '=' !in k
    ensures Classify(line) == Assign(Trim(k), Trim(v))
  {
    var t := Trim(line);
    k, v := SplitOnce(t, '=').value.0, SplitOnce(t, '=').value.1;
  }

  /** An action that assigns `key`. */
  predicate AssignsKey(a: LineAction, key: string) {
    a.Assign? && a.key == key
  }

  /** The state with one variable overridden (a panic stays a panic). */
  function Override(state: Loaded, key: string, value: string): Loaded {
    match state
    case Env(vars) => Env(vars[key := value])
    case Panicked(_, _) => state
  }

  /** Lines that do not assign `key` treat it the same whatever its value was. */
  lemma {:induction false} RunOverride(vars: map<string, string>, actions: seq<LineAction>, key: string, value: string)
    requires forall a :: a in actions ==> !AssignsKey(a, key)
    ensures Run(Env(vars[key := value]), actions) == Override(Run(Env(vars), actions), key, value)
  {
    if actions != [] {
      var init := actions[..|actions| - 1];
      assert forall a :: a in init ==> a in actions;
      RunOverride(vars, init, key, value);
      var last := actions[|actions| - 1];
      assert last in actions;
      match Run(Env(vars), init)
      case Panicked(_, _) =>
      case Env(m) =>
        match last
        case Skip =>
        case Assign(k, v) =>
          if !SetVarPanics(k, v) {
            assert m[key := value][k := v] == m[k := v][key := value];
          }
    }
  }

  /** The last assignment to a key decides its value, whatever came before. */
  lemma LastAssignmentWins(vars: map<string, string>, before: seq<LineAction>, k: string, v: string, after: seq<LineAction>)
    requires !SetVarPanics(k, v)
    requires forall a :: a in after ==> !AssignsKey(a, k)
    requires Run(Env(vars), before + [Assign(k, v)] + after).Env?
    ensures k in Run(Env(vars), before + [Assign(k, v)] + after).vars
    ensures Run(Env(vars), before + [Assign(k, v)] + after).vars[k] == v
  {
    RunAppend(Env(vars), before + [Assign(k, v)], after);
    assert (before + [Assign(k, v)])[..|before + [Assign(k, v)]| - 1] == before;
    match Run(Env(vars), before)
    case Panicked(k', v') =>
      PanicSticks(k', v', after);
    case Env(m) =>
      assert m[k := v][k := v] == m[k := v];
      RunOverride(m[k := v], after, k, v);
  }

  /** One more assignment at the end sets the key (a panic stays a panic). */
  lemma AppendAssignment(state: Loaded, before: seq<LineAction>, key: string, value: string)
    requires !SetVarPanics(key, value)
    ensures Run(state, before + [Assign(key, value)]) == Override(Run(state, before), key, value)
  {
    assert (before + [Assign(key, value)])[..|before|] == before;
  }

  /**
   * Putting an assignment to `key` in the place of another one is loading as
   * before and then setting the key, when no later action assigns it and the
   * old actions load.
   */
  lemma ReplaceAssignment(vars: map<string, string>, before: seq<LineAction>, prev: LineAction, after: seq<LineAction>, key: string, value: string)
    requires AssignsKey(prev, key) && !SetVarPanics(key, value)
    requires forall a :: a in after ==> !AssignsKey(a, key)
    requires Run(Env(vars), before + [prev] + after).Env?
    ensures Run(Env(vars), before + [Assign(key, value)] + after) == Override(Run(Env(vars), before + [prev] + after), key, value)
  {
    var next := Assign(key, value);
    assert (before + [prev])[..|before|] == before && (before + [next])[..|before|] == before;
    RunAppend(Env(vars), before + [prev], after);
    RunAppend(Env(vars), before + [next], after);
    PanicPrefix(Env(vars), before + [prev], after);
    PanicPrefix(Env(vars), before, [prev] + after);
    assert before + [prev] + after == before + ([prev] + after);
    var m := Run(Env(vars), before).vars;
    RunOverride(m, after, key, prev.value);
    RunOverride(m, after, key, value);
    var rest := Run(Env(m), after);
    assert rest.vars[key := prev.value][key := value] == rest.vars[key := value];
  }

  /** A key nothing assigns keeps the value it had before loading. */
  lemma {:induction false} UnassignedKeyKept(vars: map<string, string>, actions: seq<LineAction>, key: string)
    requires forall a :: a in actions ==> !AssignsKey(a, key)
    requires Run(Env(vars), actions).Env?
    ensures key in Run(Env(vars), actions).vars <==> key in vars
    ensures key in vars ==> Run(Env(vars), actions).vars[key] == vars[key]
  {
    if actions != [] {
      var init := actions[..|actions| - 1];
      assert forall a :: a in init ==> a in actions;
      assert actions[|actions| - 1] in actions;
      if Run(Env(vars), init).Panicked? {
        PanicSticks(Run(Env(vars), init).key, Run(Env(vars), init).value, [actions[|actions| - 1]]);
      }
      UnassignedKeyKept(vars, init, key);
    }
  }
}
