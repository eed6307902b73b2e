/**
 * Writing a key with `update_env_var` and reading the file back with the
 * start-up loader of `lib.rs`. When the key and the value read back as
 * themselves and the key's first `KEY=` opens its own line with no later line
 * assigning the key, the loaded environment is the old one with the key set
 * to the new value, and nothing else changes.
 */
module EnvRoundTrip {
  import opened Wrappers
  import opened Text
  import opened Setup
  import opened EnvLoader

  /** A key the loader reads back as itself and `set_var` accepts. */
  predicate ValidKey(k: string) {
    k != [] && IsTrimmed(k) && k[0] != '#' && '=' !in k && '\n' !in k && '\0' !in k
  }

  /** A value the loader reads back as itself and `set_var` accepts. */
  predicate ValidValue(v: string) {
    IsTrimmed(v) && '\n' !in v && '\0' !in v
  }

  /** The first '=' of `key=rest` is the one after the key. */
  lemma SplitAfterKey(t: string, key: string, rest: string)
    requires '=' !in key && t == key + "=" + rest
    ensures SplitOnce(t, '=') == Some((key, rest))
  {
    forall i | 0 <= i < |key|
      ensures t[i] != '='
    {
      assert t[i] == key[i];
    }
    IndexOfCharIs(t, '=', 0, |key|);
    assert t[..|key|] == key && t[|key| + 1..] == rest;
  }

  /** A line whose trimmed text is `key=rest` assigns the trimmed `rest` to `key`. */
  lemma ClassifyKeyLine(line: string, key: string, rest: string)
    requires ValidKey(key) && Trim(line) == key + "=" + rest
    ensures Classify(line) == Assign(key, Trim(rest))
  {
    var t := Trim(line);
    assert t[0] == key[0];
    SplitAfterKey(t, key, rest);
    TrimIdempotent(key);
  }

  /** A line that starts with `key=` assigns `key`, whatever follows. */
  lemma LineWithKeyAssignsKey(line: string, key: string)
    requires ValidKey(key) && StartsWith(line, key + "=")
    ensures AssignsKey(Classify(line), key)
  {
    assert line[0] == key[0] && line[|key|] == '=';
    assert TrimStart(line) == line;
    var t := TrimEnd(line);
    TrimEndKeeps(line, |key|);
    assert t[..|key| + 1] == key + "=";
    assert t == key + "=" + t[|key| + 1..];
    ClassifyKeyLine(line, key, t[|key| + 1..]);
  }

  /** The line `update_env_var` writes is read back as exactly that assignment. */
  lemma EntryAction(key: string, value: string)
    requires ValidKey(key) && ValidValue(value)
    ensures Classify(Entry(key, value)) == Assign(key, value)
    ensures !SetVarPanics(key, value)
  {
    EntryIsTrimmed(key, value);
    ClassifyKeyLine(Entry(key, value), key, value);
    TrimIdempotent(value);
  }

  /** The line `update_env_var` writes has no whitespace to trim. */
  lemma EntryIsTrimmed(key: string, value: string)
    requires ValidKey(key) && ValidValue(value)
    ensures Trim(Entry(key, value)) == Entry(key, value)
  {
    var e := Entry(key, value);
    assert e[0] == key[0];
    assert e[|e| - 1] == if value == [] then '=' else value[|value| - 1];
    assert !IsSpace(key[0]);
    assert IsTrimmed(e);
    TrimIdempotent(e);
  }

  /** Without an earlier `key=`, the update appends one line, so the load ends by setting the key. */
  lemma AppendThenLoad(vars: map<string, string>, c: string, key: string, value: string)
    requires ValidKey(key) && ValidValue(value)
    requires !Contains(c, key + "=")
    ensures LoadEnv(vars, UpdatedEnv(c, key, value)) == Override(LoadEnv(vars, c), key, value)
  {
    var e := Entry(key, value);
    EntryWithoutBreak(key, value);
    AppendAddsLine(c, key, value);
    ActionsAppend(Lines(c), [e]);
    EntryAction(key, value);
    AppendAssignment(Env(vars), Actions(Lines(c)), key, value);
  }

  /** The lines after the one that holds position `pos`. */
  function LinesAfterLine(c: string, pos: nat): seq<string>
    requires pos <= |c|
  {
    LinesAfter(c[LineEnd(c, pos)..])
  }

  /**
   * The condition on the old text: if it holds `key=`, the first occurrence
   * opens a line, and no line after that one assigns the key.
   */
  predicate RewritesOwnLine(c: string, key: string) {
    match Find(c, key + "=")
    case None => true
    case Some(pos) =>
      (pos == 0 || c[pos - 1] == '\n') &&
      forall l :: l in LinesAfterLine(c, pos) ==> !AssignsKey(Classify(l), key)
  }

  /** The decisions for some lines, one more line, and some more lines. */
  lemma ActionsAround(before: seq<string>, l: string, after: seq<string>)
    ensures Actions(before + [l] + after) == Actions(before) + [Classify(l)] + Actions(after)
  {
    ActionsAppend(before + [l], after);
    ActionsAppend(before, [l]);
  }

  /** The decisions for lines none of which assigns `key` assign nothing to `key`. */
  lemma ActionsAvoidKey(after: seq<string>, key: string)
    requires forall x :: x in after ==> !AssignsKey(Classify(x), key)
    ensures forall a :: a in Actions(after) ==> !AssignsKey(a, key)
  {
    var T := Actions(after);
    forall a | a in T
      ensures !AssignsKey(a, key)
    {
      var i :| 0 <= i < |T| && T[i] == a;
      assert after[i] in after;
    }
  }

  /**
   * With `key=` first at a line start, the text is the lines before, the line
   * that starts with `key=`, and the rest from its '\n' on; the update puts
   * the entry in the place of that line.
   */
  lemma KeyLineShape(c: string, key: string, value: string) returns (a: string, l: string, b: string)
    requires ValidKey(key) && '\n' !in value
    requires Contains(c, key + "=") && RewritesOwnLine(c, key)
    ensures c == a + l + b && UpdatedEnv(c, key, value) == a + Entry(key, value) + b
    ensures a == [] || a[|a| - 1] == '\n'
    ensures StartsWith(l, key + "=") && '\n' !in l
    ensures b == [] || b[0] == '\n'
    ensures forall x :: x in LinesAfter(b) ==> !AssignsKey(Classify(x), key)
  {
    var p := key + "=";
    EntryWithoutBreak(key, value);
    var pos, end := ReplaceShape(c, key, value);
    assert end >= pos + |p| by {
      assert forall i :: pos <= i < pos + |p| ==> c[i] == p[i - pos];
    }
    a, l, b := c[..pos], c[pos..end], c[end..];
    assert c == a + l + b;
    assert StartsWith(l, p) by {
      assert l[..|p|] == c[pos..pos + |p|];
    }
  }

  /** With `key=` first at a line start, the update rewrites that line, so the load sets the key there. */
  lemma ReplaceThenLoad(vars: map<string, string>, c: string, key: string, value: string)
    requires ValidKey(key) && ValidValue(value)
    requires Contains(c, key + "=") && RewritesOwnLine(c, key)
    requires LoadEnv(vars, c).Env?
    ensures LoadEnv(vars, UpdatedEnv(c, key, value)) == Override(LoadEnv(vars, c), key, value)
  {
    var e := Entry(key, value);
    EntryWithoutBreak(key, value);
    var a, l, b := KeyLineShape(c, key, value);
    LineWithKeyAssignsKey(l, key);
    EntryAction(key, value);
    LinesAround(a, l, b);
    LinesAround(a, e, b);
    var before, after := LinesBefore(a), LinesAfter(b);
    ActionsAround(before, l, after);
    ActionsAround(before, e, after);
    ActionsAvoidKey(after, key);
    ReplaceAssignment(vars, Actions(before), Classify(l), Actions(after), key, value);
  }

  /**
   * The round trip: after `update_env_var(c, key, value)` the loader sets
   * `key` to `value` and every other variable as loading `c` did.
   */
  lemma UpdateThenLoad(vars: map<string, string>, c: string, key: string, value: string)
    requires ValidKey(key) && ValidValue(value)
    requires RewritesOwnLine(c, key)
    requires LoadEnv(vars, c).Env?
    ensures LoadEnv(vars, UpdatedEnv(c, key, value)).Env?
    ensures LoadEnv(vars, UpdatedEnv(c, key, value)).vars == LoadEnv(vars, c).vars[key := value]
  {
    if Contains(c, key + "=") {
      ReplaceThenLoad(vars, c, key, value);
    } else {
      AppendThenLoad(vars, c, key, value);
    }
  }

  /**
   * A commented-out assignment holds the first `key=`, so the update rewrites
   * the comment in place and appends nothing.
   */
  lemma CommentedKeyRewritten(key: string, value: string)
    requires ValidKey(key) && '\n' !in value
    ensures UpdatedEnv("#" + key + "=x\n", key, value) == "#" + Entry(key, value) + "\n"
  {
    var p := key + "=";
    var c := "#" + key + "=x\n";
    assert c == "#" + (p + "x") + "\n";
    assert OccursAt(c, p, 1) by {
      assert c[1..1 + |p|] == p;
    }
    assert !OccursAt(c, p, 0) by {
      assert c[0] != p[0];
    }
    FindUnique(c, p, 1);
    forall i | 1 <= i < |c| - 1
      ensures c[i] != '\n'
    {
      assert c[i] == (p + "x")[i - 1];
    }
    IndexOfCharIs(c, '\n', 1, |c| - 1);
    assert c[..1] == "#" && c[|c| - 1..] == "\n";
  }

  /**
   * So the round trip fails for a text whose only `key=` is commented out:
   * after the update the file still sets nothing.
   */
  lemma CommentedKeyNotLoaded(vars: map<string, string>, key: string, value: string)
    requires ValidKey(key) && ValidValue(value)
    ensures LoadEnv(vars, UpdatedEnv("#" + key + "=x\n", key, value)) == Env(vars)
  {
    CommentedKeyRewritten(key, value);
    var l := "#" + Entry(key, value);
    CommentIsOneLine(key, value);
    CommentSkipped(key, value);
    assert Actions([l]) == [Skip];
    assert [Skip][..0] == [];
    assert Run(Env(vars), [Skip]) == Env(vars);
    assert LoadEnv(vars, l + "\n") == Run(Env(vars), Actions([l]));
  }

  /** The rewritten comment is one line. */
  lemma CommentIsOneLine(key: string, value: string)
    requires '\n' !in key && '\n' !in value
    ensures Lines("#" + Entry(key, value) + "\n") == ["#" + Entry(key, value)]
  {
    var e := Entry(key, value);
    var l := "#" + e;
    EntryWithoutBreak(key, value);
    assert l[|l| - 1] == e[|e| - 1];
    assert '\n' !in l by {
      assert forall i :: 1 <= i < |l| ==> l[i] == e[i - 1];
    }
    LinesOfClosedText(l);
    SplitNoSep(l, '\n');
  }

  /** The loader skips the rewritten comment. */
  lemma CommentSkipped(key: string, value: string)
    requires ValidKey(key) && ValidValue(value)
    ensures Classify("#" + Entry(key, value)) == Skip
  {
    var e := Entry(key, value);
    var l := "#" + e;
    assert l[|l| - 1] == e[|e| - 1] == if value == [] then '=' else value[|value| - 1];
    assert IsTrimmed(l);
    TrimIdempotent(l);
  }
}
