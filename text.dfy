/**
 * The handful of Rust `str` operations the backend relies on: `find`,
 * `contains`, `starts_with`, `ends_with`, `trim`, `to_lowercase` and
 * `lines`, on strings of Unicode scalar values.
 */
module Text {
  import opened Wrappers

  /** `char::is_whitespace` on the ASCII range (space, \t, \n, \x0B, \x0C, \r). */
  predicate IsSpace(c: char) {
    c == ' ' || c == '\t' || c == '\n' || c == '\U{B}' || c == '\U{C}' || c == '\r'
  }

  /** `pat` occurs in `s` starting at index `i`. */
  predicate OccursAt(s: string, pat: string, i: int) {
    0 <= i && i + |pat| <= |s| && s[i..i + |pat|] == pat
  }

  /** The first index at or after `from` where `pat` occurs. */
  function FindFrom(s: string, pat: string, from: nat): (r: Option<nat>)
    requires from <= |s|
    decreases |s| - from
    ensures r.Some? ==> from <= r.value && r.value + |pat| <= |s|
  {
    if OccursAt(s, pat, from) then Some(from)
    else if from == |s| then None
    else FindFrom(s, pat, from + 1)
  }

  /** `str::find`: the index (counted in characters) of the first occurrence of `pat`. */
  function Find(s: string, pat: string): (r: Option<nat>)
    ensures r.Some? ==> r.value + |pat| <= |s|
  {
    FindFrom(s, pat, 0)
  }

  lemma {:induction false} FindFromIsFirst(s: string, pat: string, from: nat)
    requires from <= |s|
    decreases |s| - from
    ensures FindFrom(s, pat, from).Some? ==>
      from <= FindFrom(s, pat, from).value && OccursAt(s, pat, FindFrom(s, pat, from).value)
    ensures FindFrom(s, pat, from).Some? ==>
      forall i :: from <= i < FindFrom(s, pat, from).value ==> !OccursAt(s, pat, i)
    ensures FindFrom(s, pat, from).None? ==> forall i :: from <= i ==> !OccursAt(s, pat, i)
  {
    if !OccursAt(s, pat, from) && from < |s| {
      FindFromIsFirst(s, pat, from + 1);
    }
  }

  /** `find` reports an occurrence, and no occurrence comes before it; `None` means there is none. */
  lemma FindIsFirst(s: string, pat: string)
    ensures Find(s, pat).Some? ==> OccursAt(s, pat, Find(s, pat).value)
    ensures Find(s, pat).Some? ==> forall i :: 0 <= i < Find(s, pat).value ==> !OccursAt(s, pat, i)
    ensures Find(s, pat).None? ==> forall i :: !OccursAt(s, pat, i)
  {
    FindFromIsFirst(s, pat, 0);
  }

  /** An occurrence with none before it is what `find` reports. */
  lemma FindUnique(s: string, pat: string, p: nat)
    requires OccursAt(s, pat, p)
    requires forall i :: 0 <= i < p ==> !OccursAt(s, pat, i)
    ensures Find(s, pat) == Some(p)
  {
    FindIsFirst(s, pat);
  }

  /** `find` fails exactly when there is no occurrence. */
  lemma FindNone(s: string, pat: string)
    ensures Find(s, pat).None? <==> forall i :: !OccursAt(s, pat, i)
  {
    FindIsFirst(s, pat);
  }

  /** `str::contains`. */
  predicate Contains(s: string, pat: string) {
    Find(s, pat).Some?
  }

  lemma ContainsAt(s: string, pat: string, i: int)
    requires OccursAt(s, pat, i)
    ensures Contains(s, pat)
  {
    FindIsFirst(s, pat);
  }

  /** `str::starts_with` (and the guard of `strip_prefix`). */
  predicate StartsWith(s: string, p: string) {
    |p| <= |s| && s[..|p|] == p
  }

  /** `str::ends_with` (and the guard of `strip_suffix`). */
  predicate EndsWith(s: string, p: string) {
    |p| <= |s| && s[|s| - |p|..] == p
  }

  /** The first index at or after `from` holding `c`, or `|s|` when there is none. */
  function IndexOfCharFrom(s: string, c: char, from: nat): (e: nat)
    requires from <= |s|
    decreases |s| - from
    ensures from <= e <= |s|
    ensures e < |s| ==> s[e] == c
    ensures forall i :: from <= i < e ==> s[i] != c
  {
    if from == |s| || s[from] == c then from else IndexOfCharFrom(s, c, from + 1)
  }

  /** A position holding `c`, with no `c` between `from` and it, is what the search finds. */
  lemma {:induction false} IndexOfCharIs(s: string, c: char, from: nat, e: nat)
    requires from <= e <= |s|
    requires e < |s| ==> s[e] == c
    requires forall i :: from <= i < e ==> s[i] != c
    decreases e - from
    ensures IndexOfCharFrom(s, c, from) == e
  {
    if from < e {
      IndexOfCharIs(s, c, from + 1, e);
    }
  }

  // ---------------------------------------------------------------- trim

  /** `str::trim_start`. */
  function TrimStart(s: string): (r: string)
    ensures |r| <= |s| && r == s[|s| - |r|..]
    ensures r == [] || !IsSpace(r[0])
  {
    if |s| > 0 && IsSpace(s[0]) then TrimStart(s[1..]) else s
  }

  /** `str::trim_end`. */
  function TrimEnd(s: string): (r: string)
    ensures |r| <= |s| && r == s[..|r|]
    ensures r == [] || !IsSpace(r[|r| - 1])
  {
    if |s| > 0 && IsSpace(s[|s| - 1]) then TrimEnd(s[..|s| - 1]) else s
  }

  /** A string with no leading and no trailing whitespace. */
  predicate IsTrimmed(s: string) {
    s == [] || (!IsSpace(s[0]) && !IsSpace(s[|s| - 1]))
  }

  predicate AllSpace(s: string) {
    forall i :: 0 <= i < |s| ==> IsSpace(s[i])
  }

  /** `str::trim`: drop leading and trailing whitespace. */
  function Trim(s: string): (r: string)
    ensures |r| <= |s|
    ensures IsTrimmed(r)
  {
    TrimEnd(TrimStart(s))
  }

  /** The trimmed string is a contiguous slice of the original, and what was cut is whitespace. */
  lemma TrimIsSlice(s: string) returns (i: nat, j: nat)
    ensures i <= j <= |s| && Trim(s) == s[i..j]
  {
    var t := TrimStart(s);
    i := |s| - |t|;
    var r := TrimEnd(t);
    j := i + |r|;
    assert t == s[i..] && r == t[..|r|];
    assert s[i..][..|r|] == s[i..j];
  }

  /** `TrimStart` drops only whitespace. */
  lemma {:induction false} TrimStartDropsSpaces(s: string)
    ensures AllSpace(s[..|s| - |TrimStart(s)|])
  {
    if |s| > 0 && IsSpace(s[0]) {
      TrimStartDropsSpaces(s[1..]);
      var k := |s| - |TrimStart(s)|;
      forall i | 0 <= i < k
        ensures IsSpace(s[..k][i])
      {
        if i > 0 {
          assert s[..k][i] == s[1..][..k - 1][i - 1];
        }
      }
    }
  }

  /** `TrimEnd` drops only whitespace. */
  lemma {:induction false} TrimEndDropsSpaces(s: string)
    ensures AllSpace(s[|TrimEnd(s)|..])
  {
    if |s| > 0 && IsSpace(s[|s| - 1]) {
      var p := s[..|s| - 1];
      TrimEndDropsSpaces(p);
      var k := |TrimEnd(s)|;
      forall i | 0 <= i < |s| - k
        ensures IsSpace(s[k..][i])
      {
        if k + i < |s| - 1 {
          assert s[k..][i] == p[k..][i];
        }
      }
    }
  }

  /** `TrimEnd` keeps every position up to the last non-whitespace character. */
  lemma TrimEndKeeps(s: string, i: nat)
    requires i < |s| && !IsSpace(s[i])
    ensures i < |TrimEnd(s)|
  {
    TrimEndDropsSpaces(s);
  }

  lemma TrimStartOfSpaces(w: string, x: string)
    requires AllSpace(w) && (x == [] || !IsSpace(x[0]))
    ensures TrimStart(w + x) == x
  {
    if w != [] {
      assert (w + x)[1..] == w[1..] + x;
      TrimStartOfSpaces(w[1..], x);
    } else {
      assert w + x == x;
    }
  }

  lemma TrimEndOfSpaces(x: string, w: string)
    requires AllSpace(w) && (x == [] || !IsSpace(x[|x| - 1]))
    ensures TrimEnd(x + w) == x
  {
    if w != [] {
      assert (x + w)[..|x + w| - 1] == x + w[..|w| - 1];
      TrimEndOfSpaces(x, w[..|w| - 1]);
    } else {
      assert x + w == x;
    }
  }

  /** Whitespace around a trimmed string is exactly what `trim` removes. */
  lemma {:induction false} TrimAround(w1: string, x: string, w2: string)
    requires AllSpace(w1) && AllSpace(w2) && IsTrimmed(x)
    ensures Trim(w1 + x + w2) == x
  {
    if x == [] {
      assert w1 + x + w2 == w1 + w2;
      TrimStartOfSpaces(w1 + w2, []);
      assert w1 + w2 + [] == w1 + w2;
    } else {
      assert w1 + x + w2 == w1 + (x + w2);
      TrimStartOfSpaces(w1, x + w2);
      TrimEndOfSpaces(x, w2);
    }
  }

  /** `trim` changes nothing on a trimmed string, so trimming twice is trimming once. */
  lemma TrimIdempotent(s: string)
    ensures IsTrimmed(s) ==> Trim(s) == s
    ensures Trim(Trim(s)) == Trim(s)
  {
    forall x | IsTrimmed(x) ensures Trim(x) == x {
      TrimAround([], x, []);
      assert [] + x + [] == x;
    }
  }

  // ---------------------------------------------------------------- case

  /** ASCII lower-casing of one character. */
  function LowerChar(c: char): char {
    if 'A' <= c <= 'Z' then (c as int + 32) as char else c
  }

  /** `str::to_lowercase`, on the ASCII letters. */
  function Lower(s: string): (r: string)
    ensures |r| == |s|
    ensures forall i :: 0 <= i < |r| ==> !('A' <= r[i] <= 'Z')
    ensures forall i :: 0 <= i < |s| && !('A' <= s[i] <= 'Z') ==> r[i] == s[i]
    ensures forall i :: 0 <= i < |s| && 'A' <= s[i] <= 'Z' ==> r[i] as int == s[i] as int + 32
  {
    seq(|s|, i requires 0 <= i < |s| => LowerChar(s[i]))
  }

  // ---------------------------------------------------------------- lines

  /** The pieces of `s` between occurrences of `sep` (`str::split`). */
  function Split(s: string, sep: char): (r: seq<string>)
    ensures |r| >= 1
  {
    if s == [] then [[]]
    else
      var rest := Split(s[1..], sep);
      if s[0] == sep then [[]] + rest
      else [[s[0]] + rest[0]] + rest[1..]
  }

  /** No piece holds the separator. */
  lemma {:induction false} SplitPiecesNoSep(s: string, sep: char)
    ensures forall k :: 0 <= k < |Split(s, sep)| ==> sep !in Split(s, sep)[k]
  {
    if s != [] {
      SplitPiecesNoSep(s[1..], sep);
    }
  }

  /** Joining the pieces with the separator (`slice::join`). */
  function Join(parts: seq<string>, sep: char): string
    requires |parts| >= 1
  {
    if |parts| == 1 then parts[0] else parts[0] + [sep] + Join(parts[1..], sep)
  }

  /** Splitting loses nothing: the pieces joined again give back the text. */
  lemma {:induction false} SplitJoin(s: string, sep: char)
    ensures Join(Split(s, sep), sep) == s
  {
    if s != [] {
      var rest := Split(s[1..], sep);
      SplitJoin(s[1..], sep);
      if s[0] == sep {
        assert Split(s, sep)[1..] == rest;
      } else {
        var r := Split(s, sep);
        if |rest| == 1 {
          assert r == [[s[0]] + rest[0]];
        } else {
          assert r[1..] == rest[1..];
          assert Join(r, sep) == [s[0]] + (rest[0] + [sep] + Join(rest[1..], sep));
        }
      }
    }
  }

  lemma {:induction false} SplitNoSep(a: string, sep: char)
    requires sep !in a
    ensures Split(a, sep) == [a]
  {
    if a != [] {
      SplitNoSep(a[1..], sep);
      assert [a[0]] + a[1..] == a;
    }
  }

  /** A separator cuts the text into the pieces before it and the pieces after it. */
  lemma {:induction false} SplitAtSep(a: string, b: string, sep: char)
    ensures Split(a + [sep] + b, sep) == Split(a, sep) + Split(b, sep)
  {
    if a == [] {
      assert a + [sep] + b == [sep] + b;
      assert ([sep] + b)[1..] == b;
    } else {
      assert (a + [sep] + b)[1..] == a[1..] + [sep] + b;
      SplitAtSep(a[1..], b, sep);
    }
  }

  /** The last piece is empty exactly when the text is empty or ends with the separator. */
  lemma {:induction false} SplitLastEmpty(s: string, sep: char)
    ensures var p := Split(s, sep); p[|p| - 1] == [] <==> s == [] || s[|s| - 1] == sep
  {
    if s != [] {
      var rest := Split(s[1..], sep);
      SplitLastEmpty(s[1..], sep);
      if s[0] != sep && |rest| == 1 {
        SplitJoin(s[1..], sep);
        assert s[1..] == rest[0];
        if s[1..] != [] {
          assert s[|s| - 1] == rest[0][|rest[0]| - 1];
        }
      }
    }
  }

  /** `str::lines`: the pieces between '\n', without the empty piece after a final '\n'. */
  function Lines(s: string): seq<string> {
    DropEmptyLast(Split(s, '\n'))
  }

  /** No line holds a '\n'. */
  lemma LinesHaveNoBreak(s: string)
    ensures forall k :: 0 <= k < |Lines(s)| ==> '\n' !in Lines(s)[k]
  {
    SplitPiecesNoSep(s, '\n');
    var p := Split(s, '\n');
    assert forall k :: 0 <= k < |Lines(s)| ==> Lines(s)[k] == p[k];
  }

  /** The pieces without a final empty piece. */
  function DropEmptyLast(p: seq<string>): seq<string> {
    if p != [] && p[|p| - 1] == [] then p[..|p| - 1] else p
  }

  /** Only the tail after a non-empty piece can lose its empty last piece. */
  lemma DropEmptyLastAfter(pre: seq<string>, l: string, q: seq<string>)
    requires l != []
    ensures DropEmptyLast(pre + [l] + q) == pre + [l] + DropEmptyLast(q)
  {
    if q != [] && q[|q| - 1] == [] {
      assert (pre + [l] + q)[..|pre| + 1 + |q| - 1] == pre + [l] + q[..|q| - 1];
    } else if q == [] {
      assert pre + [l] + q == pre + [l];
    }
  }

  /** The lines of a text that ends at a line break (or is empty). */
  function LinesBefore(a: string): seq<string>
    requires a == [] || a[|a| - 1] == '\n'
  {
    if a == [] then [] else Split(a[..|a| - 1], '\n')
  }

  /** The lines after a line break that opens `b` (none when `b` is empty). */
  function LinesAfter(b: string): seq<string>
    requires b == [] || b[0] == '\n'
  {
    if b == [] then [] else Lines(b[1..])
  }

  /** The lines of a text that ends at a line break are its pieces before that break. */
  lemma LinesBeforeIsLines(a: string)
    requires a == [] || a[|a| - 1] == '\n'
    ensures LinesBefore(a) == Lines(a)
  {
    SplitNoSep([], '\n');
    if a != [] {
      var d := a[..|a| - 1];
      assert a == d + ['\n'] + [];
      SplitAtSep(d, [], '\n');
      assert (Split(d, '\n') + [[]])[..|Split(d, '\n')|] == Split(d, '\n');
    }
  }

  /** A final line break added to a text that lacks one adds no line. */
  lemma LinesOfClosedText(s: string)
    requires s != [] && s[|s| - 1] != '\n'
    ensures Lines(s + "\n") == Lines(s)
  {
    SplitLastEmpty(s, '\n');
    LinesBeforeIsLines(s + "\n");
    assert (s + "\n")[..|s|] == s;
  }

  /** Text after a line break splits into the lines before it and the pieces of the rest. */
  lemma SplitAfterBreak(a: string, x: string)
    requires a == [] || a[|a| - 1] == '\n'
    ensures Split(a + x, '\n') == LinesBefore(a) + Split(x, '\n')
  {
    if a != [] {
      var d := a[..|a| - 1];
      assert a + x == d + ['\n'] + x;
      SplitAtSep(d, x, '\n');
    } else {
      assert a + x == x;
    }
  }

  /** A line without '\n' followed by a line break (or by nothing) is the first piece. */
  lemma SplitLineThenBreak(l: string, b: string)
    requires '\n' !in l
    requires b == [] || b[0] == '\n'
    ensures Split(l + b, '\n') == [l] + (if b == [] then [] else Split(b[1..], '\n'))
  {
    SplitNoSep(l, '\n');
    if b == [] {
      assert l + b == l;
    } else {
      assert l + b == l + ['\n'] + b[1..];
      SplitAtSep(l, b[1..], '\n');
    }
  }

  /** A non-empty line standing between two line breaks is one line of the whole text, the others untouched. */
  lemma LinesAround(a: string, l: string, b: string)
    requires a == [] || a[|a| - 1] == '\n'
    requires l != [] && '\n' !in l
    requires b == [] || b[0] == '\n'
    ensures Lines(a + l + b) == LinesBefore(a) + [l] + LinesAfter(b)
  {
    SplitAround(a, l, b);
    DropEmptyLastAfter(LinesBefore(a), l, if b == [] then [] else Split(b[1..], '\n'));
  }

  /** The pieces of a text around a line without '\n' standing between line breaks. */
  lemma SplitAround(a: string, l: string, b: string)
    requires a == [] || a[|a| - 1] == '\n'
    requires '\n' !in l
    requires b == [] || b[0] == '\n'
    ensures Split(a + l + b, '\n') == LinesBefore(a) + [l] + (if b == [] then [] else Split(b[1..], '\n'))
  {
    SplitLineThenBreak(l, b);
    assert a + l + b == a + (l + b);
    SplitAfterBreak(a, l + b);
  }
}
