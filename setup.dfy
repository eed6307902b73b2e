/**
 * Onboarding and health checks (`commands/setup.rs`): the `.env` editor
 * `update_env_var`, the "API key configured" predicate, the dependency
 * report with its repair message, and `save_api_keys`.
 */
module Setup {
  import opened Wrappers
  import opened Text

  const GeminiVar := "GEMINI_API_KEY"
  const CartesiaVar := "CARTESIA_API_KEY"
  const GeminiPlaceholder := "your_gemini_api_key_here"
  const CartesiaPlaceholder := "your_cartesia_key_here"

  // ------------------------------------------------------------ update_env_var

  /** The line `update_env_var` writes. */
  function Entry(key: string, value: string): string {
    key + "=" + value
  }

  /** `content[pos..].find('\n')`, as an index into `content`, or the length when there is no later '\n'. */
  function LineEnd(content: string, pos: nat): (e: nat)
    requires pos <= |content|
    ensures pos <= e <= |content|
    ensures e < |content| ==> content[e] == '\n'
    ensures '\n' !in content[pos..e]
  {
    var e := IndexOfCharFrom(content, '\n', pos);
    assert forall i :: 0 <= i < e - pos ==> content[pos..e][i] == content[pos + i];
    e
  }

  /** The separator written before an appended entry: a '\n' iff the text is non-empty and does not end in one. */
  function Separator(content: string): string {
    if content != [] && !EndsWith(content, "\n") then "\n" else ""
  }

  /**
   * What `update_env_var` leaves in the text: the first occurrence of `key=`
   * (anywhere, not only at a line start) up to the next '\n' is replaced by
   * the entry; with no occurrence, the entry and a '\n' are appended.
   */
  function UpdatedEnv(content: string, key: string, value: string): string {
    match Find(content, key + "=")
    case Some(pos) => content[..pos] + Entry(key, value) + content[LineEnd(content, pos)..]
    case None => content + Separator(content) + Entry(key, value) + "\n"
  }

  /** `update_env_var`, editing the text step by step as `replace_range`, `push` and `push_str` do. */
  method UpdateEnvVar(content: string, key: string, value: string) returns (updated: string)
    ensures updated == UpdatedEnv(content, key, value)
  {
    var prefix := key + "=";
    var newLine := key + "=" + value;
    updated := content;
    match Find(updated, prefix) {
      case Some(pos) =>
        var end := LineEnd(updated, pos);
        updated := updated[..pos] + newLine + updated[end..];
      case None =>
        if updated != [] && !EndsWith(updated, "\n") {
          updated := updated + "\n";
        }
        updated := updated + newLine;
        updated := updated + "\n";
    }
  }

  /** After the update the text holds the entry `key=value`. */
  lemma UpdateWritesEntry(content: string, key: string, value: string)
    ensures Contains(UpdatedEnv(content, key, value), Entry(key, value))
  {
    var r := UpdatedEnv(content, key, value);
    var e := Entry(key, value);
    match Find(content, key + "=")
    case Some(pos) =>
      assert r[pos..pos + |e|] == e;
      ContainsAt(r, e, pos);
    case None =>
      var at := |content + Separator(content)|;
      assert r == content + Separator(content) + e + "\n";
      assert r[at..at + |e|] == e;
      ContainsAt(r, e, at);
  }

  /**
   * With an occurrence of `key=`, the update rewrites one stretch of the text:
   * from the first occurrence to the end of that line. What precedes and what
   * follows (the '\n' included) is kept.
   */
  lemma ReplaceShape(content: string, key: string, value: string) returns (pos: nat, end: nat)
    requires Contains(content, key + "=")
    ensures pos <= end <= |content|
    ensures OccursAt(content, key + "=", pos)
    ensures forall i :: 0 <= i < pos ==> !OccursAt(content, key + "=", i)
    ensures Find(content, key + "=") == Some(pos) && end == LineEnd(content, pos)
    ensures '\n' !in content[pos..end] && (end == |content| || content[end] == '\n')
    ensures UpdatedEnv(content, key, value) == content[..pos] + Entry(key, value) + content[end..]
  {
    FindIsFirst(content, key + "=");
    pos := Find(content, key + "=").value;
    end := LineEnd(content, pos);
  }

  /**
   * Matching is by substring: a longer key that ends with `key` is rewritten
   * as if it were the key's own line, and the key itself is never added.
   */
  lemma SubstringMatchRewritesLongerKey()
    ensures UpdatedEnv("MY_GEMINI_API_KEY=x\n", GeminiVar, "k") == "MY_" + Entry(GeminiVar, "k") + "\n"
  {
    var c := "MY_GEMINI_API_KEY=x\n";
    LongerKeyLine(c);
    LongerKeyParts(c);
  }

  /** What comes before the longer key, and what follows its line. */
  lemma LongerKeyParts(c: string)
    requires c == "MY_GEMINI_API_KEY=x\n"
    ensures c[..3] == "MY_" && c[19..] == "\n"
  {
    var head, tail := "MY_" + (GeminiVar + "=x"), "\n";
    assert c == head + tail;
  }

  /** In `MY_GEMINI_API_KEY=x`, the search for `GEMINI_API_KEY=` stops inside the longer key. */
  lemma LongerKeyLine(c: string)
    requires c == "MY_GEMINI_API_KEY=x\n"
    ensures Find(c, GeminiVar + "=") == Some(3) && LineEnd(c, 3) == 19
  {
    var p := GeminiVar + "=";
    assert OccursAt(c, p, 3) by {
      assert c[3..3 + |p|] == p;
    }
    forall i | 0 <= i < 3
      ensures !OccursAt(c, p, i)
    {
      assert c[i..i + |p|][0] != p[0];
    }
    FindUnique(c, p, 3);
    IndexOfCharIs(c, '\n', 3, 19);
  }

  /** Without an occurrence of `key=`, the existing lines are kept and the entry becomes one more line. */
  lemma AppendAddsLine(content: string, key: string, value: string)
    requires !Contains(content, key + "=")
    requires '\n' !in Entry(key, value)
    ensures Lines(UpdatedEnv(content, key, value)) == Lines(content) + [Entry(key, value)]
  {
    var e := Entry(key, value);
    var a := content + Separator(content);
    assert UpdatedEnv(content, key, value) == a + e + "\n";
    LinesAround(a, e, "\n");
    assert "\n"[1..] == [];
    SplitNoSep([], '\n');
    LinesBeforeIsLines(a);
    if Separator(content) != [] {
      LinesOfClosedText(content);
    } else {
      assert a == content;
    }
  }

  /** An entry made of a key and a value without '\n' has no '\n', nor has its `key=` prefix. */
  lemma EntryWithoutBreak(key: string, value: string)
    requires '\n' !in key && '\n' !in value
    ensures '\n' !in Entry(key, value) && '\n' !in key + "="
  {
    var e := Entry(key, value);
    assert forall i :: 0 <= i < |e| ==> e[i] == if i < |key| then key[i] else if i == |key| then '=' else value[i - |key| - 1];
    assert forall i :: 0 <= i < |key| + 1 ==> (key + "=")[i] == e[i];
  }

  /**
   * Writing a text that starts with the pattern at its first occurrence keeps
   * that occurrence first: the prefix before it is untouched.
   */
  lemma FirstOccurrenceKept(content: string, p: string, pos: nat, e: string, rest: string)
    requires OccursAt(content, p, pos)
    requires forall i :: 0 <= i < pos ==> !OccursAt(content, p, i)
    requires StartsWith(e, p)
    ensures Find(content[..pos] + e + rest, p) == Some(pos)
  {
    var r := content[..pos] + e + rest;
    assert r[..pos + |p|] == content[..pos + |p|] by {
      assert content[pos..pos + |p|] == p;
      assert r[pos..pos + |p|] == e[..|p|] == p;
    }
    forall i | 0 <= i < pos
      ensures !OccursAt(r, p, i)
    {
      if OccursAt(r, p, i) {
        assert r[i..i + |p|] == r[..pos + |p|][i..i + |p|];
        assert content[i..i + |p|] == content[..pos + |p|][i..i + |p|];
        assert OccursAt(content, p, i);
      }
    }
    assert r[pos..pos + |p|] == p;
    FindUnique(r, p, pos);
  }

  /** A line written over the old one ends where the old one ended: at the same '\n'. */
  lemma LineEndAfterEntry(front: string, e: string, rest: string)
    requires '\n' !in e
    requires rest == [] || rest[0] == '\n'
    ensures LineEnd(front + e + rest, |front|) == |front| + |e|
  {
    var r := front + e + rest;
    forall i | |front| <= i < |front| + |e|
      ensures r[i] != '\n'
    {
      assert r[i] == e[i - |front|];
    }
    IndexOfCharIs(r, '\n', |front|, |front| + |e|);
  }

  /** Replacing a line whose `key=` is the first occurrence, then updating again, finds the same spot. */
  lemma {:induction false} ReplaceIdempotent(content: string, key: string, value: string)
    requires '\n' !in key && '\n' !in value
    requires Contains(content, key + "=")
    ensures UpdatedEnv(UpdatedEnv(content, key, value), key, value) == UpdatedEnv(content, key, value)
  {
    var e := Entry(key, value);
    EntryWithoutBreak(key, value);
    var pos, end := ReplaceShape(content, key, value);
    var r := UpdatedEnv(content, key, value);
    assert StartsWith(e, key + "=") by {
      assert e[..|key + "="|] == key + "=";
    }
    FirstOccurrenceKept(content, key + "=", pos, e, content[end..]);
    LineEndAfterEntry(content[..pos], e, content[end..]);
    assert r[..pos] + e + r[pos + |e|..] == r;
  }

  /** An entry appended after whole lines is the first occurrence of a pattern the old text lacked. */
  lemma AppendedEntryFound(content: string, p: string, e: string)
    requires !Contains(content, p)
    requires '\n' !in p && StartsWith(e, p)
    ensures Find(content + Separator(content) + e + "\n", p) == Some(|content + Separator(content)|)
  {
    FindNone(content, p);
    var a := content + Separator(content);
    var r := content + Separator(content) + e + "\n";
    assert r == a + (e + "\n");
    assert OccursAt(r, p, |a|) by {
      assert r[|a|..|a| + |p|] == e[..|p|];
    }
    forall i | 0 <= i < |a|
      ensures !OccursAt(r, p, i)
    {
      if i + |p| <= |content| {
        assert !OccursAt(content, p, i);
        assert r[i..i + |p|] == content[i..i + |p|];
      } else if i + |p| <= |r| {
        assert r[|a| - 1] == '\n';
        assert r[i..i + |p|][|a| - 1 - i] == '\n';
        assert p[|a| - 1 - i] != '\n';
      }
    }
    FindUnique(r, p, |a|);
  }

  /** Appending, then updating again, rewrites the appended line with itself. */
  lemma {:induction false} AppendIdempotent(content: string, key: string, value: string)
    requires '\n' !in key && '\n' !in value
    requires !Contains(content, key + "=")
    ensures UpdatedEnv(UpdatedEnv(content, key, value), key, value) == UpdatedEnv(content, key, value)
  {
    var e := Entry(key, value);
    EntryWithoutBreak(key, value);
    FindNone(content, key + "=");
    var a := content + Separator(content);
    var r := UpdatedEnv(content, key, value);
    assert r == a + e + "\n";
    assert StartsWith(e, key + "=") by {
      assert e[..|key + "="|] == key + "=";
    }
    AppendedEntryFound(content, key + "=", e);
    LineEndAfterEntry(a, e, "\n");
    assert r[..|a|] + e + r[|a| + |e|..] == r;
  }

  /** Updating with the same key and value a second time changes nothing. */
  lemma UpdateIdempotent(content: string, key: string, value: string)
    requires '\n' !in key && '\n' !in value
    ensures UpdatedEnv(UpdatedEnv(content, key, value), key, value) == UpdatedEnv(content, key, value)
  {
    if Contains(content, key + "=") {
      ReplaceIdempotent(content, key, value);
    } else {
      AppendIdempotent(content, key, value);
    }
  }

  // ------------------------------------------------------------ key status

  /**
   * `std::env::var(name).map(|k| !k.is_empty() && k != placeholder).unwrap_or(false)`,
   * with the variable's value (`None` when unset or not Unicode) as the input.
   */
  predicate KeyConfigured(v: Option<string>, placeholder: string) {
    match v
    case None => false
    case Some(k) => k != [] && k != placeholder
  }

  datatype SetupStatus = SetupStatus(
    geminiKey: bool,
    cartesiaKey: bool,
    whisperBinary: bool,
    whisperModel: bool,
    cameraPermission: bool,
    micPermission: bool)

  /** `check_setup_status`, with the two variables and the two file probes as inputs. */
  function CheckSetupStatus(gemini: Option<string>, cartesia: Option<string>, binaryFound: bool, modelFound: bool): (s: SetupStatus)
    ensures s.geminiKey <==> gemini.Some? && gemini.value != [] && gemini.value != GeminiPlaceholder
    ensures s.cartesiaKey <==> cartesia.Some? && cartesia.value != [] && cartesia.value != CartesiaPlaceholder
    ensures s.whisperBinary == binaryFound && s.whisperModel == modelFound
    ensures s.cameraPermission && s.micPermission
  {
    SetupStatus(KeyConfigured(gemini, GeminiPlaceholder), KeyConfigured(cartesia, CartesiaPlaceholder),
                binaryFound, modelFound, true, true)
  }

  // ------------------------------------------------------------ dependency report

  const AllOkMessage := "Todos os componentes operacionais."
  const BinaryName := "motor de transcrição"
  const ModelName := "modelo de voz"
  const FfmpegName := "conversor de áudio"

  datatype DependencyHealth = DependencyHealth(
    whisperBinary: bool,
    whisperModel: bool,
    ffmpeg: bool,
    geminiKey: bool,
    needsRepair: bool,
    message: string)

  /** `slice::join`. */
  function JoinWith(parts: seq<string>, sep: string): string {
    if |parts| == 0 then []
    else if |parts| == 1 then parts[0]
    else parts[0] + sep + JoinWith(parts[1..], sep)
  }

  /** The names of the missing components, binary then model then ffmpeg. */
  function Missing(binary: bool, model: bool, ffmpeg: bool): seq<string> {
    (if binary then [] else [BinaryName])
    + (if model then [] else [ModelName])
    + (if ffmpeg then [] else [FfmpegName])
  }

  function RepairMessage(missing: seq<string>): string {
    "Componentes em falta: " + JoinWith(missing, ", ") + ". Clique em reparar para instalar automaticamente."
  }

  /** The report `check_dependencies` returns, for given probe results and Gemini variable. */
  function DependencyReport(binary: bool, model: bool, ffmpeg: bool, gemini: Option<string>): DependencyHealth {
    var needsRepair := !binary || !model || !ffmpeg;
    DependencyHealth(binary, model, ffmpeg, KeyConfigured(gemini, GeminiPlaceholder), needsRepair,
      if !needsRepair then AllOkMessage else RepairMessage(Missing(binary, model, ffmpeg)))
  }

  /** `check_dependencies`, growing the `missing` list with `push` as the source does. */
  method CheckDependencies(binary: bool, model: bool, ffmpeg: bool, gemini: Option<string>) returns (h: DependencyHealth)
    ensures h == DependencyReport(binary, model, ffmpeg, gemini)
  {
    var geminiKey := KeyConfigured(gemini, GeminiPlaceholder);
    var needsRepair := !binary || !model || !ffmpeg;
    var message;
    if !needsRepair {
      message := AllOkMessage;
    } else {
      var missing: seq<string> := [];
      if !binary { missing := missing + [BinaryName]; }
      if !model { missing := missing + [ModelName]; }
      if !ffmpeg { missing := missing + [FfmpegName]; }
      assert missing == Missing(binary, model, ffmpeg);
      message := RepairMessage(missing);
    }
    h := DependencyHealth(binary, model, ffmpeg, geminiKey, needsRepair, message);
  }

  /**
   * Repair is needed exactly when a component is missing; the "all OK" text
   * is used exactly when no repair is needed; the Gemini key affects neither.
   */
  lemma RepairDecision(binary: bool, model: bool, ffmpeg: bool, gemini: Option<string>, other: Option<string>)
    ensures DependencyReport(binary, model, ffmpeg, gemini).needsRepair <==> !binary || !model || !ffmpeg
    ensures DependencyReport(binary, model, ffmpeg, gemini).message == AllOkMessage
            <==> !DependencyReport(binary, model, ffmpeg, gemini).needsRepair
    ensures DependencyReport(binary, model, ffmpeg, gemini).needsRepair == DependencyReport(binary, model, ffmpeg, other).needsRepair
    ensures DependencyReport(binary, model, ffmpeg, gemini).message == DependencyReport(binary, model, ffmpeg, other).message
  {
    if binary && model && ffmpeg {
    } else {
      var m := RepairMessage(Missing(binary, model, ffmpeg));
      assert m[0] != AllOkMessage[0];
    }
  }

  /** A component is listed iff it is missing, and the list keeps the fixed order binary, model, ffmpeg. */
  lemma MissingInOrder(binary: bool, model: bool, ffmpeg: bool)
    ensures BinaryName in Missing(binary, model, ffmpeg) <==> !binary
    ensures ModelName in Missing(binary, model, ffmpeg) <==> !model
    ensures FfmpegName in Missing(binary, model, ffmpeg) <==> !ffmpeg
    ensures |Missing(binary, model, ffmpeg)| == (if binary then 0 else 1) + (if model then 0 else 1) + (if ffmpeg then 0 else 1)
    ensures forall i, j :: 0 <= i < j < |Missing(binary, model, ffmpeg)| ==>
              Rank(Missing(binary, model, ffmpeg)[i]) < Rank(Missing(binary, model, ffmpeg)[j])
  {
    assert BinaryName != ModelName && BinaryName != FfmpegName && ModelName != FfmpegName by {
      assert BinaryName[2] != ModelName[2] && BinaryName[0] != FfmpegName[0];
      assert ModelName[0] != FfmpegName[0];
    }
  }

  /** Position of a component name in the fixed order. */
  function Rank(name: string): nat {
    if name == BinaryName then 0 else if name == ModelName then 1 else 2
  }

  // ------------------------------------------------------------ save_api_keys

  /** The `.env` text after one key: touched only when the new value is present and non-empty. */
  function MaybeUpdate(content: string, name: string, key: Option<string>): string {
    if key.Some? && key.value != [] then UpdatedEnv(content, name, key.value) else content
  }

  function MaybeSet(vars: map<string, string>, name: string, key: Option<string>): map<string, string> {
    if key.Some? && key.value != [] then vars[name := key.value] else vars
  }

  /** The `.env` text `save_api_keys` writes: Gemini first, then Cartesia. */
  function SavedContent(existing: Option<string>, gemini: Option<string>, cartesia: Option<string>): string {
    MaybeUpdate(MaybeUpdate(existing.GetOr(""), GeminiVar, gemini), CartesiaVar, cartesia)
  }

  /**
   * What `std::fs::write` did: the file was written whole; creating (and
   * truncating) it failed; or writing failed after `bytesWritten` characters.
   */
  datatype WriteOutcome = Written | CreateFailed | WriteFailed(bytesWritten: nat)

  /** What a write that stopped after `n` characters leaves in the file: a prefix of `content`. */
  function WrittenPart(content: string, n: nat): (r: string)
    ensures |r| <= |content| && r == content[..|r|]
    ensures n < |content| ==> |r| == n
  {
    if n < |content| then content[..n] else content
  }

  /** The configuration directory's `.env` file and the process environment. */
  class AppConfig {
    /** The `.env` text, `None` when the file cannot be read. */
    var envFile: Option<string>
    var vars: map<string, string>

    constructor(envFile: Option<string>, vars: map<string, string>)
      ensures this.envFile == envFile && this.vars == vars
    {
      this.envFile := envFile;
      this.vars := vars;
    }

    /**
     * `save_api_keys`. A failure to reach the configuration directory changes
     * nothing; otherwise the variables are set before the file is written, so a
     * failed write leaves them set. `write` is what `std::fs::write` did: a
     * failed create leaves the file as it was, while a write that fails after
     * the truncating create leaves only the bytes written so far.
     */
    method SaveApiKeys(gemini: Option<string>, cartesia: Option<string>, configDirOk: bool, write: WriteOutcome)
      returns (r: Result<(), string>)
      modifies this
      ensures !configDirOk ==> r.Err? && envFile == old(envFile) && vars == old(vars)
      ensures configDirOk ==> vars == MaybeSet(MaybeSet(old(vars), GeminiVar, gemini), CartesiaVar, cartesia)
      ensures configDirOk ==> (r.Ok? <==> write.Written?)
      ensures configDirOk && write.Written? ==> envFile == Some(SavedContent(old(envFile), gemini, cartesia))
      ensures configDirOk && write.CreateFailed? ==> envFile == old(envFile)
      ensures configDirOk && write.WriteFailed? ==>
        envFile == Some(WrittenPart(SavedContent(old(envFile), gemini, cartesia), write.bytesWritten))
    {
      if !configDirOk {
        return Err("app config dir unavailable");
      }
      var envContent := if envFile.Some? then envFile.value else "";
      if gemini.Some? {
        if gemini.value != [] {
          envContent := UpdateEnvVar(envContent, GeminiVar, gemini.value);
          vars := vars[GeminiVar := gemini.value];
        }
      }
      if cartesia.Some? {
        if cartesia.value != [] {
          envContent := UpdateEnvVar(envContent, CartesiaVar, cartesia.value);
          vars := vars[CartesiaVar := cartesia.value];
        }
      }
      match write {
        case CreateFailed =>
          return Err("create failed");
        case WriteFailed(n) =>
          envFile := Some(WrittenPart(envContent, n));
          return Err("write failed");
        case Written =>
          envFile := Some(envContent);
          r := Ok(());
      }
    }
  }

  /** An absent or empty key leaves the text for it untouched. */
  lemma SkippedKeyUnchanged(content: string, name: string, key: Option<string>)
    requires key.None? || key.value == []
    ensures MaybeUpdate(content, name, key) == content
  {
  }

  /** A key saved with a real value is reported as configured afterwards. */
  lemma SavedKeyIsConfigured(vars: map<string, string>, gemini: Option<string>, cartesia: Option<string>)
    requires gemini.Some? && gemini.value != [] && gemini.value != GeminiPlaceholder
    ensures var after := MaybeSet(MaybeSet(vars, GeminiVar, gemini), CartesiaVar, cartesia);
      GeminiVar in after && KeyConfigured(Some(after[GeminiVar]), GeminiPlaceholder)
  {
    assert GeminiVar != CartesiaVar by {
      assert GeminiVar[0] != CartesiaVar[0];
    }
  }

  /** A saved key's entry is in the written file. */
  lemma SavedFileHoldsCartesiaEntry(existing: Option<string>, gemini: Option<string>, cartesia: Option<string>)
    requires cartesia.Some? && cartesia.value != []
    ensures Contains(SavedContent(existing, gemini, cartesia), Entry(CartesiaVar, cartesia.value))
  {
    UpdateWritesEntry(MaybeUpdate(existing.GetOr(""), GeminiVar, gemini), CartesiaVar, cartesia.value);
  }
}
