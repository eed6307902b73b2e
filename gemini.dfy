/**
 * The local half of `ocr_clinical_pdf` (`commands/gemini.rs`): the gates a
 * file must pass before it is uploaded, and the cleaning of the model's
 * reply before it is parsed as JSON. The file system and the environment
 * are inputs; the upload itself is not modelled.
 */
module Gemini {
  import opened Wrappers
  import opened Text

  const MaxPdfBytes: nat := 50_000_000
  const NotPdfMessage := "Only PDF files are accepted."
  const TooLargeMessage := "PDF too large (max 50MB)."
  const MissingKeyMessage := "GEMINI_API_KEY not set. Configure in settings."
  const Fence := "```"
  const JsonFence := "```json"

  // ------------------------------------------------------------ paths

  /** The index of the last `c` in `s`. */
  function LastIndexOf(s: string, c: char): (r: Option<nat>)
    ensures r.Some? ==> r.value < |s| && s[r.value] == c && c !in s[r.value + 1..]
    ensures r.None? ==> c !in s
  {
    if s == [] then None
    else if s[|s| - 1] == c then Some(|s| - 1)
    else
      var r := LastIndexOf(s[..|s| - 1], c);
      assert r.Some? ==> s[r.value + 1..] == s[..|s| - 1][r.value + 1..] + [s[|s| - 1]];
      assert s == s[..|s| - 1] + [s[|s| - 1]];
      r
  }

  /** `Path::file_name` of a canonical path: the text after the last '/'. */
  function FileName(path: string): string {
    match LastIndexOf(path, '/')
    case None => path
    case Some(i) => path[i + 1..]
  }

  /**
   * `Path::extension`: what follows the last '.' of the file name; none when
   * the name is "..", has no '.', or has a single '.' that opens it.
   */
  function Extension(path: string): Option<string> {
    var name := FileName(path);
    if name == ".." then None
    else
      match LastIndexOf(name, '.')
      case None => None
      case Some(i) => if i == 0 then None else Some(name[i + 1..])
  }

  /** An extension is the tail of the file name after a '.', holding no '.' itself, with something before it. */
  lemma ExtensionShape(path: string) returns (name: string, stem: string)
    requires Extension(path).Some?
    ensures name == FileName(path) && '/' !in name
    ensures name == stem + "." + Extension(path).value
    ensures stem != [] && '.' !in Extension(path).value
  {
    name := FileName(path);
    var i := LastIndexOf(name, '.').value;
    stem := name[..i];
    assert name == stem + "." + name[i + 1..];
  }

  /** After a '/', a name holding no '/' is the file name. */
  lemma FileNameAfterSlash(dir: string, name: string)
    requires '/' !in name
    ensures FileName(dir + "/" + name) == name
  {
    var path := dir + "/" + name;
    assert path[|dir| + 1..] == name;
    LastIndexOfIs(path, '/', |dir|);
  }

  /** A file name with a non-empty stem, a '.' and a tail without '.' has that tail as extension. */
  lemma ExtensionOfName(dir: string, stem: string, ext: string)
    requires stem != [] && ext != [] && '/' !in stem && '/' !in ext && '.' !in ext
    ensures Extension(dir + "/" + stem + "." + ext) == Some(ext)
  {
    var name := stem + "." + ext;
    assert dir + "/" + stem + "." + ext == dir + "/" + name;
    FileNameAfterSlash(dir, name);
    assert name[|stem| + 1..] == ext;
    LastIndexOfIs(name, '.', |stem|);
  }

  /** `LastIndexOf` finds the position of the last `c`. */
  lemma {:induction false} LastIndexOfIs(s: string, c: char, i: nat)
    requires i < |s| && s[i] == c && c !in s[i + 1..]
    ensures LastIndexOf(s, c) == Some(i)
    decreases |s|
  {
    if i != |s| - 1 {
      assert s[|s| - 1] == s[i + 1..][|s| - 2 - i];
      assert s[..|s| - 1][i + 1..] == s[i + 1..][..|s| - 2 - i];
      LastIndexOfIs(s[..|s| - 1], c, i);
    }
  }

  /** A name whose only '.' opens it, like ".pdf", has no extension. */
  lemma DotFileHasNoExtension(dir: string, ext: string)
    requires '/' !in ext && '.' !in ext
    ensures Extension(dir + "/" + "." + ext) == None
  {
    var name := "." + ext;
    assert dir + "/" + "." + ext == dir + "/" + name;
    FileNameAfterSlash(dir, name);
    assert name[1..] == ext;
    LastIndexOfIs(name, '.', 0);
  }

  // ------------------------------------------------------------ gates

  /** What passes the gates: the size of the file read and the API key. */
  datatype Upload = Upload(size: nat, apiKey: string)

  /**
   * The gates of `ocr_clinical_pdf`, in order: the file exists, the path
   * canonicalizes, its extension is exactly "pdf", the file is read, it is at
   * most 50,000,000 bytes, and `GEMINI_API_KEY` is set. `canonical`, `read`
   * (the byte count) and `apiKey` are what the operating system and the
   * environment answer.
   */
  function Preflight(filePath: string, found: bool, canonical: Result<string, string>,
                     read: Result<nat, string>, apiKey: Option<string>): (r: Result<Upload, string>)
    ensures r.Ok? <==> found && canonical.Ok? && Extension(canonical.value) == Some("pdf")
                        && read.Ok? && read.value <= MaxPdfBytes && apiKey.Some?
    ensures r.Ok? ==> r.value == Upload(read.value, apiKey.value)
    ensures !found ==> r == Err("File not found: " + filePath)
  {
    if !found then Err("File not found: " + filePath)
    else if canonical.Err? then Err("Invalid file path: " + canonical.error)
    else if Extension(canonical.value) != Some("pdf") then Err(NotPdfMessage)
    else if read.Err? then Err("Failed to read PDF: " + read.error)
    else if read.value > MaxPdfBytes then Err(TooLargeMessage)
    else if apiKey.None? then Err(MissingKeyMessage)
    else Ok(Upload(read.value, apiKey.value))
  }

  /** A file whose extension is not exactly "pdf" is refused whatever reading it or the key would give. */
  lemma NotPdfRejectedFirst(filePath: string, canonical: string, read1: Result<nat, string>, read2: Result<nat, string>,
                            key1: Option<string>, key2: Option<string>)
    requires Extension(canonical) != Some("pdf")
    ensures Preflight(filePath, true, Ok(canonical), read1, key1) == Err(NotPdfMessage)
    ensures Preflight(filePath, true, Ok(canonical), read1, key1) == Preflight(filePath, true, Ok(canonical), read2, key2)
  {
  }

  /** The size gate: 50,000,000 bytes pass, one byte more does not. */
  lemma SizeLimitInclusive(filePath: string, canonical: string, key: string)
    requires Extension(canonical) == Some("pdf")
    ensures Preflight(filePath, true, Ok(canonical), Ok(MaxPdfBytes), Some(key)) == Ok(Upload(MaxPdfBytes, key))
    ensures Preflight(filePath, true, Ok(canonical), Ok(MaxPdfBytes + 1), Some(key)) == Err(TooLargeMessage)
  {
  }

  /** An oversized file is refused before the key is looked up. */
  lemma TooLargeRejectedBeforeKey(filePath: string, canonical: string, size: nat, key1: Option<string>, key2: Option<string>)
    requires Extension(canonical) == Some("pdf") && size > MaxPdfBytes
    ensures Preflight(filePath, true, Ok(canonical), Ok(size), key1) == Err(TooLargeMessage)
    ensures Preflight(filePath, true, Ok(canonical), Ok(size), key2) == Err(TooLargeMessage)
  {
  }

  // ------------------------------------------------------------ reply cleaning

  /** `str::strip_prefix`. */
  function StripPrefix(s: string, p: string): (r: Option<string>)
    ensures r.Some? <==> StartsWith(s, p)
    ensures r.Some? ==> s == p + r.value
  {
    if StartsWith(s, p) then Some(s[|p|..]) else None
  }

  /** `str::strip_suffix`. */
  function StripSuffix(s: string, p: string): (r: Option<string>)
    ensures r.Some? <==> EndsWith(s, p)
    ensures r.Some? ==> s == r.value + p
  {
    if EndsWith(s, p) then Some(s[..|s| - |p|]) else None
  }

  /** The reply without one leading "```json", or failing that one leading "```". */
  function WithoutOpeningFence(t: string): (r: string)
    ensures |r| <= |t| && r == t[|t| - |r|..]
  {
    match StripPrefix(t, JsonFence)
    case Some(rest) => rest
    case None => StripPrefix(t, Fence).GetOr(t)
  }

  /** The text without one trailing "```". */
  function WithoutClosingFence(b: string): (r: string)
    ensures |r| <= |b| && r == b[..|r|]
  {
    StripSuffix(b, Fence).GetOr(b)
  }

  /**
   * The cleaning of the reply: trim; drop one leading "```json", or failing
   * that one leading "```"; drop one trailing "```"; trim again.
   */
  function CleanReply(text: string): (r: string)
    ensures IsTrimmed(r)
  {
    Trim(WithoutClosingFence(WithoutOpeningFence(Trim(text))))
  }

  /** A text that starts with "```json" starts with "```". */
  lemma JsonFenceIsFence(t: string)
    ensures StartsWith(t, JsonFence) ==> StartsWith(t, Fence)
  {
    if StartsWith(t, JsonFence) {
      assert t[..3] == t[..7][..3];
    }
  }

  /** A reply without fences at either end is only trimmed. */
  lemma NoFenceIsTrim(text: string)
    requires !StartsWith(Trim(text), Fence) && !EndsWith(Trim(text), Fence)
    ensures CleanReply(text) == Trim(text)
  {
    JsonFenceIsFence(Trim(text));
    TrimIdempotent(text);
  }

  /** The opening of a fenced reply: "```json" wins over "```". */
  lemma OpeningFences(x: string)
    ensures WithoutOpeningFence(JsonFence + x) == x
    ensures x == [] || x[0] != 'j' ==> WithoutOpeningFence(Fence + x) == x
  {
    assert (JsonFence + x)[..7] == JsonFence;
    assert (Fence + x)[..3] == Fence;
    assert x != [] ==> (Fence + x)[3] == x[0];
  }

  /** The closing fence is dropped. */
  lemma ClosingFence(x: string)
    ensures WithoutClosingFence(x + Fence) == x
  {
    assert (x + Fence)[|x|..] == Fence;
  }

  /** A trimmed text between "\n" and "\n" is what trimming gives. */
  lemma TrimNewlines(x: string)
    requires IsTrimmed(x)
    ensures Trim("\n" + x + "\n") == x
  {
    TrimAround("\n", x, "\n");
  }

  /** A reply that opens and closes with a backquote is trimmed already. */
  lemma BackquotedIsTrimmed(text: string)
    requires text != [] && text[0] == '`' && text[|text| - 1] == '`'
    ensures Trim(text) == text
  {
    TrimIdempotent(text);
  }

  /** A trimmed JSON text wrapped in a "```json" fence comes back unchanged. */
  lemma JsonFenceRoundTrip(x: string)
    requires IsTrimmed(x)
    ensures CleanReply(JsonFence + "\n" + x + "\n" + Fence) == x
  {
    var inner := "\n" + x + "\n";
    var text := JsonFence + (inner + Fence);
    assert JsonFence + "\n" + x + "\n" + Fence == text;
    assert text[0] == '`' && text[|text| - 1] == '`';
    BackquotedIsTrimmed(text);
    OpeningFences(inner + Fence);
    ClosingFence(inner);
    TrimNewlines(x);
  }

  /** A trimmed text wrapped in a bare "```" fence comes back unchanged. */
  lemma PlainFenceRoundTrip(x: string)
    requires IsTrimmed(x)
    ensures CleanReply(Fence + "\n" + x + "\n" + Fence) == x
  {
    var inner := "\n" + x + "\n";
    var text := Fence + (inner + Fence);
    assert Fence + "\n" + x + "\n" + Fence == text;
    assert text[0] == '`' && text[|text| - 1] == '`';
    BackquotedIsTrimmed(text);
    OpeningFences(inner + Fence);
    ClosingFence(inner);
    TrimNewlines(x);
  }

  /** A slice of a slice is a slice. */
  lemma SliceOfSlice(s: string, a: nat, b: nat, c: nat, d: nat)
    requires a <= b <= |s| && c <= d <= b - a
    ensures s[a..b][c..d] == s[a + c..a + d]
  {
    assert forall k :: 0 <= k < d - c ==> s[a..b][c..d][k] == s[a + c + k];
  }

  /** Trimming a slice leaves a slice within it. */
  lemma TrimOfSlice(s: string, a: nat, b: nat) returns (i: nat, j: nat)
    requires a <= b <= |s|
    ensures a <= i <= j <= b && Trim(s[a..b]) == s[i..j]
  {
    var i1, j1 := TrimIsSlice(s[a..b]);
    SliceOfSlice(s, a, b, i1, j1);
    i, j := a + i1, a + j1;
  }

  /** Dropping the opening fence of a slice leaves a slice with the same end. */
  lemma OpeningOfSlice(s: string, a: nat, b: nat) returns (k: nat)
    requires a <= b <= |s|
    ensures a <= k <= b && WithoutOpeningFence(s[a..b]) == s[k..b]
  {
    var r := WithoutOpeningFence(s[a..b]);
    k := b - |r|;
    SliceOfSlice(s, a, b, k - a, b - a);
  }

  /** Dropping the closing fence of a slice leaves a slice with the same start. */
  lemma ClosingOfSlice(s: string, a: nat, b: nat) returns (e: nat)
    requires a <= b <= |s|
    ensures a <= e <= b && WithoutClosingFence(s[a..b]) == s[a..e]
  {
    var r := WithoutClosingFence(s[a..b]);
    e := a + |r|;
    SliceOfSlice(s, a, b, 0, |r|);
  }

  /** The cleaned reply is a contiguous piece of the reply, so never longer. */
  lemma CleanIsSlice(text: string) returns (i: nat, j: nat)
    ensures i <= j <= |text| && CleanReply(text) == text[i..j]
  {
    assert text[0..|text|] == text;
    var i0, j0 := TrimOfSlice(text, 0, |text|);
    var k := OpeningOfSlice(text, i0, j0);
    var e := ClosingOfSlice(text, k, j0);
    i, j := TrimOfSlice(text, k, e);
  }
}
