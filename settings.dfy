/**
 * Application settings (`commands/settings.rs`): the defaults, and
 * `get_settings`, which reads the stored record (or starts from the defaults)
 * and lets the environment override the two API keys. The configuration
 * directory, the file and the environment variables are inputs.
 */
module Settings {
  import opened Wrappers
  import VitaminD

  datatype AppSettings = AppSettings(
    geminiApiKey: string,
    cartesiaApiKey: string,
    cartesiaVoiceId: string,
    skinType: VitaminD.u8,
    latitude: real,
    longitude: real,
    timezone: string,
    sleepAnchorHour: VitaminD.u8)

  const DefaultVoiceId := "a0e99841-438c-4a64-b679-ae501e7d6091"

  /** `AppSettings::default`: no keys, skin type 4, Lisbon, WET, sleep protocol at 02:00. */
  const Defaults := AppSettings("", "", DefaultVoiceId, 4, 38.7223, -9.1393, "WET", 2)

  /** What the settings file holds, as far as `get_settings` can tell. */
  datatype SettingsFile =
    | NoFile
    | ReadFailed(readError: string)
    | Malformed(parseError: string)
    | Stored(stored: AppSettings)

  /** A stored key gives way to a variable that is set and non-empty. */
  function StoredKey(stored: string, env: Option<string>): (k: string)
    ensures env.Some? && env.value != [] ==> k == env.value
    ensures env.None? || env.value == [] ==> k == stored
  {
    if env.Some? && env.value != [] then env.value else stored
  }

  /** A default key gives way to a variable that is set, even when it is empty. */
  function DefaultKey(default: string, env: Option<string>): (k: string)
    ensures env.Some? ==> k == env.value
    ensures env.None? ==> k == default
  {
    env.GetOr(default)
  }

  /**
   * The result of `get_settings`. `configDir` is the outcome of preparing the
   * configuration directory; `gemini` and `cartesia` are the variables
   * `GEMINI_API_KEY` and `CARTESIA_API_KEY` (`None` when unset).
   */
  function SettingsFor(configDir: Result<(), string>, file: SettingsFile, gemini: Option<string>, cartesia: Option<string>)
    : Result<AppSettings, string>
  {
    if configDir.Err? then Err(configDir.error)
    else
      match file
      case NoFile =>
        Ok(Defaults.(geminiApiKey := DefaultKey(Defaults.geminiApiKey, gemini),
                     cartesiaApiKey := DefaultKey(Defaults.cartesiaApiKey, cartesia)))
      case ReadFailed(e) => Err("Failed to read settings: " + e)
      case Malformed(e) => Err("Failed to parse settings: " + e)
      case Stored(s) =>
        Ok(s.(geminiApiKey := StoredKey(s.geminiApiKey, gemini),
              cartesiaApiKey := StoredKey(s.cartesiaApiKey, cartesia)))
  }

  /** `get_settings`, assigning the overridden keys to the record one after the other. */
  method GetSettings(configDir: Result<(), string>, file: SettingsFile, gemini: Option<string>, cartesia: Option<string>)
    returns (r: Result<AppSettings, string>)
    ensures r == SettingsFor(configDir, file, gemini, cartesia)
  {
    if configDir.Err? {
      return Err(configDir.error);
    }
    match file {
      case NoFile =>
        var settings := Defaults;
        if gemini.Some? {
          settings := settings.(geminiApiKey := gemini.value);
        }
        if cartesia.Some? {
          settings := settings.(cartesiaApiKey := cartesia.value);
        }
        r := Ok(settings);
      case ReadFailed(e) =>
        r := Err("Failed to read settings: " + e);
      case Malformed(e) =>
        r := Err("Failed to parse settings: " + e);
      case Stored(s) =>
        var settings := s;
        if gemini.Some? && gemini.value != [] {
          settings := settings.(geminiApiKey := gemini.value);
        }
        if cartesia.Some? && cartesia.value != [] {
          settings := settings.(cartesiaApiKey := cartesia.value);
        }
        r := Ok(settings);
    }
  }

  /** Two records that agree on everything but the API keys. */
  predicate SameButKeys(a: AppSettings, b: AppSettings) {
    a.cartesiaVoiceId == b.cartesiaVoiceId && a.skinType == b.skinType && a.latitude == b.latitude
    && a.longitude == b.longitude && a.timezone == b.timezone && a.sleepAnchorHour == b.sleepAnchorHour
  }

  /** With nothing stored and no variables set, the settings are the defaults. */
  lemma NothingSetGivesDefaults()
    ensures SettingsFor(Ok(()), NoFile, None, None) == Ok(Defaults)
    ensures Defaults.geminiApiKey == [] && Defaults.cartesiaApiKey == []
    ensures Defaults.skinType == 4 && Defaults.sleepAnchorHour == 2 && Defaults.timezone == "WET"
    ensures Defaults.cartesiaVoiceId == "a0e99841-438c-4a64-b679-ae501e7d6091"
  {
  }

  /** Only the two keys can come from the environment: every other field is the stored or the default one. */
  lemma OnlyKeysFromEnvironment(file: SettingsFile, gemini: Option<string>, cartesia: Option<string>)
    requires SettingsFor(Ok(()), file, gemini, cartesia).Ok?
    ensures file.NoFile? || file.Stored?
    ensures file.NoFile? ==> SameButKeys(SettingsFor(Ok(()), file, gemini, cartesia).value, Defaults)
    ensures file.Stored? ==> SameButKeys(SettingsFor(Ok(()), file, gemini, cartesia).value, file.stored)
  {
  }

  /** With a stored record, a key is overridden only by a variable that is set and non-empty. */
  lemma StoredKeyPrecedence(s: AppSettings, gemini: Option<string>, cartesia: Option<string>)
    ensures var r := SettingsFor(Ok(()), Stored(s), gemini, cartesia).value;
            (r.geminiApiKey != s.geminiApiKey ==> gemini.Some? && gemini.value != [] && r.geminiApiKey == gemini.value)
            && (r.cartesiaApiKey != s.cartesiaApiKey ==> cartesia.Some? && cartesia.value != [] && r.cartesiaApiKey == cartesia.value)
    ensures SettingsFor(Ok(()), Stored(s), Some([]), Some([])) == Ok(s)
  {
  }

  /** Without a stored record, a variable that is set always wins, even when it is empty. */
  lemma DefaultKeyPrecedence(gemini: string, cartesia: string)
    ensures SettingsFor(Ok(()), NoFile, Some(gemini), Some(cartesia)).value.geminiApiKey == gemini
    ensures SettingsFor(Ok(()), NoFile, Some(gemini), Some(cartesia)).value.cartesiaApiKey == cartesia
  {
  }

  /** An empty variable never changes the outcome: the stored key stays, and the default key is empty already. */
  lemma EmptyVariableIsUnset(configDir: Result<(), string>, file: SettingsFile, cartesia: Option<string>)
    ensures SettingsFor(configDir, file, Some([]), cartesia) == SettingsFor(configDir, file, None, cartesia)
  {
    if configDir.Ok? && file.Stored? {
      assert StoredKey(file.stored.geminiApiKey, Some([])) == file.stored.geminiApiKey;
    }
  }

  /** A file that exists but cannot be read or parsed is an error, never the defaults. */
  lemma BrokenFileIsError(file: SettingsFile, gemini: Option<string>, cartesia: Option<string>)
    requires file.ReadFailed? || file.Malformed?
    ensures SettingsFor(Ok(()), file, gemini, cartesia).Err?
    ensures file.Malformed? ==> SettingsFor(Ok(()), file, gemini, cartesia) == Err("Failed to parse settings: " + file.parseError)
  {
  }
}
