# HoloSelf OS backend core, modelled in Dafny

HoloSelf OS is a desktop health companion: a Tauri application whose Rust
backend keeps a supplement log, books medical exams, gives vitamin D advice,
talks to Gemini and stores API keys in a `.env` file. This project models the
deterministic core of that backend and proves what it promises. The clock, the
file system, the database, the process environment and the network are inputs.

- `scheduler.dfy` (module `Scheduler`) models `generate_exam_schedule`, the
  predictive exam scheduler. Supplement names are matched by lower-cased
  substring against three ordered arms (zinc, magnesium, vitamin C). Each rule
  counts whole 30-day months since the first matching lab, with Rust's
  truncating division and 999 for a missing or unparsable lab. The vitamin D
  and thyroid checks follow. `GenerateExamSchedule` is a loop that pushes onto
  the list and is proved equal to the function `Schedule`.
- `vitamin_d.dfy` (`VitaminD`) models `calculate`: the dose table by
  Fitzpatrick skin type, the UV factor, round-then-clamp to [10, 120], the sun
  window by latitude band and month, the D3 dose table and the choice of note.
- `setup.dfy` (`Setup`) models the onboarding commands:
  - `update_env_var`, both as the function `UpdatedEnv` and as the method
    `UpdateEnvVar` that edits the text step by step;
  - the "key configured" test;
  - `check_dependencies` with its repair message;
  - `save_api_keys`, as a method of the class `AppConfig` that owns the
    `.env` text and the process environment.
- `env_loader.dfy` (`EnvLoader`) models the `.env` loader in `setup` in
  `lib.rs`:
  - `LoadEnvFile` is the loop;
  - `Run` is the fold it is proved against;
  - `set_var`'s panic on an empty key or a NUL is an outcome of its own.
- `env_round_trip.dfy` (`EnvRoundTrip`) proves the round trip between the
  writer and the loader: after `update_env_var(c, key, value)`, loading sets
  `key` to `value` and everything else as before. The round trip is proved
  when the first `key=` in the text opens a line and no later line assigns the
  key; that condition is sufficient, not necessary. Because `update_env_var` matches a substring anywhere, a commented-out
  `#key=x` is rewritten in place. The loader then skips the comment, so the key
  is never set (`CommentedKeyNotLoaded`).
- `gemini.dfy` (`Gemini`) models the local half of `ocr_clinical_pdf`:
  - the gates a file passes before upload, in their order, with
    `Path::extension` computed from the canonical path;
  - the cleaning of the model's reply, which drops code fences.
- `agent.dfy` (`Agent`) models the hour-based message of `get_agent_message`
  and the dispatch of `execute_agent_action`.
- `settings.dfy` (`Settings`) models `AppSettings::default` and
  `get_settings`, where environment variables override the API keys.
- `text.dfy` (`Text`) models the Rust string operations these use:
  - `find`, `contains`, `starts_with`, `ends_with`;
  - `trim` and its start and end forms;
  - ASCII `to_lowercase`;
  - `split` and `lines`.

  `wrappers.dfy` holds `Option` and `Result`.

## Model

| member | source | states |
|---|---|---|
| Scheduler.GenerateExamSchedule | src-tauri/src/services/scheduler.rs:16-150 | the list built by pushing, supplement by supplement, then the two standing checks, is exactly `Schedule(supplements, labs, today)` |
| Scheduler.TruncDiv | src-tauri/src/services/scheduler.rs:32 | `i64` division truncates toward zero: for a ≥ 0 the quotient q has q·b ≤ a < q·b + b, and for a < 0 it has q·b − b < a ≤ q·b |
| Scheduler.FindLabFromIsFirst | src-tauri/src/services/scheduler.rs:27-28 | the lookup from a position returns a matching lab with no match between the start and it, or none when nothing from the start on matches |
| Scheduler.FindLabIsFirst | src-tauri/src/services/scheduler.rs:27-28 | a rule reads the first lab in list order whose lower-cased marker contains the needle, not the most recent one; `None` means no lab matches |
| Scheduler.MonthsThreshold | src-tauri/src/services/scheduler.rs:32-35 | with truncating division, "at least n months" is exactly "at least 30n days" |
| Scheduler.RuleFires | src-tauri/src/services/scheduler.rs:30-35 | a rule with threshold n fires iff its lab is missing or undated, or the lab is at least 30n days old |
| Scheduler.FutureLabDoesNotFire | src-tauri/src/services/scheduler.rs:32-35 | a lab dated today or later gives a month count of at most zero |
| Scheduler.ZincPanelRule | src-tauri/src/services/scheduler.rs:26-43 | a zinc-type supplement books the zinc/copper panel iff the first "zinc" lab is missing, undated or at least 90 days old |
| Scheduler.FirstArmWins | src-tauri/src/services/scheduler.rs:24-107 | arms are tried in order: a zinc name never adds the magnesium or iron panel, a magnesium name adds at most the magnesium panel, a vitamin C name at most the iron panel, and any other name adds nothing |
| Scheduler.ExamsForShape | src-tauri/src/services/scheduler.rs:23-108 | one supplement adds at most two exams and never a vitamin D or thyroid panel |
| Scheduler.SupplementExamsAppend | src-tauri/src/services/scheduler.rs:23-109 | the supplement-driven exams of a concatenated list are those of each part in order; nothing is deduplicated |
| Scheduler.RepeatedSupplement | src-tauri/src/services/scheduler.rs:23-109 | a supplement listed twice yields its exams twice |
| Scheduler.SupplementExamsShape | src-tauri/src/services/scheduler.rs:23-109 | the supplements add at most two exams each and never a vitamin D or thyroid panel |
| Scheduler.ScheduleLength | src-tauri/src/services/scheduler.rs:21-149 | the schedule has at most 2·(number of supplements) + 2 exams |
| Scheduler.StandingChecks | src-tauri/src/services/scheduler.rs:111-147 | the vitamin D panel occurs once iff its rule is due, and otherwise never; the same holds for the thyroid panel. Both come after all supplement-driven exams, vitamin D first |
| Scheduler.DueFromLabs | src-tauri/src/services/scheduler.rs:26-139 | each of the six rules is due iff its first lab is missing or undated, or is at least 90, 180, 120, 180, 90 or 180 days old respectively |
| Scheduler.SupplementExamDates | src-tauri/src/services/scheduler.rs:36-97 | supplement-driven exams are dated today+7 (zinc, ANA) or today+14 (magnesium, iron) |
| Scheduler.ScheduledDates | src-tauri/src/services/scheduler.rs:36-140 | every exam is dated today+7 (zinc, ANA, vitamin D) or today+14 (magnesium, iron, thyroid) |
| Scheduler.MissingLabAlwaysBooked | src-tauri/src/services/scheduler.rs:112-147 | with no usable vitamin D (or TSH) lab, the vitamin D (or thyroid) panel is always booked |
| VitaminD.Round | src-tauri/src/services/vitamin_d.rs:48 | `f64::round` on a non-negative value gives the integer n with n ≤ x + 0.5 < n + 1 |
| VitaminD.OptimalMinutes | src-tauri/src/services/vitamin_d.rs:45-51 | the exposure time always lies in [10, 120] |
| VitaminD.FactorAntitone | src-tauri/src/services/vitamin_d.rs:47 | for positive UV, a higher index never gives a larger factor |
| VitaminD.RoundMonotone | src-tauri/src/services/vitamin_d.rs:48 | rounding is monotone |
| VitaminD.MinutesAntitoneInUv | src-tauri/src/services/vitamin_d.rs:45-51 | for a fixed skin type, a higher positive UV never means a longer exposure |
| VitaminD.NoUvMinutes | src-tauri/src/services/vitamin_d.rs:47-51 | a UV index ≤ 0 uses factor 10: 50, 75 or 100 minutes for skin 1, 2 or 3, and 120 otherwise |
| VitaminD.BaseMedGrowsWithSkin | src-tauri/src/services/vitamin_d.rs:35-43 | over skin types 1..6 the dose table never decreases |
| VitaminD.BestWindowText | src-tauri/src/services/vitamin_d.rs:54-66 | the window text by band: "11:30 - 13:30" above 45°. Between 35° and 45°: "11:00 - 14:00" from November to February, "11:00 - 15:00" in March, April, September and October, else "10:00 - 16:00". At 35° or below: "10:00 - 16:00" |
| VitaminD.WindowCoversNoon | src-tauri/src/services/vitamin_d.rs:54-66 | every window contains 11:30 to 13:30 |
| VitaminD.WindowNarrowsWithLatitude | src-tauri/src/services/vitamin_d.rs:54-66 | in a given month, a higher latitude never widens the window |
| VitaminD.WindowWidensTowardSummer | src-tauri/src/services/vitamin_d.rs:57-63 | between 35° and 45°, the winter window lies inside the spring/autumn one, which lies inside the summer one |
| VitaminD.D3AntitoneInUv | src-tauri/src/services/vitamin_d.rs:69-88 | for a fixed skin type, more UV never raises the D3 dose |
| VitaminD.D3GrowsWithSkin | src-tauri/src/services/vitamin_d.rs:69-88 | over skin types 1..6, darker skin never lowers the dose |
| VitaminD.D3ZeroExactly | src-tauri/src/services/vitamin_d.rs:69-88 | the dose is 0 iff UV ≥ 5 and skin type is 1 to 3 |
| VitaminD.Calculate | src-tauri/src/services/vitamin_d.rs:25-116 | skin type defaults to 4 and latitude to 38.7; the record echoes the UV index and the effective values; the minutes, the window text and the D3 dose are `OptimalMinutes`, `BestWindow` and `D3Supplement` of the UV index and the effective skin type and latitude, so the lemmas about those tables hold of the record; minutes lie in [10, 120]; the note branch is chosen by UV < 2, < 4 or otherwise, and quotes the record's own values |
| VitaminD.ExplicitDefaultsAreDefaults | src-tauri/src/commands/vitamin_d.rs:15 | the command's explicit skin type 4 and latitude 38.7 give the same record as passing neither |
| Setup.LineEnd | src-tauri/src/commands/setup.rs:238 | the end of the line from `pos`: the next '\n' or the end of the text, with no '\n' in between |
| Setup.UpdateEnvVar | src-tauri/src/commands/setup.rs:232-248 | the in-place edit (`replace_range`, `push`, `push_str`) yields exactly `UpdatedEnv(content, key, value)` |
| Setup.UpdateWritesEntry | src-tauri/src/commands/setup.rs:232-248 | afterwards the text contains `key=value` |
| Setup.ReplaceShape | src-tauri/src/commands/setup.rs:236-239 | with an occurrence of `key=`, the text from its first occurrence up to (not including) the next '\n' or the end is replaced by `key=value`; all before and after is kept |
| Setup.SubstringMatchRewritesLongerKey | src-tauri/src/commands/setup.rs:233-239 | the match is by substring: `MY_GEMINI_API_KEY=x` is rewritten to `MY_` followed by the new `GEMINI_API_KEY` entry, and no line of its own is added |
| Setup.LongerKeyLine | src-tauri/src/commands/setup.rs:236-238 | in that text the search for `GEMINI_API_KEY=` stops at index 3, inside the longer key, and the line ends at index 19 |
| Setup.AppendAddsLine | src-tauri/src/commands/setup.rs:240-247 | without `key=`, the old lines are kept and the entry becomes one more line, with a '\n' inserted first iff the text is non-empty and does not end in one |
| Setup.ReplaceIdempotent | src-tauri/src/commands/setup.rs:236-239 | when key and value hold no '\n', replacing twice is replacing once |
| Setup.AppendIdempotent | src-tauri/src/commands/setup.rs:240-247 | when key and value hold no '\n', a second update rewrites the appended line with itself |
| Setup.UpdateIdempotent | src-tauri/src/commands/setup.rs:232-248 | when key and value hold no '\n', applying `update_env_var` twice equals applying it once |
| Setup.CheckSetupStatus | src-tauri/src/commands/setup.rs:19-41 | a key counts as configured iff its variable is set, non-empty and not the placeholder; camera and microphone are reported true |
| Setup.CheckDependencies | src-tauri/src/commands/setup.rs:56-92 | the report built by pushing the missing names is `DependencyReport` of the probe results |
| Setup.RepairDecision | src-tauri/src/commands/setup.rs:72-82 | repair is needed iff the binary, the model or ffmpeg is missing; the "all OK" text is used iff no repair is needed; the Gemini key affects neither |
| Setup.MissingInOrder | src-tauri/src/commands/setup.rs:77-81 | a component is listed iff it is missing, each once, in the order binary, model, ffmpeg |
| Setup.AppConfig.SaveApiKeys | src-tauri/src/commands/setup.rs:103-139 | if the configuration directory is unreachable, nothing changes. Otherwise each key that is present and non-empty is set in the environment, whatever the write then does. The call succeeds iff the write does, and the file then holds the `.env` text with Gemini updated first and Cartesia second. A failed create leaves the file as it was. A write that fails after the truncating create leaves a prefix of that text |
| Setup.WrittenPart | src-tauri/src/commands/setup.rs:136 | what a write that stopped after n characters leaves is a prefix of the content, of length n when n is shorter than the content |
| Setup.SkippedKeyUnchanged | src-tauri/src/commands/setup.rs:121-134 | an absent or empty key leaves the text untouched |
| Setup.SavedKeyIsConfigured | src-tauri/src/commands/setup.rs:121-126 | a Gemini key saved with a real value is then reported as configured |
| Setup.SavedFileHoldsCartesiaEntry | src-tauri/src/commands/setup.rs:128-136 | a saved Cartesia key's entry is in the written text |
| EnvLoader.SplitOnce | src-tauri/src/lib.rs:28 | `split_once` returns none iff the separator is absent; otherwise the text is before + separator + after, with no separator before |
| EnvLoader.LoadEnvFile | src-tauri/src/lib.rs:21-35 | with no file text the environment is unchanged; otherwise the loop ends in `LoadEnv(vars, content)`, the fold of the line decisions, including a `set_var` panic |
| EnvLoader.RunNextLine | src-tauri/src/lib.rs:25-31 | one more line read is one more decision applied to the state |
| EnvLoader.PanicEndsLoad | src-tauri/src/lib.rs:29 | once `set_var` panics, the later lines are never read |
| EnvLoader.RunAppend | src-tauri/src/lib.rs:25-31 | loading two pieces one after the other is loading them together |
| EnvLoader.PanicSticks | src-tauri/src/lib.rs:29 | after a panic nothing else runs |
| EnvLoader.PanicPrefix | src-tauri/src/lib.rs:29 | if a prefix of the decisions panics, the whole load ends in that panic |
| EnvLoader.SkippedLine | src-tauri/src/lib.rs:26-28 | blank lines, `#` comments and lines without '=' (after trimming) change nothing |
| EnvLoader.AssignmentShape | src-tauri/src/lib.rs:26-29 | an assignment splits the trimmed line at its first '='; the key holds no '=' but the value may; both are trimmed |
| EnvLoader.RunOverride | src-tauri/src/lib.rs:25-31 | lines that do not assign a key treat it the same whatever its earlier value |
| EnvLoader.LastAssignmentWins | src-tauri/src/lib.rs:25-29 | when a key is assigned on several lines, the last assignment decides its value |
| EnvLoader.AppendAssignment | src-tauri/src/lib.rs:29 | one more non-panicking assignment at the end sets the key |
| EnvLoader.ReplaceAssignment | src-tauri/src/lib.rs:25-31 | suppose one assignment to a key is replaced by another, no later line assigns that key, and the old load succeeded. Then the new load is the old one with the key set to the new value |
| EnvLoader.UnassignedKeyKept | src-tauri/src/lib.rs:25-31 | a key no line assigns keeps the value (or absence) it had before loading |
| EnvRoundTrip.SplitAfterKey | src-tauri/src/lib.rs:28 | in `key=rest` with no '=' in the key, the first '=' is the one after the key |
| EnvRoundTrip.ClassifyKeyLine | src-tauri/src/lib.rs:26-29 | a line that trims to `key=rest` assigns the trimmed rest to the key |
| EnvRoundTrip.LineWithKeyAssignsKey | src-tauri/src/lib.rs:26-29 | a line that starts with `key=` assigns that key, whatever follows |
| EnvRoundTrip.EntryIsTrimmed | src-tauri/src/commands/setup.rs:234 | the written line `key=value` has no whitespace to trim |
| EnvRoundTrip.EntryAction | src-tauri/src/lib.rs:26-29 | the written line is read back as exactly the assignment of value to key, and `set_var` does not panic on it |
| EnvRoundTrip.AppendThenLoad | src-tauri/src/lib.rs:25-31 | without `key=` in the text, loading the updated text is loading the old one and then setting the key |
| EnvRoundTrip.KeyLineShape | src-tauri/src/commands/setup.rs:236-239 | with `key=` first at a line start, the text splits into the lines before, the `key=` line and the rest from its '\n'; the update replaces only that line |
| EnvRoundTrip.ReplaceThenLoad | src-tauri/src/lib.rs:25-31 | when the first `key=` opens a line and no later line assigns the key, loading the updated text is loading the old one and then setting the key |
| EnvRoundTrip.UpdateThenLoad | src-tauri/src/lib.rs:25-31 | the round trip: after `update_env_var(c, key, value)`, loading sets `key` to `value` and every other variable as loading `c` did |
| EnvRoundTrip.CommentedKeyRewritten | src-tauri/src/commands/setup.rs:236-239 | in `#key=x`, the first `key=` is inside the comment, which is rewritten to `#key=value`; nothing is appended |
| EnvRoundTrip.CommentIsOneLine | src-tauri/src/lib.rs:25 | the rewritten text is the single line `#key=value` |
| EnvRoundTrip.CommentSkipped | src-tauri/src/lib.rs:26-27 | the loader skips that line as a comment |
| EnvRoundTrip.CommentedKeyNotLoaded | src-tauri/src/lib.rs:25-31 | hence, after updating a text whose only `key=` is commented out, loading sets nothing: the environment is unchanged |
| Gemini.ExtensionShape | src-tauri/src/commands/gemini.rs:38 | an extension is the tail of the file name after its last '.', holding no '.', with a non-empty stem before it |
| Gemini.FileNameAfterSlash | src-tauri/src/commands/gemini.rs:38 | the file name of `dir/name` is `name` when `name` holds no '/' |
| Gemini.ExtensionOfName | src-tauri/src/commands/gemini.rs:38 | `dir/stem.ext`, with a non-empty stem and an extension without '.', has extension `ext`; `x.pdf` passes the extension gate |
| Gemini.DotFileHasNoExtension | src-tauri/src/commands/gemini.rs:38 | a name whose only '.' opens it, like `.pdf`, has no extension and is refused |
| Gemini.Preflight | src-tauri/src/commands/gemini.rs:30-53 | the upload goes ahead iff the file exists, the path canonicalizes, the extension is exactly "pdf", the read succeeds, the size is at most 50,000,000 bytes and the key is set; a missing file is reported with its path |
| Gemini.NotPdfRejectedFirst | src-tauri/src/commands/gemini.rs:37-43 | a non-PDF extension is refused with "Only PDF files are accepted." whatever the read or the key would give |
| Gemini.SizeLimitInclusive | src-tauri/src/commands/gemini.rs:45-48 | exactly 50,000,000 bytes pass and 50,000,001 are refused as too large |
| Gemini.TooLargeRejectedBeforeKey | src-tauri/src/commands/gemini.rs:45-53 | an oversized file is refused before the API key is looked up |
| Gemini.StripPrefix | src-tauri/src/commands/gemini.rs:124-125 | `strip_prefix` succeeds iff the text starts with the prefix, and then prefix + rest is the text |
| Gemini.StripSuffix | src-tauri/src/commands/gemini.rs:128-129 | `strip_suffix` succeeds iff the text ends with the suffix, and then rest + suffix is the text |
| Gemini.WithoutOpeningFence | src-tauri/src/commands/gemini.rs:122-126 | what remains after the opening fence is a suffix of the text it was taken from |
| Gemini.WithoutClosingFence | src-tauri/src/commands/gemini.rs:127-129 | what remains after the closing fence is a prefix of the text |
| Gemini.CleanReply | src-tauri/src/commands/gemini.rs:122-130 | the cleaned reply has no leading or trailing whitespace |
| Gemini.JsonFenceIsFence | src-tauri/src/commands/gemini.rs:124-125 | a text starting with "```json" starts with "```" |
| Gemini.NoFenceIsTrim | src-tauri/src/commands/gemini.rs:122-130 | a reply with no fence at either end comes back only trimmed |
| Gemini.OpeningFences | src-tauri/src/commands/gemini.rs:124-126 | "```json" is removed whole, and a bare "```" is removed when "json" does not follow |
| Gemini.ClosingFence | src-tauri/src/commands/gemini.rs:128-129 | one trailing "```" is removed |
| Gemini.JsonFenceRoundTrip | src-tauri/src/commands/gemini.rs:122-130 | for trimmed X, cleaning "```json\n" + X + "\n```" gives X |
| Gemini.PlainFenceRoundTrip | src-tauri/src/commands/gemini.rs:122-130 | for trimmed X, cleaning "```\n" + X + "\n```" gives X |
| Gemini.CleanIsSlice | src-tauri/src/commands/gemini.rs:122-130 | the cleaned reply is a contiguous piece of the reply, so never longer |
| Agent.AgentMessageFor | src-tauri/src/commands/agent.rs:31-98 | every message is either a medium-priority supplement reminder with a `log_supplement` action or a low-priority insight without action. From 8 to 11 it is a reminder iff Winfit is not known to be taken; at other hours it is a reminder iff the hour is 0-2 or 23 |
| Agent.FailedQueryShowsReminder | src-tauri/src/commands/agent.rs:34-35 | a failed "Winfit taken" query counts as not taken, so in the morning the Winfit reminder is shown |
| Agent.WinfitOnlyInTheMorning | src-tauri/src/commands/agent.rs:31-98 | outside 8-11 the Winfit answer does not matter |
| Agent.ReminderByHour | src-tauri/src/commands/agent.rs:31-98 | hours 0-2 remind of magnesium, 23 of Noxarem, 8-11 of Winfit (when not taken); 3-7 and 12-22 give the "stable" insight |
| Agent.ExecuteAgentAction | src-tauri/src/commands/agent.rs:112-131 | only "log_supplement" is accepted; any other type is refused with an error naming it. An insert error is passed on. On success the inserted entry uses the payload defaults, and the reply is "<name> registado com sucesso." |
| Agent.EmptyPayloadDefaults | src-tauri/src/commands/agent.rs:114-128 | one worked example of the defaults `ExecuteAgentAction` states in general: an empty payload logs "Unknown" with dosage "" and category "as_needed", no id and no notes |
| Agent.ProposedActionLogs | src-tauri/src/commands/agent.rs:31-128 | running the action a message proposes logs the supplement it names, with its dosage and category |
| Settings.GetSettings | src-tauri/src/commands/settings.rs:42-71 | the record built by assigning the overriding keys one after the other is `SettingsFor` of the inputs |
| Settings.NothingSetGivesDefaults | src-tauri/src/commands/settings.rs:16-29 | with no file and no variables, the settings are the defaults: empty keys, skin type 4, sleep anchor 2, "WET" and the fixed voice id |
| Settings.OnlyKeysFromEnvironment | src-tauri/src/commands/settings.rs:45-69 | a successful result comes from no file or a stored record, and every field but the two keys is the default or the stored value |
| Settings.StoredKeyPrecedence | src-tauri/src/commands/settings.rs:52-57 | with a stored record, a key changes only to a set, non-empty variable; empty variables change nothing |
| Settings.DefaultKeyPrecedence | src-tauri/src/commands/settings.rs:60-68 | without a file, a set variable wins even when it is empty |
| Settings.EmptyVariableIsUnset | src-tauri/src/commands/settings.rs:45-69 | an empty Gemini variable gives the same outcome as an unset one |
| Settings.BrokenFileIsError | src-tauri/src/commands/settings.rs:46-49 | a file that cannot be read or parsed is an error, never the defaults |
| Text.FindFromIsFirst | src-tauri/src/commands/setup.rs:236 | the search from a position finds an occurrence with none between the start and it, or none at all |
| Text.FindIsFirst | src-tauri/src/commands/setup.rs:236 | `find` returns the first occurrence, or none when there is no occurrence |
| Text.FindUnique | src-tauri/src/commands/setup.rs:236 | an occurrence with none before it is what `find` returns |
| Text.IndexOfCharIs | src-tauri/src/commands/setup.rs:238 | a position holding the character, with none between the start and it, is what the search returns |
| Text.TrimIsSlice | src-tauri/src/lib.rs:26 | the trimmed text is a contiguous slice of the text |
| Text.TrimStartDropsSpaces | src-tauri/src/lib.rs:26 | `trim_start` drops only whitespace |
| Text.TrimEndDropsSpaces | src-tauri/src/lib.rs:26 | `trim_end` drops only whitespace |
| Text.TrimAround | src-tauri/src/lib.rs:26 | whitespace around a trimmed text is exactly what `trim` removes |
| Text.TrimIdempotent | src-tauri/src/lib.rs:26 | `trim` changes nothing on trimmed text, so trimming twice is trimming once |
| Text.Lower | src-tauri/src/services/scheduler.rs:24 | lower-casing keeps the length, leaves no 'A'..'Z' behind, moves each 'A'..'Z' up by 32 to its lower-case letter and leaves every other character unchanged |
| Text.SplitPiecesNoSep | src-tauri/src/lib.rs:25 | no piece of a split holds the separator |
| Text.SplitJoin | src-tauri/src/lib.rs:25 | joining the pieces with the separator gives back the text |
| Text.LinesHaveNoBreak | src-tauri/src/lib.rs:25 | no line holds a '\n' |
| Text.LinesOfClosedText | src-tauri/src/lib.rs:25 | a final '\n' does not add an empty line |
| Text.LinesAround | src-tauri/src/lib.rs:25 | the lines of `a + line + b` are those before the line, the line itself and those after its '\n', when `a` ends at a line break and `b` starts at one |
| Scheduler.FindLab | src-tauri/src/services/scheduler.rs:27-28 | defines the lab lookup, `iter().find` on the lower-cased marker; `FindLabIsFirst` states what it returns |
| Scheduler.MonthsSince | src-tauri/src/services/scheduler.rs:30-34 | defines the month count: truncating division of the day difference by 30, or 999 without a usable lab; `RuleFires` and `FutureLabDoesNotFire` state what it gives |
| Scheduler.ArmOf | src-tauri/src/services/scheduler.rs:24-107 | defines which match arm a lower-cased name takes, guards tried in order; `FirstArmWins` states its consequences |
| Scheduler.DueFrom | src-tauri/src/services/scheduler.rs:26-139 | defines the six rule decisions; `DueFromLabs` states each in days |
| Scheduler.Schedule | src-tauri/src/services/scheduler.rs:23-149 | defines the whole schedule; `GenerateExamSchedule`, `StandingChecks`, `ScheduleLength` and `ScheduledDates` state what it holds |
| VitaminD.BaseMedMinutes | src-tauri/src/services/vitamin_d.rs:35-43 | defines the dose table by skin type; `BaseMedGrowsWithSkin` and `NoUvMinutes` state its values and order |
| VitaminD.UvFactor | src-tauri/src/services/vitamin_d.rs:47 | defines the UV factor 6/uv, or 10 for uv ≤ 0; `FactorAntitone` states its order |
| VitaminD.BestWindowSpan | src-tauri/src/services/vitamin_d.rs:54-66 | defines the sun window as minutes of the day; `WindowCoversNoon`, `WindowNarrowsWithLatitude` and `WindowWidensTowardSummer` state its shape |
| VitaminD.BestWindow | src-tauri/src/services/vitamin_d.rs:54-66 | defines the window text; `BestWindowText` states it for every band |
| VitaminD.D3Supplement | src-tauri/src/services/vitamin_d.rs:69-88 | defines the D3 table; `D3AntitoneInUv`, `D3GrowsWithSkin` and `D3ZeroExactly` state its order and its zero cells |
| VitaminD.NoteFor | src-tauri/src/services/vitamin_d.rs:90-105 | defines the note branch and the values it quotes; `Calculate` states which branch is taken |
| Setup.UpdatedEnv | src-tauri/src/commands/setup.rs:232-248 | defines `update_env_var` on values; `UpdateEnvVar`, `ReplaceShape`, `AppendAddsLine` and `UpdateIdempotent` state what it does |
| Setup.KeyConfigured | src-tauri/src/commands/setup.rs:20-26 | defines "configured": set, non-empty and not the placeholder; `CheckSetupStatus` states it |
| Setup.DependencyReport | src-tauri/src/commands/setup.rs:56-92 | defines the dependency report; `CheckDependencies`, `RepairDecision` and `MissingInOrder` state it |
| EnvLoader.Classify | src-tauri/src/lib.rs:26-29 | defines what the loader does with one line; `SkippedLine` and `AssignmentShape` state it |
| EnvLoader.Step | src-tauri/src/lib.rs:29 | defines one `set_var`, including its panic; `PanicSticks` and `AppendAssignment` state it |
| EnvLoader.LoadEnv | src-tauri/src/lib.rs:21-35 | defines the load of a whole text as the fold over its lines; `LoadEnvFile`, `LastAssignmentWins` and `UnassignedKeyKept` state it |
| Gemini.FileName | src-tauri/src/commands/gemini.rs:38 | defines the file name as the text after the last '/'; `FileNameAfterSlash` states it |
| Gemini.Extension | src-tauri/src/commands/gemini.rs:38 | defines `Path::extension`; `ExtensionShape`, `ExtensionOfName` and `DotFileHasNoExtension` state it |
| Settings.StoredKey | src-tauri/src/commands/settings.rs:52-57 | with a stored record, a set, non-empty variable replaces the stored key, and otherwise the stored key stays |
| Settings.DefaultKey | src-tauri/src/commands/settings.rs:60-68 | without a file, any set variable, even an empty one, replaces the default key |
| Settings.SettingsFor | src-tauri/src/commands/settings.rs:42-71 | defines `get_settings` on values; `GetSettings` and the precedence lemmas state it |

## Left out

- I/O is not modelled; each outcome is a parameter instead. This covers the clock (`today`, `hour`, the RFC 3339 time stamp), the files (`.env` text, settings file), the process environment, the database query and insert, and `Path::exists`/`canonicalize`/`fs::read`.
- Process spawning, downloads and file probing in `commands/setup.rs` are left out: `install_whisper_auto`, `download_*`, `find_whisper_*`, and the ffmpeg probe. Their results (`binary`, `model`, `ffmpeg`) are inputs.
- The HTTP call to Gemini, base64 encoding, and parsing the cleaned reply as JSON are left out.
- `save_settings` is left out: it only serialises and writes.
- `settings_path` is reduced to the `configDir` outcome.
- Mutex locking and its error in `get_agent_message` and `execute_agent_action` are left out.
- Dates are day numbers. chrono's `%Y-%m-%d` parsing is an `Option<int>` input, and formatting is not modelled. The unused `started_date` is carried but never read.
- Text.Lower: only ASCII letters are lower-cased, unlike Rust's Unicode `to_lowercase`. So `Lower("MAGNÉSIO")` is "magnÉsio", which does not contain the needle "magnésio". Such a name takes no arm in the model, while the source books the magnesium panel for it.
- Text.Trim: only ASCII whitespace is removed (space, tab, '\n', vertical tab, form feed, '\r'). Rust's `trim` also removes the other Unicode `White_Space` characters, such as U+00A0 and U+2003. The same holds for `Text.TrimStart` and `Text.TrimEnd`.
- `Text.Lines` does not strip a '\r' before a '\n' as `str::lines` does. The loader trims every line, and '\r' is whitespace, so its decisions are the same.
- UV and latitude are `real`, with no NaN or infinities. The saturating `as u32` cast is left out: every rounded value it changes is clamped to 120 anyway.
- VitaminD.Calculate: the note is a datatype naming the branch and the values it quotes, not the `{:.0}`-formatted text.
- `std::env::var` failing on non-Unicode values is folded into "unset" (`None`).
- Gemini.Preflight: the file name is the text after the last '/'. Trailing separators, `.`/`..` components and non-UTF-8 names (where `to_str` fails) are not modelled.
- EnvRoundTrip.UpdateThenLoad: it requires more than "no other line contains `key=`":
  - the first `key=` must open a line, and no later line may assign the key, because a commented-out `#key=x` is rewritten but never loaded (`CommentedKeyNotLoaded`);
  - the old text must load without a `set_var` panic, because an earlier panicking line would still end the load;
  - key and value must contain no NUL, the key must be non-empty, and the key must not start with '#'.
- Setup.AppConfig.SaveApiKeys: only `set_var`'s success on the saved keys is modelled. Its panic on NUL in a key value is not.
- Setup.AppConfig.SaveApiKeys: the error texts of the directory and write failures are fixed strings, not the `io::Error` messages.
- EnvRoundTrip.UpdateThenLoad: its condition on the old text is sufficient, not necessary. Texts it does not cover can still round-trip, for instance an indented `  key=x` line, or a later line that assigns the same value again.
- Setup.AppConfig.SaveApiKeys: a write that fails after the truncating create is modelled as leaving a prefix of the new text. Which prefix depends on the `bytesWritten` input, since buffering by the operating system is not modelled.
