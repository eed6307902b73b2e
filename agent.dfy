/**
 * The HoloSelf agent (`commands/agent.rs`): the message chosen for the hour
 * of the day, and the execution of the action a message proposes. The clock,
 * the database query and the database insert are inputs.
 */
module Agent {
  import opened Wrappers

  const SupplementReminder := "supplement_reminder"
  const HealthInsight := "health_insight"
  const Medium := "medium"
  const Low := "low"
  const LogSupplement := "log_supplement"

  /** The JSON payload of an action, as the string fields `as_str` finds (`None` when absent or not a string). */
  datatype Payload = Payload(name: Option<string>, dosage: Option<string>, category: Option<string>)

  datatype AgentAction = AgentAction(actionType: string, payload: Payload)

  datatype AgentMessage = AgentMessage(text: string, category: string, priority: string, action: Option<AgentAction>)

  /** The record `execute_agent_action` inserts. */
  datatype SupplementEntry = SupplementEntry(
    id: Option<int>,
    name: string,
    dosage: string,
    takenAt: string,
    category: string,
    notes: Option<string>)

  /** A reminder: medium priority, with an action that logs the supplement. */
  function Reminder(text: string, name: string, dosage: string, category: string): AgentMessage {
    AgentMessage(text, SupplementReminder, Medium,
                 Some(AgentAction(LogSupplement, Payload(Some(name), Some(dosage), Some(category)))))
  }

  /** An insight: low priority, no action. */
  function Insight(text: string): AgentMessage {
    AgentMessage(text, HealthInsight, Low, None)
  }

  const WinfitReminder := Reminder(
    "Bom dia. O Winfit está à espera — 1000mg de Vitamina C + Zinco para fortalecer o sistema imunitário e apoiar a recuperação capilar.",
    "Winfit", "1 saqueta", "morning")
  const WinfitLogged := Insight("Winfit registado. Sistema imunitário em carga. Foco total.")
  const MagnesiumReminder := Reminder(
    "Atingimos a latência ótima. Está na hora do Magnésio Bisglicinato para proteger os folículos capilares e o sistema nervoso.",
    "Magnésio Bisglicinato", "1 cápsula", "night")
  const MelatoninReminder := Reminder(
    "01:30 aproxima-se. Prepara o Noxarem — Melatonina 3mg para sincronizar o ciclo circadiano.",
    "Noxarem (Melatonina 3mg)", "1 comprimido", "night")
  const SystemStable := Insight("Sistema estável. A monitorizar indicadores de recuperação.")

  /** A message is either a reminder with a `log_supplement` action or an insight without action. */
  predicate WellFormed(m: AgentMessage) {
    (m.category == SupplementReminder && m.priority == Medium && m.action.Some? && m.action.value.actionType == LogSupplement)
    || (m.category == HealthInsight && m.priority == Low && m.action.None?)
  }

  /**
   * `get_agent_message` for the local hour: `winfitTaken` is the answer of
   * the "Winfit taken today" query, `None` when the query failed.
   */
  function AgentMessageFor(hour: nat, winfitTaken: Option<bool>): (m: AgentMessage)
    ensures WellFormed(m)
    ensures 8 <= hour <= 11 ==> (m.category == SupplementReminder <==> winfitTaken != Some(true))
    ensures !(8 <= hour <= 11) ==> (m.category == SupplementReminder <==> hour <= 2 || hour == 23)
  {
    if 8 <= hour <= 11 then
      (if !winfitTaken.GetOr(false) then WinfitReminder else WinfitLogged)
    else if hour <= 2 then MagnesiumReminder
    else if hour == 23 then MelatoninReminder
    else SystemStable
  }

  /** A failed query counts as "not taken": the reminder is shown. */
  lemma FailedQueryShowsReminder(hour: nat)
    ensures AgentMessageFor(hour, None) == AgentMessageFor(hour, Some(false))
    ensures 8 <= hour <= 11 ==> AgentMessageFor(hour, None) == WinfitReminder
  {
  }

  /** The Winfit answer only matters between 08:00 and 11:59. */
  lemma WinfitOnlyInTheMorning(hour: nat, w1: Option<bool>, w2: Option<bool>)
    requires !(8 <= hour <= 11)
    ensures AgentMessageFor(hour, w1) == AgentMessageFor(hour, w2)
  {
  }

  /** Which supplement each hour reminds of. */
  lemma ReminderByHour(hour: nat, w: Option<bool>)
    ensures hour <= 2 ==> AgentMessageFor(hour, w).action.value.payload.name == Some("Magnésio Bisglicinato")
    ensures hour == 23 ==> AgentMessageFor(hour, w).action.value.payload.name == Some("Noxarem (Melatonina 3mg)")
    ensures 8 <= hour <= 11 && w != Some(true) ==> AgentMessageFor(hour, w).action.value.payload.name == Some("Winfit")
    ensures 3 <= hour <= 7 || 12 <= hour <= 22 ==> AgentMessageFor(hour, w) == SystemStable
  {
  }

  // ------------------------------------------------------------ execute_agent_action

  /** The entry for a `log_supplement` payload, with the defaults for missing fields. */
  function EntryFor(payload: Payload, now: string): (e: SupplementEntry)
    ensures e.id.None? && e.notes.None? && e.takenAt == now
    ensures e.name == (if payload.name.Some? then payload.name.value else "Unknown")
    ensures e.dosage == (if payload.dosage.Some? then payload.dosage.value else "")
    ensures e.category == (if payload.category.Some? then payload.category.value else "as_needed")
  {
    SupplementEntry(None, payload.name.GetOr("Unknown"), payload.dosage.GetOr(""), now,
                    payload.category.GetOr("as_needed"), None)
  }

  /**
   * `execute_agent_action`: only `log_supplement` is known. `now` is the
   * RFC 3339 time stamp and `insertError` what the insert reported, `None`
   * on success. On success the inserted entry and the reply text are returned.
   */
  function ExecuteAgentAction(actionType: string, payload: Payload, now: string, insertError: Option<string>)
    : (r: Result<(SupplementEntry, string), string>)
    ensures actionType != LogSupplement ==> r == Err("Ação desconhecida: " + actionType)
    ensures actionType == LogSupplement && insertError.Some? ==> r == Err(insertError.value)
    ensures r.Ok? <==> actionType == LogSupplement && insertError.None?
    ensures r.Ok? ==> r.value.0 == EntryFor(payload, now) && r.value.1 == r.value.0.name + " registado com sucesso."
  {
    if actionType == LogSupplement then
      var entry := EntryFor(payload, now);
      if insertError.Some? then Err(insertError.value)
      else Ok((entry, entry.name + " registado com sucesso."))
    else Err("Ação desconhecida: " + actionType)
  }

  /** An empty payload logs "Unknown" with no dosage, as needed. */
  lemma EmptyPayloadDefaults(now: string)
    ensures ExecuteAgentAction(LogSupplement, Payload(None, None, None), now, None)
         == Ok((SupplementEntry(None, "Unknown", "", now, "as_needed", None), "Unknown registado com sucesso."))
  {
    assert "Unknown" + " registado com sucesso." == "Unknown registado com sucesso.";
  }

  /** Running the action a message proposes logs the supplement it names, with its dosage and category. */
  lemma ProposedActionLogs(hour: nat, w: Option<bool>, now: string)
    requires AgentMessageFor(hour, w).action.Some?
    ensures var a := AgentMessageFor(hour, w).action.value;
            var r := ExecuteAgentAction(a.actionType, a.payload, now, None);
            r.Ok? && Some(r.value.0.name) == a.payload.name && Some(r.value.0.dosage) == a.payload.dosage
            && Some(r.value.0.category) == a.payload.category
  {
  }
}
