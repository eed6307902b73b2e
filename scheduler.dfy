/**
 * The predictive exam scheduler: from the supplements being taken and the
 * lab history it derives the exams to book next. Dates are day numbers;
 * `today` is an input rather than a clock read, and a lab's date is already
 * the result of parsing its "%Y-%m-%d" text (None when that text does not parse).
 */
module Scheduler {
  import opened Wrappers
  import opened Text

  datatype SupplementInfo = SupplementInfo(name: string, startedDate: string)

  datatype LabInfo = LabInfo(marker: string, date: Option<int>)

  /** The six exams the scheduler can book. */
  datatype ExamKind = ZincCopper | Autoimmune | MagnesiumCortisol | Iron | VitaminD | Thyroid

  /** A booked exam; its three text fields are determined by its kind. */
  datatype ScheduledExam = ScheduledExam(kind: ExamKind, scheduledDate: int) {
    function ExamType(): string {
      match kind
      case ZincCopper => "zinc_copper_panel"
      case Autoimmune => "autoimmune_panel"
      case MagnesiumCortisol => "magnesium_cortisol_panel"
      case Iron => "iron_panel"
      case VitaminD => "vitamin_d_panel"
      case Thyroid => "thyroid_panel"
    }

    function Reason(): string {
      match kind
      case ZincCopper => "Monitorizar rácio Zinco/Cobre após 3 meses de suplementação com Winfit."
      case Autoimmune => "Painel autoimune (ANA) para monitorizar Alopecia Areata — check semestral."
      case MagnesiumCortisol => "Verificar Magnésio sérico + Cortisol para avaliar recuperação do sistema nervoso."
      case Iron => "Painel de ferro (Ferritina, Ferro sérico) — Vitamina C aumenta absorção de ferro."
      case VitaminD => "Verificação trimestral de Vitamina D — essencial para fototipo lightskin em Portugal (latitude alta, UV baixo no inverno)."
      case Thyroid => "Painel tiroide (TSH, T3, T4) — monitorizar impacto do burnout crónico na tiroide."
    }

    function TriggeredBy(): string {
      match kind
      case ZincCopper => "zinc_supplementation_3mo"
      case Autoimmune => "alopecia_areata_6mo"
      case MagnesiumCortisol => "magnesium_supplementation_4mo"
      case Iron => "vitc_iron_absorption_6mo"
      case VitaminD => "vitd_quarterly_lightskin_portugal"
      case Thyroid => "burnout_thyroid_6mo"
    }
  }

  /** Months counted for a lab that is missing or whose date does not parse. */
  const NoLabMonths := 999

  // ------------------------------------------------------------ lab lookup

  /**
   * Rust's `i64` division, which truncates toward zero: the quotient is the
   * integer next to `a / b` on the side of zero, so the remainder takes the
   * sign of `a`.
   */
  function TruncDiv(a: int, b: int): (q: int)
    requires b > 0
    ensures a >= 0 ==> q * b <= a < q * b + b
    ensures a < 0 ==> q * b - b < a <= q * b
  {
    if a >= 0 then a / b else -((-a) / b)
  }

  predicate MarkerMatches(lab: LabInfo, needle: string) {
    Contains(Lower(lab.marker), needle)
  }

  /** The position of the first lab (in list order) whose lowercased marker contains `needle`. */
  function FindLabFrom(labs: seq<LabInfo>, needle: string, from: nat): (r: Option<nat>)
    requires from <= |labs|
    decreases |labs| - from
    ensures r.Some? ==> from <= r.value < |labs|
  {
    if from == |labs| then None
    else if MarkerMatches(labs[from], needle) then Some(from)
    else FindLabFrom(labs, needle, from + 1)
  }

  function FindLab(labs: seq<LabInfo>, needle: string): (r: Option<nat>)
    ensures r.Some? ==> r.value < |labs|
  {
    FindLabFrom(labs, needle, 0)
  }

  lemma {:induction false} FindLabFromIsFirst(labs: seq<LabInfo>, needle: string, from: nat)
    requires from <= |labs|
    decreases |labs| - from
    ensures FindLabFrom(labs, needle, from).Some? ==> MarkerMatches(labs[FindLabFrom(labs, needle, from).value], needle)
    ensures FindLabFrom(labs, needle, from).Some? ==>
      forall j :: from <= j < FindLabFrom(labs, needle, from).value ==> !MarkerMatches(labs[j], needle)
    ensures FindLabFrom(labs, needle, from).None? ==> forall j :: from <= j < |labs| ==> !MarkerMatches(labs[j], needle)
  {
    if from < |labs| && !MarkerMatches(labs[from], needle) {
      FindLabFromIsFirst(labs, needle, from + 1);
    }
  }

  /** The lab a rule reads is the first one, in list order, whose marker matches; `None` means none matches. */
  lemma FindLabIsFirst(labs: seq<LabInfo>, needle: string)
    ensures FindLab(labs, needle).Some? ==> MarkerMatches(labs[FindLab(labs, needle).value], needle)
    ensures FindLab(labs, needle).Some? ==> forall j :: 0 <= j < FindLab(labs, needle).value ==> !MarkerMatches(labs[j], needle)
    ensures FindLab(labs, needle).None? ==> forall j :: 0 <= j < |labs| ==> !MarkerMatches(labs[j], needle)
  {
    FindLabFromIsFirst(labs, needle, 0);
  }

  /** The day number of the first matching lab, when there is one and its date parses. */
  function LabDate(labs: seq<LabInfo>, needle: string): Option<int> {
    match FindLab(labs, needle)
    case None => None
    case Some(i) => labs[i].date
  }

  /** Whole 30-day months since the first matching lab, or 999 when there is no usable one. */
  function MonthsSince(today: int, labs: seq<LabInfo>, needle: string): int {
    match LabDate(labs, needle)
    case None => NoLabMonths
    case Some(d) => TruncDiv(today - d, 30)
  }

  /** A threshold of `n` months on the truncated count is a threshold of 30n days. */
  lemma MonthsThreshold(days: int, n: nat)
    requires n > 0
    ensures TruncDiv(days, 30) >= n <==> days >= 30 * n
  {
    if days >= 30 * n {
      assert days / 30 >= (30 * n) / 30;
    } else if days >= 0 {
      assert days / 30 < n;
    }
  }

  /**
   * A rule with threshold `n` months fires exactly when there is no usable lab
   * for it or that lab is at least 30n days old.
   */
  lemma RuleFires(today: int, labs: seq<LabInfo>, needle: string, n: nat)
    requires 0 < n <= NoLabMonths
    ensures MonthsSince(today, labs, needle) >= n <==>
      (LabDate(labs, needle).None? || today - LabDate(labs, needle).value >= 30 * n)
  {
    if LabDate(labs, needle).Some? {
      MonthsThreshold(today - LabDate(labs, needle).value, n);
    }
  }

  /** A lab dated today or later gives a count of at most zero, so no rule fires for it. */
  lemma FutureLabDoesNotFire(today: int, labs: seq<LabInfo>, needle: string)
    requires LabDate(labs, needle).Some? && LabDate(labs, needle).value >= today
    ensures MonthsSince(today, labs, needle) <= 0
  {
    var days := today - LabDate(labs, needle).value;
    assert -days >= 0;
    assert (-days) / 30 >= 0;
  }

  // ------------------------------------------------------------ the rules

  predicate IsZincName(name: string) {
    Contains(name, "zinco") || Contains(name, "zinc") || Contains(name, "winfit")
  }

  predicate IsMagnesiumName(name: string) {
    Contains(name, "magnésio") || Contains(name, "magnesium") || Contains(name, "bisglicinato")
  }

  predicate IsVitaminCName(name: string) {
    Contains(name, "vitamina c") || Contains(name, "vitamin c") || Contains(name, "vit c")
  }

  /** Days from today at which each kind of exam is booked. */
  function DelayDays(kind: ExamKind): int {
    match kind
    case ZincCopper | Autoimmune | VitaminD => 7
    case MagnesiumCortisol | Iron | Thyroid => 14
  }

  function Exam(kind: ExamKind, today: int): ScheduledExam {
    ScheduledExam(kind, today + DelayDays(kind))
  }

  /** The match arms of the scheduler, in the order they are tried. */
  datatype Arm = ZincArm | MagnesiumArm | VitaminCArm | NoArm

  /** The first arm whose guard the lowercased supplement name satisfies. */
  function ArmOf(name: string): Arm {
    if IsZincName(name) then ZincArm
    else if IsMagnesiumName(name) then MagnesiumArm
    else if IsVitaminCName(name) then VitaminCArm
    else NoArm
  }

  /**
   * Which rules are due: each compares the months since its lab with its
   * threshold. None of them depends on the supplement being looked at.
   */
  datatype Due = Due(zinc: bool, ana: bool, magnesium: bool, ferritin: bool, vitaminD: bool, tsh: bool)

  function DueFrom(labs: seq<LabInfo>, today: int): Due {
    Due(MonthsSince(today, labs, "zinc") >= 3,
        MonthsSince(today, labs, "ana") >= 6,
        MonthsSince(today, labs, "magnesium") >= 4,
        MonthsSince(today, labs, "ferritin") >= 6,
        MonthsSince(today, labs, "vitamin d") >= 3,
        MonthsSince(today, labs, "tsh") >= 6)
  }

  /** The exams one arm adds. */
  function ArmExams(arm: Arm, due: Due, today: int): seq<ScheduledExam> {
    match arm
    case ZincArm =>
      (if due.zinc then [Exam(ZincCopper, today)] else [])
      + (if due.ana then [Exam(Autoimmune, today)] else [])
    case MagnesiumArm => if due.magnesium then [Exam(MagnesiumCortisol, today)] else []
    case VitaminCArm => if due.ferritin then [Exam(Iron, today)] else []
    case NoArm => []
  }

  /** The exams one supplement adds: only the first arm its lowercased name matches applies. */
  function ExamsFor(supp: SupplementInfo, due: Due, today: int): seq<ScheduledExam> {
    ArmExams(ArmOf(Lower(supp.name)), due, today)
  }

  /** The supplement-driven exams, in supplement order. */
  function SupplementExams(supps: seq<SupplementInfo>, due: Due, today: int): seq<ScheduledExam> {
    if supps == [] then []
    else SupplementExams(supps[..|supps| - 1], due, today) + ExamsFor(supps[|supps| - 1], due, today)
  }

  /** The two checks made whatever the supplements are: vitamin D, then thyroid. */
  function AlwaysExams(due: Due, today: int): seq<ScheduledExam> {
    (if due.vitaminD then [Exam(VitaminD, today)] else [])
    + (if due.tsh then [Exam(Thyroid, today)] else [])
  }

  /** The schedule for a given outcome of the lab rules: supplement-driven exams, then the standing checks. */
  function ScheduleWith(supps: seq<SupplementInfo>, due: Due, today: int): seq<ScheduledExam> {
    SupplementExams(supps, due, today) + AlwaysExams(due, today)
  }

  /** The whole schedule. */
  function Schedule(supps: seq<SupplementInfo>, labs: seq<LabInfo>, today: int): seq<ScheduledExam> {
    ScheduleWith(supps, DueFrom(labs, today), today)
  }

  /** `generate_exam_schedule`: builds the list by pushing, supplement by supplement, then the two standing checks. */
  method GenerateExamSchedule(supplements: seq<SupplementInfo>, lastLabs: seq<LabInfo>, today: int)
    returns (exams: seq<ScheduledExam>)
    ensures exams == Schedule(supplements, lastLabs, today)
  {
    exams := [];
    ghost var due := DueFrom(lastLabs, today);
    for k := 0 to |supplements|
      invariant exams == SupplementExams(supplements[..k], due, today)
    {
      ghost var before := exams;
      // the match arms' guards, tried in order on the lowercased name
      match ArmOf(Lower(supplements[k].name)) {
        case ZincArm =>
          var monthsSince := MonthsSince(today, lastLabs, "zinc");
          if monthsSince >= 3 {
            exams := exams + [Exam(ZincCopper, today)];
          }
          ghost var mid := exams;
          var monthsSinceAna := MonthsSince(today, lastLabs, "ana");
          if monthsSinceAna >= 6 {
            exams := exams + [Exam(Autoimmune, today)];
          }
          ArmStep(before, mid, exams, ZincArm, due, today);
        case MagnesiumArm =>
          var monthsSince := MonthsSince(today, lastLabs, "magnesium");
          if monthsSince >= 4 {
            exams := exams + [Exam(MagnesiumCortisol, today)];
          }
          ArmStep(before, exams, exams, MagnesiumArm, due, today);
        case VitaminCArm =>
          var monthsSince := MonthsSince(today, lastLabs, "ferritin");
          if monthsSince >= 6 {
            exams := exams + [Exam(Iron, today)];
          }
          ArmStep(before, exams, exams, VitaminCArm, due, today);
        case NoArm =>
          ArmStep(before, exams, exams, NoArm, due, today);
      }
      SupplementExamsStep(supplements, k, due, today);
    }
    assert supplements[..|supplements|] == supplements;

    var monthsSinceVitD := MonthsSince(today, lastLabs, "vitamin d");
    if monthsSinceVitD >= 3 {
      exams := exams + [Exam(VitaminD, today)];
    }
    var monthsSinceTsh := MonthsSince(today, lastLabs, "tsh");
    if monthsSinceTsh >= 6 {
      exams := exams + [Exam(Thyroid, today)];
    }
  }

  // ------------------------------------------------------------ properties

  function Kinds(exams: seq<ScheduledExam>): (r: seq<ExamKind>)
    ensures |r| == |exams| && forall k :: 0 <= k < |exams| ==> r[k] == exams[k].kind
  {
    seq(|exams|, k requires 0 <= k < |exams| => exams[k].kind)
  }

  lemma KindsAppend(a: seq<ScheduledExam>, b: seq<ScheduledExam>)
    ensures Kinds(a + b) == Kinds(a) + Kinds(b)
  {
  }

  /**
   * A zinc-type supplement books the zinc/copper panel exactly when the first
   * lab whose marker contains "zinc" is missing, undated or at least 90 days old.
   */
  lemma ZincPanelRule(supp: SupplementInfo, labs: seq<LabInfo>, today: int)
    requires IsZincName(Lower(supp.name))
    ensures ZincCopper in Kinds(ExamsFor(supp, DueFrom(labs, today), today)) <==>
      (LabDate(labs, "zinc").None? || today - LabDate(labs, "zinc").value >= 90)
  {
    RuleFires(today, labs, "zinc", 3);
    var due := DueFrom(labs, today);
    var k := Kinds(ExamsFor(supp, due, today));
    if due.zinc {
      assert k[0] == ZincCopper;
    } else {
      assert k == [] || k == [Autoimmune];
    }
  }

  /** Only the first matching arm applies: a name matching several arms adds only the first arm's exams. */
  lemma FirstArmWins(supp: SupplementInfo, due: Due, today: int)
    ensures IsZincName(Lower(supp.name)) ==>
      MagnesiumCortisol !in Kinds(ExamsFor(supp, due, today)) && Iron !in Kinds(ExamsFor(supp, due, today))
    ensures !IsZincName(Lower(supp.name)) && IsMagnesiumName(Lower(supp.name)) ==>
      Kinds(ExamsFor(supp, due, today)) <= [MagnesiumCortisol]
    ensures !IsZincName(Lower(supp.name)) && !IsMagnesiumName(Lower(supp.name)) && IsVitaminCName(Lower(supp.name)) ==>
      Kinds(ExamsFor(supp, due, today)) <= [Iron]
    ensures !IsZincName(Lower(supp.name)) && !IsMagnesiumName(Lower(supp.name)) && !IsVitaminCName(Lower(supp.name)) ==>
      ExamsFor(supp, due, today) == []
  {
    var e := ExamsFor(supp, due, today);
    if ArmOf(Lower(supp.name)) == ZincArm {
      assert Kinds(e) == (if due.zinc then [ZincCopper] else []) + (if due.ana then [Autoimmune] else []);
    }
  }

  /** A supplement adds at most two exams, and never a vitamin D or thyroid panel. */
  lemma ExamsForShape(supp: SupplementInfo, due: Due, today: int)
    ensures |ExamsFor(supp, due, today)| <= 2
    ensures VitaminD !in Kinds(ExamsFor(supp, due, today)) && Thyroid !in Kinds(ExamsFor(supp, due, today))
  {
    var e := ExamsFor(supp, due, today);
    if ArmOf(Lower(supp.name)) == ZincArm {
      assert Kinds(e) == (if due.zinc then [ZincCopper] else []) + (if due.ana then [Autoimmune] else []);
    }
  }

  /** One pass of the loop body: what the arm pushed onto the list is that arm's exams. */
  lemma ArmStep(before: seq<ScheduledExam>, mid: seq<ScheduledExam>, after: seq<ScheduledExam>, arm: Arm, due: Due, today: int)
    requires arm == ZincArm ==> mid == before + (if due.zinc then [Exam(ZincCopper, today)] else [])
    requires arm == ZincArm ==> after == mid + (if due.ana then [Exam(Autoimmune, today)] else [])
    requires arm == MagnesiumArm ==> after == before + (if due.magnesium then [Exam(MagnesiumCortisol, today)] else [])
    requires arm == VitaminCArm ==> after == before + (if due.ferritin then [Exam(Iron, today)] else [])
    requires arm == NoArm ==> after == before
    ensures after == before + ArmExams(arm, due, today)
  {
  }

  lemma SupplementExamsStep(supps: seq<SupplementInfo>, k: nat, due: Due, today: int)
    requires k < |supps|
    ensures SupplementExams(supps[..k + 1], due, today) == SupplementExams(supps[..k], due, today) + ExamsFor(supps[k], due, today)
  {
    assert supps[..k + 1][..k] == supps[..k];
  }

  /** Supplement-driven exams of a concatenated list are those of each part, in order (no dedup). */
  lemma {:induction false} SupplementExamsAppend(s1: seq<SupplementInfo>, s2: seq<SupplementInfo>, due: Due, today: int)
    ensures SupplementExams(s1 + s2, due, today) == SupplementExams(s1, due, today) + SupplementExams(s2, due, today)
    decreases |s2|
  {
    if s2 == [] {
      assert s1 + s2 == s1;
    } else {
      var s2', last := s2[..|s2| - 1], s2[|s2| - 1];
      assert (s1 + s2)[..|s1 + s2| - 1] == s1 + s2';
      assert (s1 + s2)[|s1 + s2| - 1] == last;
      SupplementExamsAppend(s1, s2', due, today);
      var e1, e2, e := SupplementExams(s1, due, today), SupplementExams(s2', due, today), ExamsFor(last, due, today);
      calc {
        SupplementExams(s1 + s2, due, today);
        SupplementExams(s1 + s2', due, today) + e;
        (e1 + e2) + e;
        { assert (e1 + e2) + e == e1 + (e2 + e); }
        e1 + (e2 + e);
      }
    }
  }

  /** A supplement listed twice yields its exams twice. */
  lemma RepeatedSupplement(supp: SupplementInfo, due: Due, today: int)
    ensures SupplementExams([supp, supp], due, today) == ExamsFor(supp, due, today) + ExamsFor(supp, due, today)
  {
    assert [supp, supp][..1] == [supp];
    assert [supp][..0] == [];
    assert SupplementExams([supp], due, today) == ExamsFor(supp, due, today);
  }

  /** Supplements add at most two exams each, and never a vitamin D or thyroid panel. */
  lemma {:induction false} SupplementExamsShape(supps: seq<SupplementInfo>, due: Due, today: int)
    ensures |SupplementExams(supps, due, today)| <= 2 * |supps|
    ensures VitaminD !in Kinds(SupplementExams(supps, due, today))
    ensures Thyroid !in Kinds(SupplementExams(supps, due, today))
    decreases |supps|
  {
    if supps != [] {
      var init := supps[..|supps| - 1];
      SupplementExamsShape(init, due, today);
      ExamsForShape(supps[|supps| - 1], due, today);
      KindsAppend(SupplementExams(init, due, today), ExamsFor(supps[|supps| - 1], due, today));
    }
  }

  /** The schedule has at most two exams per supplement plus the two standing checks. */
  lemma ScheduleLength(supps: seq<SupplementInfo>, labs: seq<LabInfo>, today: int)
    ensures |Schedule(supps, labs, today)| <= 2 * |supps| + 2
  {
    SupplementExamsShape(supps, DueFrom(labs, today), today);
  }

  /**
   * The vitamin D and thyroid checks are each booked at most once, exactly when
   * their own rule is due, and they come last: vitamin D, then thyroid.
   */
  lemma StandingChecks(supps: seq<SupplementInfo>, due: Due, today: int)
    ensures multiset(Kinds(ScheduleWith(supps, due, today)))[VitaminD] == if due.vitaminD then 1 else 0
    ensures multiset(Kinds(ScheduleWith(supps, due, today)))[Thyroid] == if due.tsh then 1 else 0
    ensures ScheduleWith(supps, due, today)[|SupplementExams(supps, due, today)|..] == AlwaysExams(due, today)
    ensures Kinds(AlwaysExams(due, today)) ==
      (if due.vitaminD then [VitaminD] else []) + (if due.tsh then [Thyroid] else [])
  {
    var sup := SupplementExams(supps, due, today);
    var always := AlwaysExams(due, today);
    var ks := (if due.vitaminD then [VitaminD] else []) + (if due.tsh then [Thyroid] else []);
    assert Kinds(always) == ks;
    assert multiset(ks)[VitaminD] == if due.vitaminD then 1 else 0;
    assert multiset(ks)[Thyroid] == if due.tsh then 1 else 0;
    SupplementExamsShape(supps, due, today);
    KindsAppend(sup, always);
    assert multiset(Kinds(sup)) !! multiset{VitaminD, Thyroid} by {
      assert VitaminD !in multiset(Kinds(sup)) && Thyroid !in multiset(Kinds(sup));
    }
    assert multiset(Kinds(sup) + ks) == multiset(Kinds(sup)) + multiset(ks);
  }

  /**
   * Each rule is due exactly when its first matching lab is missing, has a date
   * that does not parse, or is at least 30 times its threshold in days old.
   */
  lemma DueFromLabs(labs: seq<LabInfo>, today: int)
    ensures DueFrom(labs, today).zinc <==> LabDate(labs, "zinc").None? || today - LabDate(labs, "zinc").value >= 90
    ensures DueFrom(labs, today).ana <==> LabDate(labs, "ana").None? || today - LabDate(labs, "ana").value >= 180
    ensures DueFrom(labs, today).magnesium <==>
      LabDate(labs, "magnesium").None? || today - LabDate(labs, "magnesium").value >= 120
    ensures DueFrom(labs, today).ferritin <==>
      LabDate(labs, "ferritin").None? || today - LabDate(labs, "ferritin").value >= 180
    ensures DueFrom(labs, today).vitaminD <==>
      LabDate(labs, "vitamin d").None? || today - LabDate(labs, "vitamin d").value >= 90
    ensures DueFrom(labs, today).tsh <==> LabDate(labs, "tsh").None? || today - LabDate(labs, "tsh").value >= 180
  {
    RuleFires(today, labs, "zinc", 3);
    RuleFires(today, labs, "ana", 6);
    RuleFires(today, labs, "magnesium", 4);
    RuleFires(today, labs, "ferritin", 6);
    RuleFires(today, labs, "vitamin d", 3);
    RuleFires(today, labs, "tsh", 6);
  }

  /** Every booked exam is dated 7 days out (zinc, ANA, vitamin D) or 14 days out (magnesium, iron, thyroid). */
  lemma {:induction false} SupplementExamDates(supps: seq<SupplementInfo>, due: Due, today: int)
    ensures forall e :: e in SupplementExams(supps, due, today) ==>
      e.scheduledDate == today + (if e.kind in {ZincCopper, Autoimmune, VitaminD} then 7 else 14)
    decreases |supps|
  {
    if supps != [] {
      SupplementExamDates(supps[..|supps| - 1], due, today);
    }
  }

  lemma ScheduledDates(supps: seq<SupplementInfo>, due: Due, today: int)
    ensures forall e :: e in ScheduleWith(supps, due, today) ==>
      e.scheduledDate == today + (if e.kind in {ZincCopper, Autoimmune, VitaminD} then 7 else 14)
  {
    SupplementExamDates(supps, due, today);
    var always := AlwaysExams(due, today);
    assert forall e :: e in always ==> e == Exam(VitaminD, today) || e == Exam(Thyroid, today);
  }

  /** A missing lab, or one whose date does not parse, counts as 999 months, so its standing check is always booked. */
  lemma MissingLabAlwaysBooked(supps: seq<SupplementInfo>, labs: seq<LabInfo>, today: int)
    ensures LabDate(labs, "vitamin d").None? ==> VitaminD in Kinds(Schedule(supps, labs, today))
    ensures LabDate(labs, "tsh").None? ==> Thyroid in Kinds(Schedule(supps, labs, today))
  {
    var due := DueFrom(labs, today);
    StandingChecks(supps, due, today);
    DueFromLabs(labs, today);
  }
}
