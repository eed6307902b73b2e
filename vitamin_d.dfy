/**
 * The vitamin D recommendation (`services/vitamin_d.rs`): a decision table
 * over Fitzpatrick skin type, UV index, latitude band and month giving a
 * clamped exposure time, a sun window and a D3 supplement dose.
 */
module VitaminD {
  import opened Wrappers

  /** Rust's `u8`. */
  newtype u8 = x: int | 0 <= x < 256

  /** Fitzpatrick type used when none is given. */
  const DefaultSkinType: u8 := 4
  /** Lisbon, used when no latitude is given. */
  const PortugalLatitude: real := 38.7

  /** A sun window, as minutes after midnight. */
  datatype Window = Window(start: nat, end: nat)

  /** Which of the three note texts is produced, with the values it quotes. */
  datatype Note =
    | VeryLowUv(uvIndex: real, d3: nat, skin: u8)
    | ModerateUv(uvIndex: real, minutes: nat, window: string, d3: nat)
    | GoodUv(uvIndex: real, minutes: nat, window: string)

  datatype Recommendation = Recommendation(
    uvIndex: real,
    skinType: u8,
    latitude: real,
    optimalMinutes: nat,
    bestWindow: string,
    d3IuSupplement: nat,
    note: Note)

  // ------------------------------------------------------------ exposure

  /** Minimal erythemal dose at UV 6, in minutes, by skin type. */
  function BaseMedMinutes(skin: u8): real {
    match skin
    case 1 => 10.0
    case 2 => 15.0
    case 3 => 20.0
    case 4 => 30.0
    case 5 => 45.0
    case 6 => 60.0
    case _ => 30.0
  }

  function UvFactor(uv: real): real {
    if uv > 0.0 then 6.0 / uv else 10.0
  }

  /** `f64::round` on a non-negative value: halves go up. */
  function Round(x: real): (n: int)
    requires x >= 0.0
    ensures n >= 0
    ensures n as real <= x + 0.5 < n as real + 1.0
  {
    (x + 0.5).Floor
  }

  /** `Ord::clamp`. */
  function Clamp(x: int, lo: int, hi: int): (r: int)
    requires lo <= hi
    ensures lo <= r <= hi
    ensures lo <= x <= hi ==> r == x
    ensures x < lo ==> r == lo
    ensures x > hi ==> r == hi
  {
    if x < lo then lo else if x > hi then hi else x
  }

  /** Half of the dose, scaled by the UV factor, rounded, then clamped to [10, 120]. */
  function OptimalMinutes(uv: real, skin: u8): (m: nat)
    ensures 10 <= m <= 120
  {
    var base := BaseMedMinutes(skin);
    var factor := UvFactor(uv);
    assert base * factor >= 0.0;
    Clamp(Round(base * factor * 0.5), 10, 120)
  }

  lemma FactorAntitone(uv1: real, uv2: real)
    requires 0.0 < uv1 <= uv2
    ensures UvFactor(uv2) <= UvFactor(uv1)
  {
    var f1, f2 := 6.0 / uv1, 6.0 / uv2;
    assert f1 * uv1 == 6.0 && f2 * uv2 == 6.0;
    assert f2 > 0.0;
    assert f2 * (uv2 - uv1) >= 0.0;
    assert (f1 - f2) * uv1 >= 0.0;
  }

  lemma RoundMonotone(x: real, y: real)
    requires 0.0 <= x <= y
    ensures Round(x) <= Round(y)
  {
  }

  /** For a fixed skin type, more UV never means a longer exposure. */
  lemma {:induction false} MinutesAntitoneInUv(uv1: real, uv2: real, skin: u8)
    requires 0.0 < uv1 <= uv2
    ensures OptimalMinutes(uv2, skin) <= OptimalMinutes(uv1, skin)
  {
    var base := BaseMedMinutes(skin);
    FactorAntitone(uv1, uv2);
    assert base * UvFactor(uv2) <= base * UvFactor(uv1);
    RoundMonotone(base * UvFactor(uv2) * 0.5, base * UvFactor(uv1) * 0.5);
  }

  /** A UV index of zero or below uses factor 10: five times the dose, capped at 120. */
  lemma NoUvMinutes(uv: real, skin: u8)
    requires uv <= 0.0
    ensures OptimalMinutes(uv, skin) == (if skin == 1 then 50 else if skin == 2 then 75 else if skin == 3 then 100 else 120)
  {
  }

  /** The dose table grows with the skin type over the Fitzpatrick range 1..6. */
  lemma BaseMedGrowsWithSkin(s1: u8, s2: u8)
    requires 1 <= s1 <= s2 <= 6
    ensures BaseMedMinutes(s1) <= BaseMedMinutes(s2)
  {
  }

  // ------------------------------------------------------------ sun window

  function BestWindowSpan(lat: real, month: nat): Window {
    if lat > 45.0 then Window(690, 810)              // 11:30 - 13:30
    else if lat > 35.0 then
      (if month in {11, 12, 1, 2} then Window(660, 840)          // 11:00 - 14:00
       else if month in {3, 4, 9, 10} then Window(660, 900)     // 11:00 - 15:00
       else Window(600, 960))                                     // 10:00 - 16:00
    else Window(600, 960)
  }

  function Digit(d: nat): char
    requires d < 10
  {
    "0123456789"[d]
  }

  /** Minutes after midnight as "HH:MM". */
  function Clock(m: nat): string
    requires m < 24 * 60
  {
    var h, mm := m / 60, m % 60;
    [Digit(h / 10), Digit(h % 10), ':', Digit(mm / 10), Digit(mm % 10)]
  }

  function Label(w: Window): string
    requires w.start < 24 * 60 && w.end < 24 * 60
  {
    Clock(w.start) + " - " + Clock(w.end)
  }

  /** The window text of the record. */
  function BestWindow(lat: real, month: nat): string {
    Label(BestWindowSpan(lat, month))
  }

  lemma LabelNoon() ensures Label(Window(690, 810)) == "11:30 - 13:30" {
    assert Clock(690) == "11:30" && Clock(810) == "13:30";
  }

  lemma LabelWinter() ensures Label(Window(660, 840)) == "11:00 - 14:00" {
    assert Clock(660) == "11:00" && Clock(840) == "14:00";
  }

  lemma LabelSpring() ensures Label(Window(660, 900)) == "11:00 - 15:00" {
    assert Clock(660) == "11:00" && Clock(900) == "15:00";
  }

  lemma LabelSummer() ensures Label(Window(600, 960)) == "10:00 - 16:00" {
    assert Clock(600) == "10:00" && Clock(960) == "16:00";
  }

  /** The window text, by latitude band and, between 35 and 45 degrees, by month. */
  lemma BestWindowText(lat: real, month: nat)
    ensures lat > 45.0 ==> BestWindow(lat, month) == "11:30 - 13:30"
    ensures 35.0 < lat <= 45.0 && month in {11, 12, 1, 2} ==> BestWindow(lat, month) == "11:00 - 14:00"
    ensures 35.0 < lat <= 45.0 && month in {3, 4, 9, 10} ==> BestWindow(lat, month) == "11:00 - 15:00"
    ensures 35.0 < lat <= 45.0 && month !in {11, 12, 1, 2, 3, 4, 9, 10} ==> BestWindow(lat, month) == "10:00 - 16:00"
    ensures lat <= 35.0 ==> BestWindow(lat, month) == "10:00 - 16:00"
  {
    LabelNoon();
    LabelWinter();
    LabelSpring();
    LabelSummer();
  }

  predicate Within(inner: Window, outer: Window) {
    outer.start <= inner.start && inner.end <= outer.end
  }

  /** Every window includes solar noon, 11:30 to 13:30. */
  lemma WindowCoversNoon(lat: real, month: nat)
    ensures Within(Window(690, 810), BestWindowSpan(lat, month))
  {
  }

  /** In a given month, moving to a higher latitude never widens the window. */
  lemma WindowNarrowsWithLatitude(lat1: real, lat2: real, month: nat)
    requires lat1 <= lat2
    ensures Within(BestWindowSpan(lat2, month), BestWindowSpan(lat1, month))
  {
  }

  /** At mid latitudes the winter window lies inside the spring/autumn one, which lies inside the summer one. */
  lemma WindowWidensTowardSummer(lat: real, winter: nat, spring: nat, summer: nat)
    requires 35.0 < lat <= 45.0
    requires winter in {11, 12, 1, 2} && spring in {3, 4, 9, 10} && summer in {5, 6, 7, 8}
    ensures Within(BestWindowSpan(lat, winter), BestWindowSpan(lat, spring))
    ensures Within(BestWindowSpan(lat, spring), BestWindowSpan(lat, summer))
  {
  }

  // ------------------------------------------------------------ supplement

  /** The daily D3 dose, by UV band (< 3, < 5, otherwise) and skin band. */
  function D3Supplement(uv: real, skin: u8): nat {
    if uv < 3.0 then
      (if 1 <= skin <= 2 then 2000 else if 3 <= skin <= 4 then 3000 else 4000)
    else if uv < 5.0 then
      (if 1 <= skin <= 2 then 1000 else if 3 <= skin <= 4 then 2000 else 3000)
    else
      (if 1 <= skin <= 3 then 0 else 1000)
  }

  /** For a fixed skin type, more UV never raises the dose. */
  lemma D3AntitoneInUv(uv1: real, uv2: real, skin: u8)
    requires uv1 <= uv2
    ensures D3Supplement(uv2, skin) <= D3Supplement(uv1, skin)
  {
  }

  /** Over the Fitzpatrick range, darker skin never lowers the dose. */
  lemma D3GrowsWithSkin(uv: real, s1: u8, s2: u8)
    requires 1 <= s1 <= s2 <= 6
    ensures D3Supplement(uv, s1) <= D3Supplement(uv, s2)
  {
  }

  /** No supplement is advised exactly when UV is at least 5 and the skin type is 1 to 3. */
  lemma D3ZeroExactly(uv: real, skin: u8)
    ensures D3Supplement(uv, skin) == 0 <==> uv >= 5.0 && 1 <= skin <= 3
  {
  }

  // ------------------------------------------------------------ calculate

  function NoteFor(uv: real, minutes: nat, window: string, d3: nat, skin: u8): Note {
    if uv < 2.0 then VeryLowUv(uv, d3, skin)
    else if uv < 4.0 then ModerateUv(uv, minutes, window, d3)
    else GoodUv(uv, minutes, window)
  }

  /** `calculate`: defaults for the missing inputs, then the four table lookups. */
  function Calculate(uvIndex: real, skinType: Option<u8>, latitude: Option<real>, month: nat): (r: Recommendation)
    ensures r.uvIndex == uvIndex
    ensures r.skinType == (if skinType.Some? then skinType.value else 4)
    ensures r.latitude == (if latitude.Some? then latitude.value else 38.7)
    ensures 10 <= r.optimalMinutes <= 120
    ensures r.optimalMinutes == OptimalMinutes(uvIndex, r.skinType)
    ensures r.bestWindow == BestWindow(r.latitude, month)
    ensures r.d3IuSupplement == D3Supplement(uvIndex, r.skinType)
    ensures r.note.VeryLowUv? <==> uvIndex < 2.0
    ensures r.note.ModerateUv? <==> 2.0 <= uvIndex < 4.0
    ensures r.note.GoodUv? <==> uvIndex >= 4.0
    ensures r.note.uvIndex == uvIndex
    ensures !r.note.VeryLowUv? ==> r.note.minutes == r.optimalMinutes && r.note.window == r.bestWindow
    ensures !r.note.GoodUv? ==> r.note.d3 == r.d3IuSupplement
    ensures r.note.VeryLowUv? ==> r.note.skin == r.skinType
  {
    var skin := skinType.GetOr(DefaultSkinType);
    var lat := latitude.GetOr(PortugalLatitude);
    var minutes := OptimalMinutes(uvIndex, skin);
    var window := BestWindow(lat, month);
    var d3 := D3Supplement(uvIndex, skin);
    Recommendation(uvIndex, skin, lat, minutes, window, d3, NoteFor(uvIndex, minutes, window, d3, skin))
  }

  /** The command wrapper's call: skin type 4 at latitude 38.7 is the same as passing neither. */
  lemma ExplicitDefaultsAreDefaults(uvIndex: real, month: nat)
    ensures Calculate(uvIndex, Some(4), Some(38.7), month) == Calculate(uvIndex, None, None, month)
  {
  }
}
