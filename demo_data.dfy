/** The workout catalogue record and the utility functions that the screens
    call to format, filter and classify it (data/demoData.ts). The clock is
    an input: `Greeting` takes the hour of the day and `TimeAgo` the number
    of milliseconds between the post and now. The catalogue array itself is
    passed in as `workouts`. */
module DemoData {
  import opened Text
  import opened Seqs

  // ---------------------------------------------------------------------
  // Data model

  datatype Difficulty = Easy | Medium | Hard

  /** One exercise of a workout; plain data that no helper inspects. */
  datatype Exercise = Exercise(
    id: string,
    name: string,
    description: string,
    sets: int,
    reps: int,
    durationSeconds: Option<int>,
    restTimeSeconds: int,
    instructions: seq<string>,
    muscleGroups: seq<string>,
    equipment: Option<string>,
    image: Option<string>,
    videoUrl: Option<string>)

  /** A catalogue entry. The fractional `rating` is not modelled. */
  datatype Workout = Workout(
    id: string,
    name: string,
    description: string,
    durationMinutes: int,
    difficulty: Difficulty,
    category: string,
    exercises: seq<Exercise>,
    calories: int,
    equipment: seq<string>,
    image: Option<string>,
    tags: seq<string>,
    completions: int)

  // ---------------------------------------------------------------------
  // getGreeting

  /** The greeting for an hour of the day (0..23 from the device clock). */
  function Greeting(hour: int): (g: string)
    ensures g == "Good Morning" <==> hour < 12
    ensures g == "Good Afternoon" <==> 12 <= hour < 18
    ensures g == "Good Evening" <==> 18 <= hour
  {
    if hour < 12 then "Good Morning"
    else if hour < 18 then "Good Afternoon"
    else "Good Evening"
  }

  // ---------------------------------------------------------------------
  // formatDuration and formatCalories

  /** A duration in minutes as the cards show it: "45 min", "1h", "1h 30m".
      No two durations are shown alike: the text determines the minutes. */
  function FormatDuration(minutes: int): (s: string)
    ensures ParseDuration(s) == Some(minutes)
  {
    if minutes < 60 then
      UnderAnHourRoundTrip(minutes);
      IntToString(minutes) + " min"
    else
      var hours := minutes / 60;
      var mins := minutes % 60;
      assert minutes == 60 * hours + mins;
      HoursText(hours, mins)
  }

  /** `${hours}h ${mins}m`, or `${hours}h` when there are no minutes. */
  function HoursText(hours: nat, mins: nat): (s: string)
    requires hours >= 1 && mins < 60
    ensures ParseDuration(s) == Some(60 * hours + mins)
  {
    HoursRoundTrip(hours, mins);
    NatToString(hours) + (if mins > 0 then "h " + NatToString(mins) + "m" else "h")
  }

  lemma FormatDurationUnderAnHour(minutes: int)
    requires minutes < 60
    ensures FormatDuration(minutes) == IntToString(minutes) + " min"
  {
  }

  /** From an hour on, the text is the whole hours and then the remaining
      minutes, the minutes left out when there are none. */
  lemma FormatDurationHoursAndMinutes(hours: nat, mins: nat)
    requires hours >= 1 && mins < 60
    ensures FormatDuration(60 * hours + mins)
         == NatToString(hours) + (if mins > 0 then "h " + NatToString(mins) + "m" else "h")
  {
    DivMod60(hours, mins);
  }

  lemma DivMod60(hours: nat, mins: nat)
    requires mins < 60
    ensures (60 * hours + mins) / 60 == hours && (60 * hours + mins) % 60 == mins
  {
  }

  /** `${calories} cal`; the text determines the calories. */
  function FormatCalories(calories: int): (s: string)
    ensures ParseIntWithSuffix(s, " cal") == Some(calories)
  {
    ParseIntWithSuffixOf(calories, " cal");
    IntToString(calories) + " cal"
  }

  /** The integer written in front of `suffix`, if `s` is exactly that. */
  function ParseIntWithSuffix(s: string, suffix: string): (r: Option<int>)
  {
    if |s| >= |suffix| && s[|s| - |suffix|..] == suffix then ParseInt(s[..|s| - |suffix|])
    else None
  }

  lemma ParseIntWithSuffixOf(i: int, suffix: string)
    ensures ParseIntWithSuffix(IntToString(i) + suffix, suffix) == Some(i)
  {
    var s := IntToString(i) + suffix;
    assert s[|s| - |suffix|..] == suffix;
    assert s[..|s| - |suffix|] == IntToString(i);
    ParseIntToString(i);
  }

  /** Reads back a text that `FormatDuration` produces. */
  function ParseDuration(s: string): (r: Option<int>)
  {
    if HasSuffix(s, " min") then ParseIntWithSuffix(s, " min") else ParseHoursText(s)
  }

  predicate HasSuffix(s: string, suffix: string) {
    |s| >= |suffix| && s[|s| - |suffix|..] == suffix
  }

  /** A numeral of whole hours followed by the rest of an hours text. */
  function ParseHoursText(s: string): (r: Option<int>)
  {
    var k := DigitPrefixLength(s);
    if !IsNumeral(s[..k]) then None else ParseAfterHours(ParseNat(s[..k]), s[k..])
  }

  /** "h", or "h " then a numeral of minutes then "m". */
  function ParseAfterHours(hours: nat, rest: string): (r: Option<int>)
  {
    if rest == "h" then Some(60 * hours)
    else if |rest| >= 4 && rest[..2] == "h " && rest[|rest| - 1] == 'm' && IsNumeral(rest[2..|rest| - 1])
    then Some(60 * hours + ParseNat(rest[2..|rest| - 1]))
    else None
  }

  lemma UnderAnHourRoundTrip(minutes: int)
    requires minutes < 60
    ensures ParseDuration(IntToString(minutes) + " min") == Some(minutes)
  {
    var s := IntToString(minutes) + " min";
    ParseIntWithSuffixOf(minutes, " min");
    assert HasSuffix(s, " min");
  }

  lemma HoursRoundTrip(hours: nat, mins: nat)
    requires hours >= 1 && mins < 60
    ensures ParseDuration(NatToString(hours) + (if mins > 0 then "h " + NatToString(mins) + "m" else "h"))
         == Some(60 * hours + mins)
  {
    if mins > 0 {
      HoursTextOf(hours, "h " + NatToString(mins) + "m");
      AfterHoursOf(hours, mins);
    } else {
      HoursTextOf(hours, "h");
    }
  }

  lemma HoursTextOf(hours: nat, tail: string)
    requires tail == "h" || (|tail| >= 1 && tail[0] == 'h' && tail[|tail| - 1] == 'm')
    ensures ParseDuration(NatToString(hours) + tail) == ParseAfterHours(hours, tail)
  {
    var h := NatToString(hours);
    var s := h + tail;
    assert s[|s| - 1] == tail[|tail| - 1];
    assert !HasSuffix(s, " min") by {
      assert s[|s| - 1] != 'n';
    }
    DigitPrefixOfNumeral(h, tail);
    assert s[..|h|] == h && s[|h|..] == tail;
    ParseNatToString(hours);
  }

  lemma AfterHoursOf(hours: nat, mins: nat)
    ensures ParseAfterHours(hours, "h " + NatToString(mins) + "m") == Some(60 * hours + mins)
  {
    var tail := "h " + NatToString(mins) + "m";
    assert tail[..2] == "h " && tail[2..|tail| - 1] == NatToString(mins);
    ParseNatToString(mins);
  }

  // ---------------------------------------------------------------------
  // getWorkoutsByCategory and searchWorkouts

  /** The workouts of one category, or all of them for "All". */
  function WorkoutsByCategory(workouts: seq<Workout>, category: string): (r: seq<Workout>)
    ensures category == "All" ==> r == workouts
    ensures category != "All" ==>
      forall w :: w in r <==> w in workouts && w.category == category
    ensures category != "All" ==>
      forall w :: multiset(r)[w] == if w.category == category then multiset(workouts)[w] else 0
    ensures IsSubsequence(r, workouts)
  {
    if category == "All" then
      IsSubsequenceOfItself(workouts);
      workouts
    else
      var inCategory := (w: Workout) => w.category == category;
      FilterIsSubsequence(inCategory, workouts);
      Filter(inCategory, workouts)
  }

  /** The search rule for one workout against an already lower-cased query:
      its name, its description or one of its tags contains the query,
      ignoring case. */
  predicate MatchesQuery(w: Workout, lowerQuery: string) {
    || Includes(ToLower(w.name), lowerQuery)
    || Includes(ToLower(w.description), lowerQuery)
    || SomeTagIncludes(w.tags, lowerQuery)
  }

  /** `tags.some(tag => tag.toLowerCase().includes(lowerQuery))`. */
  predicate SomeTagIncludes(tags: seq<string>, lowerQuery: string) {
    exists i :: 0 <= i < |tags| && Includes(ToLower(tags[i]), lowerQuery)
  }

  /** The search box: a blank query shows every workout, any other query
      (lower-cased but not trimmed) shows the workouts that match it. */
  function SearchWorkouts(workouts: seq<Workout>, query: string): (r: seq<Workout>)
    ensures IsBlank(query) ==> r == workouts
    ensures !IsBlank(query) ==>
      forall w :: w in r <==> w in workouts && MatchesQuery(w, ToLower(query))
    ensures !IsBlank(query) ==>
      forall w :: multiset(r)[w] == if MatchesQuery(w, ToLower(query)) then multiset(workouts)[w] else 0
    ensures IsSubsequence(r, workouts) && |r| <= |workouts|
  {
    TrimEmptyIffBlank(query);
    if Trim(query) == [] then
      IsSubsequenceOfItself(workouts);
      workouts
    else
      var lowerQuery := ToLower(query);
      var matches := (w: Workout) => MatchesQuery(w, lowerQuery);
      FilterIsSubsequence(matches, workouts);
      Filter(matches, workouts)
  }

  /** A query that occurs in a workout's name, whatever its case there,
      finds that workout. */
  lemma SearchFindsByName(workouts: seq<Workout>, query: string, w: Workout, at: nat)
    requires w in workouts
    requires OccursAt(ToLower(w.name), ToLower(query), at)
    ensures w in SearchWorkouts(workouts, query)
  {
    if !IsBlank(query) {
      NameOccurrenceMatches(w, ToLower(query), at);
      SearchFindsMatch(workouts, query, w);
    }
  }

  lemma SearchFindsMatch(workouts: seq<Workout>, query: string, w: Workout)
    requires w in workouts && !IsBlank(query) && MatchesQuery(w, ToLower(query))
    ensures w in SearchWorkouts(workouts, query)
  {
  }

  lemma NameOccurrenceMatches(w: Workout, lowerQuery: string, at: nat)
    requires OccursAt(ToLower(w.name), lowerQuery, at)
    ensures MatchesQuery(w, lowerQuery)
  {
    IncludesAt(ToLower(w.name), lowerQuery, at);
  }

  /** The query is trimmed only to decide whether it is blank: a trailing
      space stays part of what is searched for, so "yoga " does not find a
      workout called "Yoga" that has no other text. */
  lemma SearchKeepsSurroundingSpace()
    ensures SearchWorkouts([YogaExample], "yoga ") == []
    ensures SearchWorkouts([YogaExample], "yoga") == [YogaExample]
  {
    YogaExampleMatches();
    SearchOne(YogaExample, "yoga ");
    SearchOne(YogaExample, "yoga");
  }

  lemma SearchOne(w: Workout, query: string)
    requires !IsBlank(query)
    ensures SearchWorkouts([w], query) == if MatchesQuery(w, ToLower(query)) then [w] else []
  {
    var r := SearchWorkouts([w], query);
    if r != [] {
      assert r[0] in r;
    }
  }

  /** A query that every workout matches returns the whole catalogue, in
      its order, just as a blank one does. */
  lemma SearchMatchingEverything(workouts: seq<Workout>, query: string)
    requires forall w :: w in workouts ==> MatchesQuery(w, ToLower(query))
    ensures SearchWorkouts(workouts, query) == workouts
  {
    if !IsBlank(query) {
      FilterKeepsAll((w: Workout) => MatchesQuery(w, ToLower(query)), workouts);
    }
  }

  const YogaExample := Workout("7", "Yoga", "", 30, Easy, "Yoga", [], 100, [], None, [], 0)

  lemma YogaExampleMatches()
    ensures !IsBlank("yoga ") && !IsBlank("yoga")
    ensures !MatchesQuery(YogaExample, ToLower("yoga "))
    ensures MatchesQuery(YogaExample, ToLower("yoga"))
  {
    assert !IsWhiteSpace("yoga "[0]) && !IsWhiteSpace("yoga"[0]);
    assert ToLower("yoga ") == "yoga ";
    assert ToLower("Yoga") == "yoga";
    assert ToLower("") == "";
    assert !Includes("yoga", "yoga ") by {
      assert !Includes("", "yoga ");
      assert !Includes("a", "yoga ");
      assert !Includes("ga", "yoga ");
      assert !Includes("oga", "yoga ");
    }
    assert ToLower("yoga") == "yoga";
    assert Includes("yoga", "yoga");
  }

  // ---------------------------------------------------------------------
  // getProgressPercentage

  /** A JavaScript number as far as this helper can produce one. */
  datatype JsNumber = Finite(value: int) | NegativeInfinity | NaN

  /** Math.floor(p / q). */
  function FloorDiv(p: int, q: int): (f: int)
    requires q != 0
    ensures q > 0 ==> f * q <= p < f * q + q
    ensures q < 0 ==> f * q >= p > f * q + q
  {
    if q > 0 then p / q else (-p) / (-q)
  }

  /** `v` is what Math.round gives for the exact value p / q: the nearest
      integer, halves going up, that is v - 1/2 <= p/q < v + 1/2. */
  ghost predicate RoundsTo(v: int, p: int, q: int)
    requires q != 0
  {
    if q > 0 then (2 * v - 1) * q <= 2 * p < (2 * v + 1) * q
    else (2 * v - 1) * q >= 2 * p > (2 * v + 1) * q
  }

  /** p / q >= 99.5, the values that Math.round takes to 100 or more. */
  ghost predicate RoundsToAtLeast100(p: int, q: int)
    requires q != 0
  {
    if q > 0 then 2 * p >= 199 * q else 2 * p <= 199 * q
  }

  /** Math.min(Math.round((current / target) * 100), 100), computed on the
      exact quotient. A zero target gives JavaScript's Infinity (capped to
      100), -Infinity or NaN. */
  function ProgressPercentage(current: int, target: int): (r: JsNumber)
    ensures target != 0 ==> r.Finite? && r.value <= 100
    ensures target != 0 && r.value < 100 ==> RoundsTo(r.value, 100 * current, target)
    ensures target != 0 ==> (r.value == 100 <==> RoundsToAtLeast100(100 * current, target))
    ensures target > 0 && current >= target ==> r == Finite(100)
    ensures target > 0 && current >= 0 ==> r.value >= 0
    ensures target == 0 ==> r == if current > 0 then Finite(100)
                                 else if current < 0 then NegativeInfinity else NaN
  {
    if target == 0 then
      if current > 0 then Finite(100) else if current < 0 then NegativeInfinity else NaN
    else
      var rounded := FloorDiv(200 * current + target, 2 * target);
      RoundingIsNearest(current, target);
      Finite(if rounded < 100 then rounded else 100)
  }

  lemma RoundingIsNearest(current: int, target: int)
    requires target != 0
    ensures var rounded := FloorDiv(200 * current + target, 2 * target);
      && RoundsTo(rounded, 100 * current, target)
      && (rounded >= 100 <==> RoundsToAtLeast100(100 * current, target))
      && (target > 0 && current >= target ==> rounded >= 100)
      && (target > 0 && current >= 0 ==> rounded >= 0)
  {
    var rounded := FloorDiv(200 * current + target, 2 * target);
    var m := rounded * target;
    assert rounded * (2 * target) == 2 * m;
    assert (2 * rounded - 1) * target == 2 * m - target;
    assert (2 * rounded + 1) * target == 2 * m + target;
    if target > 0 {
      PositiveTargetCap(current, target, rounded, m);
    } else {
      NegativeTargetCap(current, target, rounded, m);
    }
  }

  lemma PositiveTargetCap(current: int, target: int, rounded: int, m: int)
    requires target > 0 && m == rounded * target
    requires 2 * m <= 200 * current + target < 2 * m + 2 * target
    ensures rounded >= 100 <==> 200 * current >= 199 * target
  {
    if rounded >= 100 {
      MulMonotone(100, rounded, target);
    } else {
      MulMonotone(rounded + 1, 100, target);
    }
  }

  lemma NegativeTargetCap(current: int, target: int, rounded: int, m: int)
    requires target < 0 && m == rounded * target
    requires 2 * m >= 200 * current + target > 2 * m + 2 * target
    ensures rounded >= 100 <==> 200 * current <= 199 * target
  {
    if rounded >= 100 {
      MulMonotone(100, rounded, -target);
    } else {
      MulMonotone(rounded + 1, 100, -target);
    }
  }

  lemma MulMonotone(a: int, b: int, k: int)
    requires a <= b && k >= 0
    ensures a * k <= b * k
  {
  }

  // ---------------------------------------------------------------------
  // getDifficultyColor, getCategoryIcon, getAchievementIcon

  /** The badge colour for a difficulty name; grey for anything else. */
  function DifficultyColor(difficulty: string): (color: string)
    ensures color == "#22C55E" <==> difficulty == "Easy"
    ensures color == "#F59E0B" <==> difficulty == "Medium"
    ensures color == "#EF4444" <==> difficulty == "Hard"
    ensures color == "#64748B" <==> difficulty !in {"Easy", "Medium", "Hard"}
  {
    match difficulty
    case "Easy" => "#22C55E"
    case "Medium" => "#F59E0B"
    case "Hard" => "#EF4444"
    case _ => "#64748B"
  }

  /** The emoji the source returns, by name. The stored text for
      "distance" has lost a byte; `RoundPushpin` is a reconstruction. */
  datatype Glyph =
    | FlexedBiceps | RedHeart | HighVoltage | PersonInLotusPosition | Cartwheel
    | DirectHit | Fire | Leg | PersonRunning | RoundPushpin | Stopwatch | Trophy

  function GlyphText(g: Glyph): (s: string)
    ensures |s| >= 1
  {
    match g
    case FlexedBiceps => "\U{1F4AA}"
    case RedHeart => "\U{2764}\U{FE0F}"
    case HighVoltage => "\U{26A1}"
    case PersonInLotusPosition => "\U{1F9D8}"
    case Cartwheel => "\U{1F938}"
    case DirectHit => "\U{1F3AF}"
    case Fire => "\U{1F525}"
    case Leg => "\U{1F9B5}"
    case PersonRunning => "\U{1F3C3}"
    case RoundPushpin => "\U{1F4CD}"
    case Stopwatch => "\U{23F1}\U{FE0F}"
    case Trophy => "\U{1F3C6}"
  }

  /** The icons can be told apart: distinct glyphs have distinct texts. */
  lemma GlyphTextDistinct(g: Glyph, h: Glyph)
    ensures GlyphText(g) == GlyphText(h) <==> g == h
  {
    if g != h {
      assert GlyphText(g)[0] != GlyphText(h)[0] || |GlyphText(g)| != |GlyphText(h)|;
    }
  }

  const KnownCategories: set<string> :=
    {"Strength", "Cardio", "HIIT", "Yoga", "Flexibility", "Core", "Full Body", "Upper Body", "Lower Body"}

  /** The icon of a workout category. Strength and Upper Body share one;
      every other category gets the runner. */
  function CategoryIcon(category: string): (g: Glyph)
    ensures g == FlexedBiceps <==> category == "Strength" || category == "Upper Body"
    ensures g == RedHeart <==> category == "Cardio"
    ensures g == HighVoltage <==> category == "HIIT"
    ensures g == PersonInLotusPosition <==> category == "Yoga"
    ensures g == Cartwheel <==> category == "Flexibility"
    ensures g == DirectHit <==> category == "Core"
    ensures g == Fire <==> category == "Full Body"
    ensures g == Leg <==> category == "Lower Body"
    ensures g == PersonRunning <==> category !in KnownCategories
    ensures g !in {RoundPushpin, Stopwatch, Trophy}
  {
    match category
    case "Strength" => FlexedBiceps
    case "Cardio" => RedHeart
    case "HIIT" => HighVoltage
    case "Yoga" => PersonInLotusPosition
    case "Flexibility" => Cartwheel
    case "Core" => DirectHit
    case "Full Body" => Fire
    case "Upper Body" => FlexedBiceps
    case "Lower Body" => Leg
    case _ => PersonRunning
  }

  const KnownAchievementTypes: set<string> := {"workout", "streak", "distance", "time", "calories"}

  /** The icon of an achievement type; a trophy for unknown types. */
  function AchievementIcon(kind: string): (g: Glyph)
    ensures g == PersonRunning <==> kind == "workout"
    ensures g == Fire <==> kind == "streak"
    ensures g == RoundPushpin <==> kind == "distance"
    ensures g == Stopwatch <==> kind == "time"
    ensures g == HighVoltage <==> kind == "calories"
    ensures g == Trophy <==> kind !in KnownAchievementTypes
    ensures g in {PersonRunning, Fire, RoundPushpin, Stopwatch, HighVoltage, Trophy}
  {
    match kind
    case "workout" => PersonRunning
    case "streak" => Fire
    case "distance" => RoundPushpin
    case "time" => Stopwatch
    case "calories" => HighVoltage
    case _ => Trophy
  }

  // ---------------------------------------------------------------------
  // getDaysInPeriod

  /** The number of days a statistics period covers; a week by default. */
  function DaysInPeriod(period: string): (days: int)
    ensures days == 30 <==> period == "Month"
    ensures days == 365 <==> period == "Year"
    ensures days == 7 <==> period != "Month" && period != "Year"
  {
    match period
    case "Week" => 7
    case "Month" => 30
    case "Year" => 365
    case _ => 7
  }

  // ---------------------------------------------------------------------
  // getTimeAgo

  const MsPerHour := 60 * 60 * 1000
  const MsPerDay := 24 * MsPerHour
  const MsPerWeek := 7 * MsPerDay

  /** What a post's timestamp is shown as. */
  datatype Ago = JustNow | HoursAgo(hours: nat) | DaysAgo(days: nat) | WeeksAgo(weeks: nat)

  /** The unit chosen for `diffMs` milliseconds, computed as the source does:
      whole hours by floor division, whole days from whole hours. The
      contract says the count is the number of whole units elapsed, in the
      largest unit that fits. */
  function ClassifyAgo(diffMs: int): (a: Ago)
    ensures a == JustNow <==> diffMs < MsPerHour
    ensures a.HoursAgo? ==>
      1 <= a.hours < 24 && a.hours * MsPerHour <= diffMs < (a.hours + 1) * MsPerHour
    ensures a.DaysAgo? ==>
      1 <= a.days < 7 && a.days * MsPerDay <= diffMs < (a.days + 1) * MsPerDay
    ensures a.WeeksAgo? ==>
      1 <= a.weeks && a.weeks * MsPerWeek <= diffMs < (a.weeks + 1) * MsPerWeek
    ensures a.HoursAgo? <==> MsPerHour <= diffMs < MsPerDay
    ensures a.DaysAgo? <==> MsPerDay <= diffMs < MsPerWeek
  {
    var hours := diffMs / MsPerHour;
    var days := hours / 24;
    if hours < 1 then JustNow
    else if hours < 24 then HoursAgo(hours)
    else if days < 7 then DaysAgo(days)
    else WeeksAgo(days / 7)
  }

  /** The label of a classification; the text determines the unit and the
      count. */
  function RenderAgo(a: Ago): (s: string)
    ensures ParseAgo(s) == Some(a)
  {
    match a
    case JustNow => "Just now"
    case HoursAgo(h) => NumberWithUnit(h, "h ago"); NatToString(h) + "h ago"
    case DaysAgo(d) => NumberWithUnit(d, "d ago"); NatToString(d) + "d ago"
    case WeeksAgo(w) => NumberWithUnit(w, "w ago"); NatToString(w) + "w ago"
  }

  /** `getTimeAgo` for a timestamp `diffMs` milliseconds before now: reading
      the label back gives the classification of the elapsed time. */
  function TimeAgo(diffMs: int): (s: string)
    ensures ParseAgo(s) == Some(ClassifyAgo(diffMs))
  {
    RenderAgo(ClassifyAgo(diffMs))
  }

  /** Reads back a text that `RenderAgo` produces. */
  function ParseAgo(s: string): (r: Option<Ago>)
  {
    if s == "Just now" then Some(JustNow)
    else
      var k := DigitPrefixLength(s);
      if !IsNumeral(s[..k]) then None
      else
        var n := ParseNat(s[..k]);
        var rest := s[k..];
        if rest == "h ago" then Some(HoursAgo(n))
        else if rest == "d ago" then Some(DaysAgo(n))
        else if rest == "w ago" then Some(WeeksAgo(n))
        else None
  }

  lemma NumberWithUnit(n: nat, unit: string)
    requires |unit| >= 1 && !IsDigit(unit[0])
    ensures var s := NatToString(n) + unit;
      s != "Just now" && DigitPrefixLength(s) == |NatToString(n)|
      && s[..|NatToString(n)|] == NatToString(n) && s[|NatToString(n)|..] == unit
      && ParseNat(NatToString(n)) == n
  {
    var d := NatToString(n);
    var s := d + unit;
    assert s[0] == d[0] && IsDigit(d[0]);
    DigitPrefixOfNumeral(d, unit);
    assert s[..|d|] == d && s[|d|..] == unit;
    ParseNatToString(n);
  }
}
