# FitUp helpers and onboarding, modelled in Dafny

FitUp is a React Native fitness app in which every screen renders static demo
data. Its logic sits in two places, and this project models both:

- **The catalogue helpers of `data/demoData.ts`.** These are pure functions the
  screens call:
  - the time-of-day greeting;
  - the duration text ("45 min", "1h", "1h 30m") and the calorie text;
  - the category filter and the free-text search over the workout catalogue;
  - a capped progress percentage;
  - the difficulty colour, and the category and achievement icons;
  - the period length in days;
  - the "3h ago" / "2d ago" label of a social post.
- **The onboarding screen of `app/onboarding.tsx`.** It shows three slides.
  "Next" advances one slide at a time, and on the last slide the button,
  now labelled "Get Started", goes to the login screen. "Skip" always goes
  there. Exactly one indicator of the row is highlighted.

Modules, one per concern:

- `Text` (text.dfy) renders integers as the template literal `${n}` does for
  safe integers below 10^21 in magnitude. It also covers ASCII lower-casing, ECMAScript's white-space class, `trim` and
  `includes`. Each rendering has an inverse parser, so round trips can be
  proved.
- `Seqs` (seqs.dfy) holds `Array.prototype.filter` and the notion of a
  subsequence, which is what "keeps the original order" means.
- `DemoData` (demo_data.dfy) holds the `Workout`/`Exercise` records and the
  helpers.
- `Onboarding` (onboarding.dfy) holds the step rule, the indicator and label
  rules as functions, and the screen as a class. The class has a
  `currentStep` field, a `slideX` field and the methods `NextStep` and
  `SkipOnboarding`. Navigation is returned as an event (`Some(route)`), not
  performed.

Inputs the source takes from the environment become parameters:

- the hour of the day (`new Date().getHours()`) for `Greeting`;
- the milliseconds between the post and now (`now.getTime() - date.getTime()`)
  for `TimeAgo`;
- the catalogue array `workouts` for the filter and the search;
- the window width for the onboarding slider;
- the colour scheme for the indicator colours.

Two behaviours of the code are worth knowing:

- **`searchWorkouts` trims the query only to decide whether it is blank.** It
  then searches for the untrimmed, lower-cased query, so "yoga " does not
  find a workout whose only text is "Yoga". `SearchKeepsSurroundingSpace`
  proves this on a one-workout catalogue.
- **`getProgressPercentage` with a zero target does not fail.** JavaScript
  gives Infinity, which is capped to 100, for a positive `current`;
  -Infinity for a negative one; and NaN for 0. The model returns these as a
  `JsNumber` value.

## Model

| member | source | states |
|---|---|---|
| `Text.IntToString` | data/demoData.ts:477 | the text is never empty, starts with '-' exactly for a negative integer, and is then followed by the shortest numeral of the magnitude (never "-0"); for a non-negative integer it is the digits-only numeral without leading zero |
| `Text.ParseIntToString` | data/demoData.ts:477 | `${n}` for an integer can be read back: `ParseInt(IntToString(i)) == Some(i)` for every integer, negative ones included. `ParseInt` rejects leading zeros and "-0" |
| `Text.ParseIntOnlyCanonical` | data/demoData.ts:477 | conversely, the only text `ParseInt` reads as i is `IntToString(i)`, so the reader pins the exact `${n}` text |
| `Text.Trim` | data/demoData.ts:489 | `trim` returns the slice of the text between a blank prefix and a blank suffix, and that slice neither starts nor ends with white space, which fixes it uniquely |
| `Text.TrimEmptyIffBlank` | data/demoData.ts:489 | `!query.trim()` holds exactly when every character of the query is ECMAScript white space |
| `Text.TrimStart` | data/demoData.ts:489 | the result is the suffix of the input left after a run of white space, and it does not itself start with white space |
| `Text.TrimEnd` | data/demoData.ts:489 | the result is the prefix of the input left after dropping trailing white space, and it does not end with white space |
| `Text.ToLowerChar` | data/demoData.ts:490 | each of 'A'..'Z' becomes the letter 32 code points above it ('a'..'z'), every other character stays, and no upper-case ASCII letter is left |
| `Text.ToLower` | data/demoData.ts:490 | lower-casing keeps the length and maps each character on its own by `ToLowerChar` |
| `Text.Includes` | data/demoData.ts:492 | `s.includes(sub)`: `sub` is a prefix of `s` or of one of its suffixes; `IncludesAt` and `IncludesWitness` show this is exactly "occurs at some index" |
| `Text.IncludesAt` | data/demoData.ts:492 | `includes` holds whenever the query occurs at some index of the text |
| `Text.IncludesWitness` | data/demoData.ts:492 | conversely, whenever `includes` holds there is an index where the query occurs |
| `Seqs.Filter` | data/demoData.ts:485 | `filter` keeps exactly the elements that pass the test, each as many times as it occurs, and never lengthens the list |
| `Seqs.FilterIsSubsequence` | data/demoData.ts:491-495 | the filtered list is a subsequence of the input, so the original order is kept |
| `Seqs.FilterKeepsAll` | data/demoData.ts:485 | a list whose every element passes the test is returned unchanged |
| `DemoData.Greeting` | data/demoData.ts:469-474 | "Good Morning" iff hour < 12, "Good Afternoon" iff 12 <= hour < 18, "Good Evening" iff hour >= 18 |
| `DemoData.FormatDurationUnderAnHour` | data/demoData.ts:477 | a duration of less than 60 minutes, negative ones included, is shown as `<minutes> min` |
| `DemoData.FormatDurationHoursAndMinutes` | data/demoData.ts:478-480 | for 60·h + m minutes with h >= 1 and 0 <= m < 60, the text is `<h>h <m>m`, or `<h>h` when m = 0 |
| `DemoData.FormatDuration` | data/demoData.ts:476-481 | the duration text determines the minutes: the independent reader `ParseDuration`, which accepts numerals only in shortest form, gives back `Some(m)` for the text of every integer m |
| `DemoData.FormatCalories` | data/demoData.ts:502-504 | the text is an integer numeral followed by " cal", and reading it back with the strict `ParseInt` gives the calories, for every integer |
| `DemoData.WorkoutsByCategory` | data/demoData.ts:483-486 | "All" returns the catalogue unchanged. Any other category returns exactly the workouts of that category, with their multiplicities, as a subsequence of the catalogue |
| `DemoData.MatchesQuery` | data/demoData.ts:491-495 | the filter's test: the lower-cased name, the lower-cased description or some lower-cased tag includes the already lower-cased query |
| `DemoData.SomeTagIncludes` | data/demoData.ts:494 | `tags.some(tag => tag.toLowerCase().includes(q))`: some tag, lower-cased, includes q |
| `DemoData.SearchWorkouts` | data/demoData.ts:488-496 | a blank query returns the catalogue. Any other query returns exactly the workouts whose lower-cased name, description or some tag includes the lower-cased query, with their multiplicities, in catalogue order |
| `DemoData.SearchFindsByName` | data/demoData.ts:488-492 | for every query, blank or not, a query that occurs in a workout's name, ignoring ASCII case, finds that workout |
| `DemoData.SearchMatchingEverything` | data/demoData.ts:488-496 | a query that every workout matches returns the whole catalogue in its order |
| `DemoData.SearchKeepsSurroundingSpace` | data/demoData.ts:489-490 | the query is not trimmed before matching: "yoga " finds nothing in a catalogue holding only a workout named "Yoga", and "yoga" finds it |
| `DemoData.ProgressPercentage` | data/demoData.ts:498-500 | For a non-zero target the result is finite and at most 100. Below 100 it is the nearest integer to 100·current/target, with halves rounded up. It is 100 exactly when that quotient is at least 99.5. With target > 0 it is 100 once current >= target, and >= 0 when current >= 0. A zero target gives 100, -Infinity or NaN by the sign of current |
| `DemoData.RoundingIsNearest` | data/demoData.ts:499 | floor((200·current + target) / (2·target)) is Math.round of 100·current/target, and it is at least 100 exactly when the quotient is at least 99.5 |
| `DemoData.DifficultyColor` | data/demoData.ts:506-513 | green iff "Easy", amber iff "Medium", red iff "Hard", grey iff any other string |
| `DemoData.CategoryIcon` | data/demoData.ts:515-528 | each glyph is given exactly to its category: biceps iff "Strength" or "Upper Body", heart iff "Cardio", lightning iff "HIIT", lotus iff "Yoga", cartwheel iff "Flexibility", target iff "Core", fire iff "Full Body", leg iff "Lower Body", runner iff any other category. No category gets an achievement-only glyph |
| `DemoData.GlyphTextDistinct` | data/demoData.ts:515-528 | two icons have the same text exactly when they are the same glyph, so the icons can be told apart |
| `DemoData.AchievementIcon` | data/demoData.ts:566-575 | each glyph is given exactly to its type: runner iff "workout", fire iff "streak", pushpin iff "distance", stopwatch iff "time", lightning iff "calories", trophy iff any other type |
| `DemoData.DaysInPeriod` | data/demoData.ts:530-537 | 30 iff "Month", 365 iff "Year", 7 for "Week" and for every other string |
| `DemoData.ClassifyAgo` | data/demoData.ts:580-587 | "Just now" iff less than an hour has passed, including future timestamps. Otherwise the label counts the whole hours (1-23), days (1-6) or weeks (>= 1) elapsed, in the largest unit that fits. The hours label is used iff 1 h <= diff < 1 day, and the days label iff 1 day <= diff < 1 week |
| `DemoData.RenderAgo` | data/demoData.ts:584-587 | the label text determines the unit and the count: the independent reader `ParseAgo`, which rejects leading zeros, gives back the classification |
| `DemoData.TimeAgo` | data/demoData.ts:577-588 | reading `getTimeAgo`'s text back gives `ClassifyAgo` of the elapsed milliseconds, the whole units elapsed in the largest unit that fits |
| `Onboarding.Advance` | app/onboarding.tsx:78-85 | From a slide index, pressing Next gives a slide index. It navigates exactly when on the last slide, and then to `/(auth)/login` without moving. Otherwise it moves forward by exactly one slide |
| `Onboarding.StepAfterPresses` | app/onboarding.tsx:78-85 | any number of presses from the first slide leaves a slide index |
| `Onboarding.StepAfterPressesIsCapped` | app/onboarding.tsx:78-85 | after k presses from the first slide the step is min(k, last index), so any number of presses stays within the slides |
| `Onboarding.NavigatesExactlyFromLastSlide` | app/onboarding.tsx:79-84 | press k+1 navigates exactly when the first k presses have reached the last slide |
| `Onboarding.Indicator` | app/onboarding.tsx:137-138 | an indicator has the primary colour, and width 24, exactly when its index is the current step |
| `Onboarding.Indicators` | app/onboarding.tsx:131-141 | the row has one indicator per slide, the i-th being `Indicator(i, step)` |
| `Onboarding.ExactlyOneIndicatorActive` | app/onboarding.tsx:131-141 | in either colour scheme the indicator at index i is highlighted (and 24 wide) iff i is the current step, so exactly one is highlighted |
| `Onboarding.ButtonLabel` | app/onboarding.tsx:152 | "Get Started" iff the step is the last index, "Next" otherwise |
| `Onboarding.LabelAnnouncesNavigation` | app/onboarding.tsx:152 | the button says "Get Started" exactly on the slides where pressing it navigates |
| `Onboarding.OnboardingScreen.constructor` | app/onboarding.tsx:33-34 | the screen starts on step 0 with the slider at offset 0, which satisfies the invariant |
| `Onboarding.OnboardingScreen.NextStep` | app/onboarding.tsx:78-85 | The new state is `Advance` of the old step, and the invariant is kept. On a non-final slide the step grows by 1, the slider targets −(step+1)·width, and there is no navigation. On the last slide nothing changes and the login route is emitted |
| `Onboarding.OnboardingScreen.SkipOnboarding` | app/onboarding.tsx:87-89 | emits the login route from any step and changes no state |
| `Onboarding.OnboardingScreen.View` | app/onboarding.tsx:131-152 | the drawn indicator row has one entry per slide with exactly one highlighted (the current one), and the button text is "Get Started" iff on the last slide |

The invariant `OnboardingScreen.Valid()` says that `currentStep` is a slide
index (0..2) and that `slideX == −currentStep·width`. The constructor
establishes it and `NextStep` preserves it. `SkipOnboarding` changes nothing.
So `currentStep` stays within `[0, onboardingData.length − 1]` across any
sequence of presses.

## Left out

- `getStatsForPeriod` (data/demoData.ts:539-564) is not modelled. It is
  driven by `Math.random()` and `Date.now()`, and its heart-rate average is a
  floating-point division.
- Clock and date parsing (`new Date()`, `getHours`, `new Date(dateString)`,
  `toISOString`) are not modelled. The hour and the millisecond difference
  are parameters instead. An unparsable date string, which makes
  `getTimeAgo` print "NaNw ago", is out of the model's reach.
- Text.IntToString, DemoData.FormatDuration, DemoData.FormatCalories,
  DemoData.TimeAgo: the model's integers are unbounded. Their text matches
  JavaScript's `${n}` only for safe integers (magnitude at most 2^53 - 1)
  below 10^21 in magnitude. From 10^21 on JavaScript prints exponent notation
  (`formatCalories(1e21)` is "1e+21 cal"), and above 2^53 not every integer
  is a JavaScript number.
- Text.ToLower: lower-cases ASCII letters only. This is weaker than
  JavaScript's full Unicode case mapping, which the model does not include.
  `trim` uses ECMAScript's full white-space set.
- Text.ToLowerChar: the same gap for one character. A non-ASCII capital such
  as 'É' stays as it is, where JavaScript gives 'é'.
- DemoData.ProgressPercentage: computes on the exact quotient
  100·current/target. JavaScript computes `(current / target) * 100` in
  binary floating point, which can land just below an exact half and round
  one lower. Non-integral `current` and `target` are not modelled.
- `Workout.rating` (a fraction) is not a field of the model. Durations,
  calories and counts are integers.
- The emoji returned by `getCategoryIcon` and `getAchievementIcon` are stored
  double-encoded (mojibake) in data/demoData.ts. The model names each glyph
  (`Glyph`) and gives the code points it reconstructs in `GlyphText`. The
  mojibake for "distance" has lost its last byte, so `RoundPushpin`
  (U+1F4CD) is a reconstruction; U+1F4CF (straight ruler) fits the stored
  bytes as well.
- The static demo content (users, posts, achievements, challenges, tips, the
  workout and exercise arrays) is data, not logic. The helpers take the
  catalogue as a parameter.
- React state batching is not modelled. `nextStep` reads the rendered
  `currentStep`, so two presses before a re-render would both act on the
  same step. The model treats each press as acting on the latest state.
- The `withTiming` animation and the floating-point window width are not
  modelled. `slideX` is the animation's target offset and `width` is an
  integer.
- `router.replace` is returned as an event rather than performed.
- The UI components (components/ui/Button.tsx, Card.tsx, Input.tsx,
  Modal.tsx) and the other screens are not modelled. They are styling and
  animation, with nothing to prove.
- The workout-session screen is outside this model's scope. Its set counter,
  rest timer and exercise navigation (app/workout/session/[id].tsx:42-205)
  keep `currentExerciseIndex`, `currentSet`, `completedSets`, `isResting` and
  `restTimer` as state. They advance sets against `Exercise.sets`, start the
  rest timer from `Exercise.restTime` and move between exercises; none of
  this is modelled.
