/** The onboarding screen (app/onboarding.tsx): three slides, a "Next" /
    "Get Started" button that moves to the next slide and from the last one
    goes to the login screen, a "Skip" link that always goes there, and a row
    of indicators of which exactly one, the current slide's, is highlighted.
    Navigation (`router.replace`) is returned as an event instead of being
    performed; the slide animation (`withTiming`) is modelled by the offset
    it animates to. */
module Onboarding {
  import opened Text

  /** The slides, by title. */
  const SlideTitles: seq<string> := ["Track Your Progress", "Custom Workouts", "Join the Community"]
  const SlideCount := |SlideTitles|
  const LastStep := SlideCount - 1

  const LoginRoute := "/(auth)/login"

  predicate IsStep(step: int) {
    0 <= step < SlideCount
  }

  // ---------------------------------------------------------------------
  // The step rule

  /** What one press of the button does: the step after it, and where to
      navigate, if anywhere. */
  datatype Transition = Transition(step: int, navigation: Option<string>)

  /** `nextStep`: advance by one slide, or from the last slide navigate to
      the login screen and stay. */
  function Advance(step: int): (t: Transition)
    requires IsStep(step)
    ensures IsStep(t.step)
    ensures t.navigation.Some? <==> step == LastStep
    ensures t.navigation.Some? ==> t.navigation.value == LoginRoute && t.step == step
    ensures t.navigation.None? ==> t.step == step + 1
  {
    if step < SlideCount - 1 then Transition(step + 1, None)
    else Transition(step, Some(LoginRoute))
  }

  /** The step after `presses` presses of the button from the first slide. */
  function StepAfterPresses(presses: nat): (step: int)
    ensures IsStep(step)
  {
    if presses == 0 then 0 else Advance(StepAfterPresses(presses - 1)).step
  }

  /** Pressing the button walks through the slides one at a time and then
      stays on the last one. */
  lemma {:induction false} StepAfterPressesIsCapped(presses: nat)
    ensures StepAfterPresses(presses) == if presses < LastStep then presses else LastStep
  {
    if presses > 0 {
      StepAfterPressesIsCapped(presses - 1);
    }
  }

  /** The press that leaves the onboarding is the one made on the last
      slide: press number `presses + 1` navigates iff `presses` presses have
      already reached it. */
  lemma NavigatesExactlyFromLastSlide(presses: nat)
    ensures Advance(StepAfterPresses(presses)).navigation.Some? <==> presses >= LastStep
  {
    StepAfterPressesIsCapped(presses);
  }

  // ---------------------------------------------------------------------
  // What is drawn for a step

  const Primary := "#10B981"

  function BorderColor(dark: bool): (c: string)
    ensures c != Primary
  {
    if dark then "#475569" else "#E2E8F0"
  }

  datatype IndicatorStyle = IndicatorStyle(backgroundColor: string, width: nat)

  /** The indicator at `index`: wide and in the primary colour for the
      current step, narrow and in the border colour otherwise. */
  function Indicator(index: int, step: int, dark: bool): (s: IndicatorStyle)
    ensures s.backgroundColor == Primary <==> index == step
    ensures s.width == 24 <==> index == step
  {
    if index == step then IndicatorStyle(Primary, 24) else IndicatorStyle(BorderColor(dark), 8)
  }

  predicate IsActive(s: IndicatorStyle) {
    s.backgroundColor == Primary
  }

  /** One indicator per slide. */
  function Indicators(step: int, dark: bool): (row: seq<IndicatorStyle>)
    ensures |row| == SlideCount
    ensures forall i :: 0 <= i < SlideCount ==> row[i] == Indicator(i, step, dark)
  {
    seq(SlideCount, i => Indicator(i, step, dark))
  }

  function CountActive(row: seq<IndicatorStyle>): (n: nat)
    ensures n <= |row|
  {
    if row == [] then 0 else (if IsActive(row[0]) then 1 else 0) + CountActive(row[1..])
  }

  lemma {:induction false} CountActiveSingle(row: seq<IndicatorStyle>, k: int)
    requires 0 <= k < |row|
    requires forall i :: 0 <= i < |row| ==> (IsActive(row[i]) <==> i == k)
    ensures CountActive(row) == 1
  {
    if k == 0 {
      CountActiveNone(row[1..]);
    } else {
      CountActiveSingle(row[1..], k - 1);
    }
  }

  lemma {:induction false} CountActiveNone(row: seq<IndicatorStyle>)
    requires forall i :: 0 <= i < |row| ==> !IsActive(row[i])
    ensures CountActive(row) == 0
  {
    if row != [] {
      CountActiveNone(row[1..]);
    }
  }

  /** On every valid step exactly one indicator is highlighted, the one of
      the current slide, in either colour scheme. */
  lemma ExactlyOneIndicatorActive(step: int, dark: bool)
    requires IsStep(step)
    ensures forall i :: 0 <= i < SlideCount ==> (IsActive(Indicators(step, dark)[i]) <==> i == step)
    ensures forall i :: 0 <= i < SlideCount ==> (Indicators(step, dark)[i].width == 24 <==> i == step)
    ensures CountActive(Indicators(step, dark)) == 1
  {
    CountActiveSingle(Indicators(step, dark), step);
  }

  /** The button's text. */
  function ButtonLabel(step: int): (caption: string)
    ensures caption == "Get Started" <==> step == LastStep
    ensures caption == "Next" <==> step != LastStep
  {
    if step == SlideCount - 1 then "Get Started" else "Next"
  }

  /** The button says "Get Started" exactly on the press that navigates. */
  lemma LabelAnnouncesNavigation(step: int)
    requires IsStep(step)
    ensures ButtonLabel(step) == "Get Started" <==> Advance(step).navigation.Some?
  {
  }

  // ---------------------------------------------------------------------
  // The screen's state

  class OnboardingScreen {
    /** `currentStep` from `useState(0)`. */
    var currentStep: int
    /** The target of the slider's translation, `slideX.value`. */
    var slideX: int
    /** The window width, `Dimensions.get('window').width`. */
    const width: int

    /** The step is a slide index and the slider is positioned on it. */
    ghost predicate Valid()
      reads this
    {
      IsStep(currentStep) && slideX == -currentStep * width
    }

    constructor (width: int)
      ensures Valid()
      ensures this.width == width && currentStep == 0 && slideX == 0
    {
      this.width := width;
      currentStep := 0;
      slideX := 0;
    }

    /** The button's `onPress`. */
    method NextStep() returns (navigation: Option<string>)
      requires Valid()
      modifies this
      ensures Valid()
      ensures currentStep == Advance(old(currentStep)).step
      ensures navigation == Advance(old(currentStep)).navigation
      ensures old(currentStep) < LastStep ==>
        currentStep == old(currentStep) + 1 && slideX == -(old(currentStep) + 1) * width && navigation == None
      ensures old(currentStep) == LastStep ==>
        currentStep == old(currentStep) && slideX == old(slideX) && navigation == Some(LoginRoute)
    {
      if currentStep < SlideCount - 1 {
        slideX := (currentStep + 1) * -width;
        currentStep := currentStep + 1;
        navigation := None;
      } else {
        navigation := Some(LoginRoute);
      }
    }

    /** The "Skip" link: leave for the login screen from any slide. */
    method SkipOnboarding() returns (navigation: Option<string>)
      requires Valid()
      ensures navigation == Some(LoginRoute)
    {
      navigation := Some(LoginRoute);
    }

    /** The indicator row and the button text for the current state. */
    function View(dark: bool): (v: (seq<IndicatorStyle>, string))
      reads this
      requires Valid()
      ensures |v.0| == SlideCount && CountActive(v.0) == 1 && IsActive(v.0[currentStep])
      ensures v.1 == "Get Started" <==> currentStep == LastStep
    {
      ExactlyOneIndicatorActive(currentStep, dark);
      (Indicators(currentStep, dark), ButtonLabel(currentStep))
    }
  }
}
