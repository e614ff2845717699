/**
 * The step computation of the wizard's progress bar
 * (`frontend/src/components/ProgressBar.jsx`): where the current step sits in
 * the list of steps, how far along the bar is filled, and the per-step
 * indicator data (label, completed, current).
 */
module ProgressBar {
  import opened Js

  /** The display label of each known step. */
  const StepConfig: map<string, string> := map[
    "upload" := "Upload",
    "billForm" := "Verify",
    "userInfo" := "Details",
    "roofCalculation" := "Analysis",
    "proposal" := "Proposal"
  ]

  /** `STEP_CONFIG[step] || step`: the configured label, or the step's own
      name when it has none (every configured label is non-empty). */
  function Label(step: string): (text: string)
    ensures step in StepConfig ==> text == StepConfig[step]
    ensures step !in StepConfig ==> text == step
  {
    if step in StepConfig && StepConfig[step] != "" then StepConfig[step] else step
  }

  /** One step indicator. */
  datatype StepInfo = StepInfo(step: string, index: nat, stepLabel: string, isCompleted: bool, isCurrent: bool)

  /** What the memoised computation returns. `progressPercentage` is `None`
      where JavaScript computes `NaN` (0 / 0, with no steps at all). */
  datatype Progress = Progress(stepIndex: int, progressPercentage: Option<real>, stepData: seq<StepInfo>)

  /** `((index + 1) / count) * 100`. */
  function Percentage(index: int, count: nat): (p: Option<real>)
    ensures p.None? <==> count == 0
  {
    if count == 0 then None else Some(((index + 1) as real / count as real) * 100.0)
  }

  /** `steps.map((step, idx) => ...)`: one indicator per step, in order. */
  function StepData(steps: seq<string>, index: int): (data: seq<StepInfo>)
    ensures |data| == |steps|
    ensures forall idx :: 0 <= idx < |steps| ==>
      data[idx] == StepInfo(steps[idx], idx, Label(steps[idx]), idx < index, idx == index)
  {
    seq(|steps|, idx requires 0 <= idx < |steps| => StepInfo(steps[idx], idx, Label(steps[idx]), idx < index, idx == index))
  }

  /** The `useMemo` computation of `ProgressBar`. */
  function ComputeProgress(currentStep: string, steps: seq<string>): (p: Progress)
    ensures -1 <= p.stepIndex < |steps|
    ensures p.stepIndex == -1 <==> currentStep !in steps
    ensures p.stepIndex >= 0 ==> steps[p.stepIndex] == currentStep && currentStep !in steps[..p.stepIndex]
    ensures |p.stepData| == |steps|
    ensures forall idx :: 0 <= idx < |steps| ==>
      && p.stepData[idx].step == steps[idx]
      && p.stepData[idx].index == idx
      && p.stepData[idx].stepLabel == Label(steps[idx])
  {
    var index := IndexOf(steps, currentStep);
    Progress(index, Percentage(index, |steps|), StepData(steps, index))
  }

  /** No indicator is both completed and current. */
  lemma NeverCompletedAndCurrent(currentStep: string, steps: seq<string>)
    ensures var data := ComputeProgress(currentStep, steps).stepData;
      forall idx :: 0 <= idx < |data| ==> !(data[idx].isCompleted && data[idx].isCurrent)
  {
  }

  /** When the current step is in the list, exactly one indicator is
      current: the first occurrence of that step. */
  lemma ExactlyOneCurrent(currentStep: string, steps: seq<string>) returns (at: nat)
    requires currentStep in steps
    ensures var data := ComputeProgress(currentStep, steps).stepData;
      && at < |data| && data[at].isCurrent && data[at].step == currentStep
      && (forall idx :: 0 <= idx < |data| && data[idx].isCurrent ==> idx == at)
      && (forall idx :: 0 <= idx < at ==> steps[idx] != currentStep)
  {
    var p := ComputeProgress(currentStep, steps);
    at := p.stepIndex;
    assert forall idx :: 0 <= idx < at ==> steps[idx] == steps[..at][idx];
  }

  /** When the current step is not in the list, no indicator is completed or
      current. */
  lemma NothingMarkedWhenAbsent(currentStep: string, steps: seq<string>)
    requires currentStep !in steps
    ensures var data := ComputeProgress(currentStep, steps).stepData;
      forall idx :: 0 <= idx < |data| ==> !data[idx].isCompleted && !data[idx].isCurrent
  {
  }

  /** The completed indicators are exactly those before the current one: they
      form a prefix of the list. */
  lemma CompletedBeforeCurrent(currentStep: string, steps: seq<string>)
    ensures var p := ComputeProgress(currentStep, steps);
      && (forall i, j :: 0 <= i < j < |p.stepData| && p.stepData[j].isCompleted ==> p.stepData[i].isCompleted)
      && (forall i, j :: 0 <= i < |p.stepData| && 0 <= j < |p.stepData| && p.stepData[j].isCurrent ==>
            (p.stepData[i].isCompleted <==> i < j))
  {
  }

  /** With at least one step the percentage is a number between 0 and 100;
      it is 0 when the current step is absent and 100 exactly at the last
      step. */
  lemma PercentageBounds(currentStep: string, steps: seq<string>)
    requires steps != []
    ensures var p := ComputeProgress(currentStep, steps);
      && p.progressPercentage.Some?
      && 0.0 <= p.progressPercentage.value <= 100.0
      && (currentStep !in steps ==> p.progressPercentage.value == 0.0)
      && (p.progressPercentage.value == 100.0 <==> p.stepIndex == |steps| - 1)
  {
    var p := ComputeProgress(currentStep, steps);
    ScaledRatio((p.stepIndex + 1) as real, |steps| as real);
  }

  /** `k / n * 100` for `0 <= k <= n` lies in [0, 100] and is 100 only for
      `k == n`. */
  lemma ScaledRatio(k: real, n: real)
    requires 0.0 <= k <= n && n > 0.0
    ensures 0.0 <= k / n * 100.0 <= 100.0
    ensures k / n * 100.0 == 100.0 <==> k == n
    ensures k == 0.0 ==> k / n * 100.0 == 0.0
  {
    var q := k / n;
    assert q * n == k;
    if q < 0.0 {
      MulStrict(0.0, q, n);
    } else if q > 1.0 {
      MulStrict(q, 1.0, n);
    } else if q == 1.0 {
      assert k == n;
    }
  }

  lemma MulStrict(a: real, b: real, c: real)
    requires a > b && c > 0.0
    ensures a * c > b * c
  {
  }

  /** With no steps at all the percentage is `NaN`. */
  lemma NoStepsNoPercentage(currentStep: string)
    ensures ComputeProgress(currentStep, []).progressPercentage.None?
    ensures ComputeProgress(currentStep, []).stepIndex == -1
  {
  }

  /** `Math.max(0, Math.min(100, x))`; `NaN` stays `NaN`. */
  function Clamp(x: Option<real>): (w: Option<real>)
    ensures w.None? <==> x.None?
    ensures w.Some? ==> 0.0 <= w.value <= 100.0
    ensures w.Some? && 0.0 <= x.value <= 100.0 ==> w == x
  {
    match x
    case None => None
    case Some(v) => Some(if v > 100.0 then 100.0 else if v < 0.0 then 0.0 else v)
  }

  /** The fill width the bar renders: a width in [0, 100], `NaN` only with
      no steps. */
  function FillWidth(currentStep: string, steps: seq<string>): (w: Option<real>)
    ensures w.None? <==> steps == []
    ensures w.Some? ==> 0.0 <= w.value <= 100.0
  {
    Clamp(ComputeProgress(currentStep, steps).progressPercentage)
  }

  /** The clamp never changes a width computed from a non-empty list. */
  lemma ClampIsIdentity(currentStep: string, steps: seq<string>)
    requires steps != []
    ensures FillWidth(currentStep, steps) == ComputeProgress(currentStep, steps).progressPercentage
  {
    PercentageBounds(currentStep, steps);
  }

  /** The numbers the bar announces: `aria-valuenow` (also the counter's
      first number), `aria-valuemin` and `aria-valuemax` (the counter's
      second number). */
  datatype Counter = Counter(valueNow: int, valueMin: int, valueMax: nat)

  function StepCounter(currentStep: string, steps: seq<string>): (c: Counter)
    ensures c.valueMin == 1 && c.valueMax == |steps|
    ensures currentStep in steps ==>
      && 1 <= c.valueNow <= c.valueMax
      && steps[c.valueNow - 1] == currentStep
      && currentStep !in steps[..c.valueNow - 1]
    ensures currentStep !in steps ==> c.valueNow == 0
  {
    Counter(ComputeProgress(currentStep, steps).stepIndex + 1, 1, |steps|)
  }

  /** The counter reaches its maximum exactly when the bar is full. */
  lemma CounterFullIffBarFull(currentStep: string, steps: seq<string>)
    requires steps != []
    ensures StepCounter(currentStep, steps).valueNow == StepCounter(currentStep, steps).valueMax
      <==> FillWidth(currentStep, steps) == Some(100.0)
  {
    PercentageBounds(currentStep, steps);
    ClampIsIdentity(currentStep, steps);
  }
}
