/** The per-step decisions of `train_step` (train.py, lines 97-147) and the
    training loop that calls it once per batch (lines 266-268).

    A step runs the optimiser, with full execution tracing on every
    hundredth iteration; saves the embeddings when the step counter the
    model reports equals `save_step`; writes the training summary; and
    evaluates the dev set when that counter is a multiple of
    `evaluate_every`. The step counter belongs to the model and is a
    parameter here. It is a NumPy integer (it comes out of `sess.run`), so
    its `%` follows Python's sign rule and a zero divisor yields 0 with a
    warning instead of raising. An evaluation whose `dev_step` raises ends
    the run. */
module Schedule {
  import opened Division
  import DevEvaluation

  /** Python's (and NumPy's) integer `%`: the remainder takes the sign of
      the divisor and differs from `a` by a multiple of `b`. */
  function PyMod(a: int, b: int): (r: int)
    requires b != 0
    ensures b > 0 ==> 0 <= r < b
    ensures b < 0 ==> b < r <= 0
    ensures r == 0 <==> a % b == 0
    ensures (a - r) % b == 0
  {
    var e := a % b;
    if b < 0 && e != 0 then
      MultipleModZero(a / b - 1, b);
      assert a - (e + b) == (a / b - 1) * b;
      e + b
    else
      MultipleModZero(a / b, b);
      assert a - e == (a / b) * b;
      e
  }

  /** `b` divides `a`. */
  ghost predicate Divides(b: int, a: int)
  {
    exists q :: a == q * b
  }

  /** The configuration keys that the schedule and the dev evaluation read. */
  datatype LoopConfig = LoopConfig(saveStep: int, evaluateEvery: int, splitDev: bool, devMinibatch: int)

  /** What one call of `train_step` decides. */
  datatype StepActions = StepActions(fullTrace: bool, saveEmbeddings: bool, evaluateDev: bool)

  const TraceEvery: nat := 100

  /** Line 114: the iteration takes the traced path, the last of each
      hundred iterations. */
  function TracedIteration(iter: nat): (traced: bool)
    ensures traced <==> (iter + 1) % TraceEvery == 0
  {
    iter % TraceEvery == TraceEvery - 1
  }

  /** Line 146: the remainder of the NumPy step counter is 0. A zero
      interval yields remainder 0, so every step evaluates. */
  function EvaluationAt(step: int, every: int): (evaluate: bool)
    ensures every == 0 ==> evaluate
    ensures every != 0 ==> (evaluate <==> step % every == 0)
  {
    (if every == 0 then 0 else PyMod(step, every)) == 0
  }

  /** Lines 114, 133 and 146: the decisions of one `train_step`. */
  function TrainStep(iter: nat, currentStep: int, cfg: LoopConfig): (acts: StepActions)
    ensures acts.fullTrace <==> (iter + 1) % TraceEvery == 0
    ensures acts.saveEmbeddings <==> currentStep == cfg.saveStep
    ensures acts.evaluateDev <==> cfg.evaluateEvery == 0 || currentStep % cfg.evaluateEvery == 0
  {
    StepActions(TracedIteration(iter), cfg.saveStep == currentStep, EvaluationAt(currentStep, cfg.evaluateEvery))
  }

  /** The dev set is evaluated exactly at the multiples of `evaluate_every`,
      whatever the signs of the step and of the interval, and at every step
      when the interval is 0. */
  lemma EvaluatesAtMultiples(step: int, every: int)
    ensures every != 0 ==> (EvaluationAt(step, every) <==> Divides(every, step))
    ensures every == 0 ==> EvaluationAt(step, every)
  {
    if every != 0 {
      var r := PyMod(step, every);
      if r == 0 {
        var q := step / every;
        assert step == q * every + step % every;
        assert step % every == 0;
        assert step == q * every;
      } else {
        if Divides(every, step) {
          var q :| step == q * every;
          MultipleModZero(q, every);
          assert false;
        }
      }
    }
  }

  /** The decisions for every batch in `steps`, as if the run went on. */
  function Decisions(steps: seq<int>, cfg: LoopConfig): seq<StepActions>
  {
    seq(|steps|, i requires 0 <= i < |steps| => TrainStep(i, steps[i], cfg))
  }

  /** `dev_step` raises with this dev set and configuration. */
  predicate DevFails<T>(dev: seq<T>, cfg: LoopConfig)
  {
    DevEvaluation.DevStep(dev, cfg.splitDev, cfg.devMinibatch).None?
  }

  /** The number of batches run when every evaluation raises: up to and
      including the first evaluating one from position `i` on. */
  function StopAfter(steps: seq<int>, cfg: LoopConfig, i: nat): (n: nat)
    requires i <= |steps|
    ensures i <= n <= |steps|
    ensures i < |steps| ==> i < n
    ensures forall j :: i <= j < n - 1 ==> !EvaluationAt(steps[j], cfg.evaluateEvery)
    ensures n < |steps| ==> EvaluationAt(steps[n - 1], cfg.evaluateEvery)
    decreases |steps| - i
  {
    if i == |steps| then i
    else if EvaluationAt(steps[i], cfg.evaluateEvery) then i + 1
    else StopAfter(steps, cfg, i + 1)
  }

  /** The decisions of a whole run over the batches whose step counters are
      `steps` (`steps[i]` is what the model reports at iteration `i`). When
      `dev_step` raises, the run ends with the first step that evaluates. */
  function RunActions<T>(steps: seq<int>, cfg: LoopConfig, dev: seq<T>): (acts: seq<StepActions>)
    ensures |acts| <= |steps|
    ensures |steps| > 0 ==> |acts| > 0
    ensures forall i :: 0 <= i < |acts| ==> acts[i] == TrainStep(i, steps[i], cfg)
    ensures !DevFails(dev, cfg) ==> |acts| == |steps|
    ensures DevFails(dev, cfg) ==> forall i :: 0 <= i < |acts| - 1 ==> !acts[i].evaluateDev
    ensures DevFails(dev, cfg) && |acts| < |steps| ==> acts[|acts| - 1].evaluateDev
  {
    var n := if DevFails(dev, cfg) then StopAfter(steps, cfg, 0) else |steps|;
    Decisions(steps[..n], cfg)
  }

  /** The run is the decisions of the batches it got through. */
  lemma RunIsPrefix<T>(steps: seq<int>, cfg: LoopConfig, dev: seq<T>)
    ensures RunActions(steps, cfg, dev) == Decisions(steps[..|RunActions(steps, cfg, dev)|], cfg)
  {
  }

  /** With a raising `dev_step`, a step that evaluates is the last one run:
      no later batch is processed. */
  lemma FailingEvaluationEndsRun<T>(steps: seq<int>, cfg: LoopConfig, dev: seq<T>, j: nat)
    requires DevFails(dev, cfg)
    requires j < |steps| && TrainStep(j, steps[j], cfg).evaluateDev
    ensures |RunActions(steps, cfg, dev)| <= j + 1
  {
  }

  /** A zero dev chunk size with `split_dev` set and an evaluation every
      step: `range` raises in the first step, which is the only one run. */
  lemma ZeroMinibatchStopsFirstStep()
    ensures |RunActions([1, 2, 3], LoopConfig(100, 1, true, 0), [7, 8])| == 1
  {
    var cfg := LoopConfig(100, 1, true, 0);
    assert DevFails([7, 8], cfg);
    FailingEvaluationEndsRun([1, 2, 3], cfg, [7, 8], 0);
  }

  /** The number of `true`s in `flags`. */
  function Count(flags: seq<bool>): nat
    decreases |flags|
  {
    if |flags| == 0 then 0
    else Count(flags[..|flags| - 1]) + (if flags[|flags| - 1] then 1 else 0)
  }

  /** The three things a `train_step` may do besides the training update. */
  datatype Action = FullTrace | SaveEmbeddings | EvaluateDev

  /** Whether `a` takes `action`. */
  function Takes(a: StepActions, action: Action): bool
  {
    match action
    case FullTrace => a.fullTrace
    case SaveEmbeddings => a.saveEmbeddings
    case EvaluateDev => a.evaluateDev
  }

  /** Which iterations take `action`. */
  function Flags(acts: seq<StepActions>, action: Action): seq<bool>
  {
    seq(|acts|, i requires 0 <= i < |acts| => Takes(acts[i], action))
  }

  /** Over `n` batches exactly `n / 100` are traced. */
  lemma {:induction false} TracedCountAll(steps: seq<int>, cfg: LoopConfig)
    ensures Count(Flags(Decisions(steps, cfg), FullTrace)) == |steps| / TraceEvery
    decreases |steps|
  {
    if |steps| > 0 {
      var n := |steps| - 1;
      var prefix := steps[..n];
      TracedCountAll(prefix, cfg);
      var flags := Flags(Decisions(steps, cfg), FullTrace);
      assert flags[..n] == Flags(Decisions(prefix, cfg), FullTrace);
      assert flags[n] == TracedIteration(n);
    }
  }

  /** Of the `n` iterations a run gets through, exactly `n / 100` are traced. */
  lemma TracedCount<T>(steps: seq<int>, cfg: LoopConfig, dev: seq<T>)
    ensures Count(Flags(RunActions(steps, cfg, dev), FullTrace)) == |RunActions(steps, cfg, dev)| / TraceEvery
  {
    RunIsPrefix(steps, cfg, dev);
    TracedCountAll(steps[..|RunActions(steps, cfg, dev)|], cfg);
  }

  /** The step counters reported by the model rise strictly. */
  predicate StrictlyIncreasing(steps: seq<int>)
  {
    forall i, j :: 0 <= i < j < |steps| ==> steps[i] < steps[j]
  }

  lemma {:induction false} SavedAtMostOnceAll(steps: seq<int>, cfg: LoopConfig)
    requires StrictlyIncreasing(steps)
    ensures Count(Flags(Decisions(steps, cfg), SaveEmbeddings)) == if cfg.saveStep in steps then 1 else 0
    decreases |steps|
  {
    if |steps| > 0 {
      var n := |steps| - 1;
      var prefix := steps[..n];
      SavedAtMostOnceAll(prefix, cfg);
      var flags := Flags(Decisions(steps, cfg), SaveEmbeddings);
      assert flags[..n] == Flags(Decisions(prefix, cfg), SaveEmbeddings);
      assert steps == prefix + [steps[n]];
      if steps[n] == cfg.saveStep {
        assert cfg.saveStep !in prefix by {
          forall i | 0 <= i < n ensures prefix[i] != cfg.saveStep {
            assert steps[i] < steps[n];
          }
        }
      }
    }
  }

  /** With a strictly rising step counter the embeddings are saved at most
      once, and exactly once when `save_step` is among the steps the run
      gets through. */
  lemma SavedAtMostOnce<T>(steps: seq<int>, cfg: LoopConfig, dev: seq<T>)
    requires StrictlyIncreasing(steps)
    ensures Count(Flags(RunActions(steps, cfg, dev), SaveEmbeddings)) ==
      if cfg.saveStep in steps[..|RunActions(steps, cfg, dev)|] then 1 else 0
  {
    var n := |RunActions(steps, cfg, dev)|;
    RunIsPrefix(steps, cfg, dev);
    SavedAtMostOnceAll(steps[..n], cfg);
  }

  /** Each iteration's decisions in the source's own terms: tracing on
      iterations 99, 199, ..., saving at `save_step`, evaluating at the
      multiples of `evaluate_every` (at every step when it is 0). */
  lemma RunDecisions<T>(steps: seq<int>, cfg: LoopConfig, dev: seq<T>)
    ensures forall i :: 0 <= i < |RunActions(steps, cfg, dev)| ==>
      && (RunActions(steps, cfg, dev)[i].fullTrace <==> exists q :: 0 <= q && i == q * TraceEvery + 99)
      && (RunActions(steps, cfg, dev)[i].saveEmbeddings <==> steps[i] == cfg.saveStep)
      && (RunActions(steps, cfg, dev)[i].evaluateDev <==>
            cfg.evaluateEvery == 0 || Divides(cfg.evaluateEvery, steps[i]))
  {
    var acts := RunActions(steps, cfg, dev);
    forall i | 0 <= i < |acts|
      ensures acts[i].fullTrace <==> exists q :: 0 <= q && i == q * TraceEvery + 99
      ensures acts[i].evaluateDev <==> cfg.evaluateEvery == 0 || Divides(cfg.evaluateEvery, steps[i])
    {
      EvaluatesAtMultiples(steps[i], cfg.evaluateEvery);
      if acts[i].fullTrace {
        assert i == (i / TraceEvery) * TraceEvery + 99;
      }
      if exists q :: 0 <= q && i == q * TraceEvery + 99 {
        var q :| 0 <= q && i == q * TraceEvery + 99;
        DivUnique(i, TraceEvery, q, 99);
      }
    }
  }

  lemma {:induction false} EvaluationCountAll(steps: seq<int>, cfg: LoopConfig, first: int)
    requires cfg.evaluateEvery > 0
    requires forall i :: 0 <= i < |steps| ==> steps[i] == first + i
    ensures Count(Flags(Decisions(steps, cfg), EvaluateDev)) ==
      (first + |steps| - 1) / cfg.evaluateEvery - (first - 1) / cfg.evaluateEvery
    decreases |steps|
  {
    if |steps| > 0 {
      var n := |steps| - 1;
      var prefix := steps[..n];
      EvaluationCountAll(prefix, cfg, first);
      var flags := Flags(Decisions(steps, cfg), EvaluateDev);
      assert flags[..n] == Flags(Decisions(prefix, cfg), EvaluateDev);
      assert flags[n] <==> (first + n) % cfg.evaluateEvery == 0;
      DivSucc(first + n - 1, cfg.evaluateEvery);
    }
  }

  /** When the step counter advances by one per iteration from `first`, the
      dev set is evaluated once per multiple of `evaluate_every` among the
      steps the run gets through: floor((first + n - 1) / e) -
      floor((first - 1) / e) times over `n` iterations. */
  lemma EvaluationCount<T>(steps: seq<int>, cfg: LoopConfig, dev: seq<T>, first: int)
    requires cfg.evaluateEvery > 0
    requires forall i :: 0 <= i < |steps| ==> steps[i] == first + i
    ensures Count(Flags(RunActions(steps, cfg, dev), EvaluateDev)) ==
      (first + |RunActions(steps, cfg, dev)| - 1) / cfg.evaluateEvery - (first - 1) / cfg.evaluateEvery
  {
    var n := |RunActions(steps, cfg, dev)|;
    RunIsPrefix(steps, cfg, dev);
    EvaluationCountAll(steps[..n], cfg, first);
  }
}
