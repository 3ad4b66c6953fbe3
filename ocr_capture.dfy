/** The capture pipeline: locate each step's template in one screenshot,
    drive the mouse and keyboard at the match, harvest the clipboard, and
    hand the first three harvested strings to the record sink.

    The template matcher's score surface, the template files and the
    clipboard are inputs; mouse and keyboard effects are the list of input
    events a call emits. */
module OcrCapture {
  import opened Options

  // ---------------------------------------------------------------------
  // Template matching
  // ---------------------------------------------------------------------

  /** Image size: `shape[0]` is the height, `shape[1]` the width. */
  datatype Dims = Dims(height: nat, width: nat)

  /** Score of every top-left alignment of the template in the screenshot:
      `g[y][x]` is the correlation score with the template's top-left corner
      at column `x`, row `y`. */
  type Surface = seq<seq<real>>

  /** A non-empty rectangular surface, the only kind the matcher produces. */
  predicate IsSurface(g: Surface)
  {
    |g| > 0 && |g[0]| > 0 && forall r :: 0 <= r < |g| ==> |g[r]| == |g[0]|
  }

  /** The surface has `rows` rows of `cols` scores each. */
  predicate HasShape(g: Surface, rows: int, cols: int)
  {
    |g| == rows && forall r :: 0 <= r < |g| ==> |g[r]| == cols
  }

  /** A top-left position in the surface (x is the column, y the row). */
  datatype Pos = Pos(x: nat, y: nat)

  /** Column of the first maximal score in a row. */
  function RowArgMax(row: seq<real>): (c: nat)
    requires |row| > 0
    ensures c < |row|
    ensures forall j :: 0 <= j < |row| ==> row[j] <= row[c]
    ensures forall j :: 0 <= j < c ==> row[j] < row[c]
  {
    if |row| == 1 then 0
    else
      var c := RowArgMax(row[..|row| - 1]);
      if row[|row| - 1] > row[c] then |row| - 1 else c
  }

  /** Position of a maximal score in the surface. Among equal maxima the model
      takes the first in row-major order; which one the matcher's max-location
      scan reports is not fixed by the source, and no contract relies on it. */
  function ArgMax(g: Surface): (p: Pos)
    requires IsSurface(g)
    ensures p.y < |g| && p.x < |g[p.y]|
    ensures forall r, c :: 0 <= r < |g| && 0 <= c < |g[r]| ==> g[r][c] <= g[p.y][p.x]
  {
    if |g| == 1 then Pos(RowArgMax(g[0]), 0)
    else
      var p := ArgMax(g[..|g| - 1]);
      var c := RowArgMax(g[|g| - 1]);
      if g[|g| - 1][c] > g[p.y][p.x] then Pos(c, |g| - 1) else p
  }

  /** A successful match: the centre of the matched region and its score. */
  datatype Match = Match(x: int, y: int, confidence: real)

  /** Some alignment scores at least `threshold`. */
  predicate SomeScoreReaches(g: Surface, threshold: real)
  {
    exists r, c :: 0 <= r < |g| && 0 <= c < |g[r]| && g[r][c] >= threshold
  }

  /** The match centre `m` comes from the alignment at row `r`, column `c`. */
  predicate CentredAt(template: Dims, m: Match, r: int, c: int)
  {
    m.x == c + template.width / 2 && m.y == r + template.height / 2
  }

  /** `find_image_center`. `scores` is the matcher's surface for this template
      against the screenshot, or `None` when the matcher raised (the source
      catches every exception there and reports no match). */
  function FindImageCenter(template: Dims, scores: Option<Surface>, threshold: real): (m: Option<Match>)
    ensures scores.None? ==> m.None?
    ensures m.Some? ==> m.value.confidence >= threshold
  {
    match scores
    case None => None
    case Some(g) =>
      if !IsSurface(g) then None
      else
        var p := ArgMax(g);
        var best := g[p.y][p.x];
        if best >= threshold then
          Some(Match(p.x + template.width / 2, p.y + template.height / 2, best))
        else
          None
  }

  /** A match is found exactly when some alignment scores at least the
      threshold; its confidence is the best score of the surface, and its
      centre is the centre of the template placed at an alignment with that
      score. A matcher that raised gives no match. */
  lemma FindImageCenterSpec(template: Dims, scores: Option<Surface>, threshold: real)
    ensures var m := FindImageCenter(template, scores, threshold);
            && (scores.None? ==> m.None?)
            && (scores.Some? && IsSurface(scores.value) ==> (m.Some? <==> SomeScoreReaches(scores.value, threshold)))
            && (m.Some? ==> scores.Some? && IsSurface(scores.value) && m.value.confidence >= threshold)
            && (m.Some? ==> forall r, c :: 0 <= r < |scores.value| && 0 <= c < |scores.value[r]| ==>
                              scores.value[r][c] <= m.value.confidence)
            && (m.Some? ==> exists r, c :: && 0 <= r < |scores.value| && 0 <= c < |scores.value[r]|
                                           && scores.value[r][c] == m.value.confidence
                                           && CentredAt(template, m.value, r, c))
  {
  }

  /** When the surface has the shape the matcher gives for a template that
      fits in the screenshot, the centre of a match lies inside the matched
      region and therefore inside the screenshot. */
  lemma CenterInsideScreenshot(template: Dims, screen: Dims, g: Surface, threshold: real)
    returns (r: nat, c: nat)
    requires 0 < template.height <= screen.height && 0 < template.width <= screen.width
    requires HasShape(g, screen.height - template.height + 1, screen.width - template.width + 1)
    requires FindImageCenter(template, Some(g), threshold).Some?
    ensures var m := FindImageCenter(template, Some(g), threshold).value;
            && r < |g| && c < |g[r]| && g[r][c] == m.confidence
            && c <= m.x < c + template.width && r <= m.y < r + template.height
            && 0 <= m.x < screen.width && 0 <= m.y < screen.height
  {
    FindImageCenterSpec(template, Some(g), threshold);
    var m := FindImageCenter(template, Some(g), threshold).value;
    r, c :| 0 <= r < |g| && 0 <= c < |g[r]| && g[r][c] == m.confidence && CentredAt(template, m, r, c);
  }

  // ---------------------------------------------------------------------
  // One step
  // ---------------------------------------------------------------------

  datatype Offset = Offset(x: int, y: int)

  /** One entry of the step configuration. `threshold` and `offset` may be
      absent; `action` is compared with "copy", anything else clicks. */
  datatype Step = Step(name: string, templatePath: string, action: string,
                       threshold: Option<real>, offset: Option<Offset>)

  const DefaultThreshold: real := 0.8

  /** The threshold a step matches with: its own, or 0.8. */
  function Threshold(step: Step): (t: real)
    ensures step.threshold.None? ==> t == DefaultThreshold
    ensures step.threshold.Some? ==> t == step.threshold.value
  {
    step.threshold.GetOr(DefaultThreshold)
  }

  /** The offset a copy step moves by: its own, or (0, 0). */
  function StepOffset(step: Step): (o: Offset)
    ensures step.offset.None? ==> o == Offset(0, 0)
    ensures step.offset.Some? ==> o == step.offset.value
  {
    step.offset.GetOr(Offset(0, 0))
  }

  /** What the file system holds at the step's template path: nothing, a file
      the image reader cannot decode, or an image of size `dims` whose
      matcher surface against this run's screenshot is `scores`. */
  datatype TemplateFile = Missing | Unreadable | Loaded(dims: Dims, scores: Option<Surface>)

  /** The world as one step meets it: its template file, and the clipboard
      text read after the settle delay. */
  datatype StepEnv = StepEnv(file: TemplateFile, clipboard: string)

  /** Synthetic input: a mouse move, a left click, the Ctrl+C chord. */
  datatype Event = MoveTo(x: int, y: int) | Click | CtrlC

  datatype StepError = TemplateNotFound(path: string) | TemplateUnreadable(path: string) | NoMatch(name: string)

  /** `(content, None)` or `(None, error)`. */
  datatype StepOutcome = Harvested(content: string) | Failed(error: StepError)

  /** A step's outcome with the input events it emitted. */
  datatype StepRun = StepRun(outcome: StepOutcome, events: seq<Event>)

  /** The events a matched step emits: a "copy" step moves to the centre plus
      its offset, clicks three times and presses Ctrl+C; any other action
      moves to the exact centre and clicks once. */
  function ActionEvents(step: Step, m: Match): (e: seq<Event>)
    ensures |e| > 0 && forall i :: 0 < i < |e| ==> !e[i].MoveTo?
    ensures step.action == "copy" ==> e[0] == MoveTo(m.x + StepOffset(step).x, m.y + StepOffset(step).y)
    ensures step.action != "copy" ==> e[0] == MoveTo(m.x, m.y)
    ensures |e| == if step.action == "copy" then 5 else 2
    ensures multiset(e)[Click] == if step.action == "copy" then 3 else 1
    ensures multiset(e)[CtrlC] == if step.action == "copy" then 1 else 0
    ensures step.action == "copy" ==> e[|e| - 1] == CtrlC
  {
    if step.action == "copy" then
      var o := StepOffset(step);
      [MoveTo(m.x + o.x, m.y + o.y), Click, Click, Click, CtrlC]
    else
      [MoveTo(m.x, m.y), Click]
  }

  /** `execute_step` as a function of the step and its environment. */
  function RunStep(step: Step, env: StepEnv): (r: StepRun)
    ensures r.outcome.Failed? ==> r.events == []
    ensures r.outcome.Harvested? ==> r.outcome.content == env.clipboard && env.file.Loaded?
  {
    match env.file
    case Missing => StepRun(Failed(TemplateNotFound(step.templatePath)), [])
    case Unreadable => StepRun(Failed(TemplateUnreadable(step.templatePath)), [])
    case Loaded(dims, scores) =>
      match FindImageCenter(dims, scores, Threshold(step))
      case None => StepRun(Failed(NoMatch(step.name)), [])
      case Some(m) => StepRun(Harvested(env.clipboard), ActionEvents(step, m))
  }

  /** The order of the checks in a step: a missing template file is reported
      first, then an unreadable one, then a failed match; a failed step emits
      no input event; a matched step returns the clipboard text and emits the
      events of its action at the match. */
  lemma StepContract(step: Step, env: StepEnv)
    ensures var r := RunStep(step, env);
            && (r.outcome.Failed? ==> r.events == [])
            && (r.outcome == Failed(TemplateNotFound(step.templatePath)) <==> env.file.Missing?)
            && (r.outcome == Failed(TemplateUnreadable(step.templatePath)) <==> env.file.Unreadable?)
            && (r.outcome == Failed(NoMatch(step.name)) <==>
                  env.file.Loaded? && FindImageCenter(env.file.dims, env.file.scores, Threshold(step)).None?)
            && (env.file.Loaded? && FindImageCenter(env.file.dims, env.file.scores, Threshold(step)).Some? ==>
                  r.outcome == Harvested(env.clipboard))
            && (r.outcome.Harvested? ==>
                  && r.outcome.content == env.clipboard
                  && env.file.Loaded?
                  && var m := FindImageCenter(env.file.dims, env.file.scores, Threshold(step));
                     m.Some? && r.events == ActionEvents(step, m.value))
  {
  }

  /** The input events of `execute_step`'s action branch at the match `m`. */
  method PerformAction(step: Step, m: Match) returns (emitted: seq<Event>)
    ensures emitted == ActionEvents(step, m)
  {
    if step.action == "copy" {
      var offset := StepOffset(step);
      emitted := [MoveTo(m.x + offset.x, m.y + offset.y)];
      for i := 0 to 3
        invariant |emitted| == i + 1
        invariant emitted[0] == MoveTo(m.x + offset.x, m.y + offset.y)
        invariant forall k :: 0 < k < |emitted| ==> emitted[k] == Click
      {
        emitted := emitted + [Click];
      }
      emitted := emitted + [CtrlC];
    } else {
      emitted := [MoveTo(m.x, m.y)];
      emitted := emitted + [Click];
    }
  }

  /** `execute_step`: the three checks in order (file exists, file readable,
      match found), then the input events for the action, then the clipboard.
      Returns the outcome and the events appended to the input trace. */
  method ExecuteStep(step: Step, env: StepEnv) returns (outcome: StepOutcome, emitted: seq<Event>)
    ensures StepRun(outcome, emitted) == RunStep(step, env)
  {
    emitted := [];
    if env.file.Missing? {
      return Failed(TemplateNotFound(step.templatePath)), emitted;
    }
    if env.file.Unreadable? {
      return Failed(TemplateUnreadable(step.templatePath)), emitted;
    }
    var threshold := Threshold(step);
    var result := FindImageCenter(env.file.dims, env.file.scores, threshold);
    if result.None? {
      return Failed(NoMatch(step.name)), emitted;
    }
    emitted := PerformAction(step, result.value);
    outcome := Harvested(env.clipboard);
  }

  // ---------------------------------------------------------------------
  // The whole run
  // ---------------------------------------------------------------------

  /** The outcome and events of every step, in configuration order. */
  function Runs(steps: seq<Step>, envs: seq<StepEnv>): (runs: seq<StepRun>)
    requires |steps| == |envs|
    ensures |runs| == |steps|
    ensures forall i :: 0 <= i < |steps| ==> runs[i] == RunStep(steps[i], envs[i])
  {
    seq(|steps|, i requires 0 <= i < |steps| => RunStep(steps[i], envs[i]))
  }

  /** What one step adds to the results: its text, if it succeeded with a
      non-empty clipboard. */
  function Contribution(o: StepOutcome): (r: seq<string>)
    ensures |r| <= 1
    ensures r == [] <==> o.Failed? || o.content == []
    ensures r != [] ==> r == [o.content]
  {
    if o.Harvested? && o.content != [] then [o.content] else []
  }

  /** The results list built from the step runs, in step order. */
  function Harvest(runs: seq<StepRun>): (results: seq<string>)
    ensures |results| <= |runs|
  {
    if |runs| == 0 then [] else Contribution(runs[0].outcome) + Harvest(runs[1..])
  }

  /** The input events of the step runs, step after step. */
  function Trace(runs: seq<StepRun>): seq<Event>
  {
    if |runs| == 0 then [] else runs[0].events + Trace(runs[1..])
  }

  /** The three values handed to the record sink `add_new_data`. */
  datatype CaptureRecord = CaptureRecord(nickname: string, merchant: string, orderNo: string)

  /** The decision at the end of a run: at least three results make a record
      from the first three by position; fewer make none. */
  function Decide(results: seq<string>): (rec: Option<CaptureRecord>)
    ensures rec.Some? <==> |results| >= 3
    ensures rec.Some? ==> && rec.value.nickname == results[0]
                          && rec.value.merchant == results[1]
                          && rec.value.orderNo == results[2]
  {
    if |results| >= 3 then Some(CaptureRecord(results[0], results[1], results[2])) else None
  }

  /** `start_capture`. `config` is the loaded step list, or `None` when
      loading the configuration (or taking the screenshot) raised before any
      step ran. Returns the success flag, the call made to the record sink
      (`None` when it is not called) and the input events of the run. */
  method StartCapture(config: Option<seq<Step>>, envs: seq<StepEnv>)
    returns (ok: bool, sink: Option<CaptureRecord>, trace: seq<Event>)
    requires config.Some? ==> |config.value| == |envs|
    ensures ok <==> sink.Some?
    ensures config.None? ==> !ok && trace == []
    ensures config.Some? ==> && sink == Decide(Harvest(Runs(config.value, envs)))
                             && trace == Trace(Runs(config.value, envs))
  {
    if config.None? {
      return false, None, [];
    }
    var steps := config.value;
    ghost var runs := Runs(steps, envs);
    var results: seq<string> := [];
    trace := [];
    for i := 0 to |steps|
      invariant results == Harvest(runs[..i])
      invariant trace == Trace(runs[..i])
    {
      HarvestStep(runs, i);
      TraceStep(runs, i);
      var content, emitted := ExecuteStep(steps[i], envs[i]);
      trace := trace + emitted;
      if content.Failed? {
        continue;
      }
      if content.content != [] {
        results := results + [content.content];
      }
    }
    assert runs[..|steps|] == runs;
    if |results| >= 3 {
      return true, Some(CaptureRecord(results[0], results[1], results[2])), trace;
    }
    return false, None, trace;
  }

  // ---------------------------------------------------------------------
  // Properties of a run
  // ---------------------------------------------------------------------

  /** Running two lists of steps one after the other harvests the first
      list's results followed by the second's: a step's outcome never
      affects what the other steps contribute, and order is preserved. */
  lemma {:induction false} HarvestAppend(r1: seq<StepRun>, r2: seq<StepRun>)
    ensures Harvest(r1 + r2) == Harvest(r1) + Harvest(r2)
  {
    if r1 == [] {
      assert r1 + r2 == r2;
    } else {
      assert (r1 + r2)[1..] == r1[1..] + r2;
      HarvestAppend(r1[1..], r2);
    }
  }

  /** The input events of two lists of steps run one after the other are
      the first list's events followed by the second's. */
  lemma {:induction false} TraceAppend(r1: seq<StepRun>, r2: seq<StepRun>)
    ensures Trace(r1 + r2) == Trace(r1) + Trace(r2)
  {
    if r1 == [] {
      assert r1 + r2 == r2;
    } else {
      assert (r1 + r2)[1..] == r1[1..] + r2;
      TraceAppend(r1[1..], r2);
    }
  }

  /** Each run adds its contribution after the results of the runs before it. */
  lemma HarvestStep(runs: seq<StepRun>, k: nat)
    requires k < |runs|
    ensures Harvest(runs[..k + 1]) == Harvest(runs[..k]) + Contribution(runs[k].outcome)
  {
    assert runs[..k + 1] == runs[..k] + [runs[k]];
    assert [runs[k]][1..] == [];
    HarvestAppend(runs[..k], [runs[k]]);
  }

  /** Each run appends its events after the events of the runs before it. */
  lemma TraceStep(runs: seq<StepRun>, k: nat)
    requires k < |runs|
    ensures Trace(runs[..k + 1]) == Trace(runs[..k]) + runs[k].events
  {
    assert runs[..k + 1] == runs[..k] + [runs[k]];
    assert [runs[k]][1..] == [];
    TraceAppend(runs[..k], [runs[k]]);
  }

  /** Running the steps of a configuration split in two is running the two
      parts one after the other. */
  lemma RunsAppend(s1: seq<Step>, e1: seq<StepEnv>, s2: seq<Step>, e2: seq<StepEnv>)
    requires |s1| == |e1| && |s2| == |e2|
    ensures Runs(s1 + s2, e1 + e2) == Runs(s1, e1) + Runs(s2, e2)
  {
    var r, r1, r2 := Runs(s1 + s2, e1 + e2), Runs(s1, e1), Runs(s2, e2);
    forall i | 0 <= i < |r| ensures r[i] == (r1 + r2)[i] {
      if i >= |s1| {
        assert (s1 + s2)[i] == s2[i - |s1|] && (e1 + e2)[i] == e2[i - |s1|];
      }
    }
  }

  /** A run that harvested nothing and emitted nothing can be dropped from
      the middle of a run list without changing results or events. */
  lemma SkipSilentRun(a: seq<StepRun>, run: StepRun, b: seq<StepRun>)
    requires run.outcome.Failed? && run.events == []
    ensures Harvest(a + [run] + b) == Harvest(a + b)
    ensures Trace(a + [run] + b) == Trace(a + b)
  {
    assert [run][1..] == [];
    assert Harvest([run]) == [];
    assert Trace([run]) == [];
    HarvestAppend(a + [run], b);
    HarvestAppend(a, [run]);
    HarvestAppend(a, b);
    assert Harvest(a + [run]) == Harvest(a);
    TraceAppend(a + [run], b);
    TraceAppend(a, [run]);
    TraceAppend(a, b);
    assert Trace(a + [run]) == Trace(a);
  }

  /** A failing step can be removed from the configuration without changing
      the results or the input events of the run: failures never abort it. */
  lemma FailedStepSkipped(steps: seq<Step>, envs: seq<StepEnv>, i: nat)
    requires |steps| == |envs| && i < |steps|
    requires RunStep(steps[i], envs[i]).outcome.Failed?
    ensures var rest := Runs(steps[..i] + steps[i + 1..], envs[..i] + envs[i + 1..]);
            && Harvest(Runs(steps, envs)) == Harvest(rest)
            && Trace(Runs(steps, envs)) == Trace(rest)
  {
    var run := RunStep(steps[i], envs[i]);
    StepContract(steps[i], envs[i]);
    var s1, s2, e1, e2 := steps[..i], steps[i + 1..], envs[..i], envs[i + 1..];
    assert steps == s1 + [steps[i]] + s2;
    assert envs == e1 + [envs[i]] + e2;
    RunsAppend(s1 + [steps[i]], e1 + [envs[i]], s2, e2);
    RunsAppend(s1, e1, [steps[i]], [envs[i]]);
    RunsAppend(s1, e1, s2, e2);
    assert Runs([steps[i]], [envs[i]]) == [run];
    SkipSilentRun(Runs(s1, e1), run, Runs(s2, e2));
  }

  /** Five steps of which the first and the third fail to match while the
      others copy non-empty texts a, b and c: the run harvests [a, b, c] and
      hands them on as nickname a, merchant b, order number c. */
  lemma FiveStepRun(steps: seq<Step>, envs: seq<StepEnv>, a: string, b: string, c: string)
    requires |steps| == 5 && |envs| == 5
    requires RunStep(steps[0], envs[0]).outcome.Failed?
    requires RunStep(steps[2], envs[2]).outcome.Failed?
    requires RunStep(steps[1], envs[1]).outcome == Harvested(a) && a != []
    requires RunStep(steps[3], envs[3]).outcome == Harvested(b) && b != []
    requires RunStep(steps[4], envs[4]).outcome == Harvested(c) && c != []
    ensures Harvest(Runs(steps, envs)) == [a, b, c]
    ensures Decide(Harvest(Runs(steps, envs))) == Some(CaptureRecord(a, b, c))
  {
    var r := Runs(steps, envs);
    FiveRunsHarvest(r, a, b, c);
  }

  /** Harvesting five runs whose first and third failed. */
  lemma FiveRunsHarvest(r: seq<StepRun>, a: string, b: string, c: string)
    requires |r| == 5
    requires r[0].outcome.Failed? && r[2].outcome.Failed?
    requires r[1].outcome == Harvested(a) && a != []
    requires r[3].outcome == Harvested(b) && b != []
    requires r[4].outcome == Harvested(c) && c != []
    ensures Harvest(r) == [a, b, c]
  {
    HarvestStep(r, 0);
    HarvestStep(r, 1);
    HarvestStep(r, 2);
    HarvestStep(r, 3);
    HarvestStep(r, 4);
    assert r[..0] == [] && r[..5] == r;
  }

  /** Results beyond the third never reach the record sink. */
  lemma ExtraResultsIgnored(results: seq<string>, extra: seq<string>)
    requires |results| >= 3
    ensures Decide(results + extra) == Decide(results)
  {
  }
}
