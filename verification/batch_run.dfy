/** Properties of the whole loop of the batch orchestrator: what each
    request's outcome depends on, that the returned markdown files exist when
    the loop ends, the summary counts, and what a second run over the same
    requests does. The loop facts are first proved for any iteration and then
    applied to the orchestrator's. */
module BatchRun {
  import opened Wrappers
  import opened Paths
  import opened FileSystem
  import opened PdfConvert
  import opened BatchConvert
  import opened BatchProperties

  /** Adding a request to the loop keeps the outcomes of the earlier ones. */
  lemma EarlierOutcomeKept(iter: Iteration, mdPath: Request -> Path, fs0: Fs, reqs: seq<Request>, i: nat)
    requires i < |reqs| - 1
    ensures var n := |reqs| - 1;
      && Fold(iter, mdPath, fs0, reqs).outcomes[i] == Fold(iter, mdPath, fs0, reqs[..n]).outcomes[i]
      && reqs[..n][..i] == reqs[..i] && reqs[..n][i] == reqs[i]
  {
    FoldLast(iter, mdPath, fs0, reqs);
  }

  /** The outcome of request `i` is the outcome of one iteration on the
      filesystem the first `i` iterations left behind. */
  lemma {:induction false} FoldOutcome(iter: Iteration, mdPath: Request -> Path, fs0: Fs, reqs: seq<Request>, i: nat)
    requires i < |reqs|
    ensures Fold(iter, mdPath, fs0, reqs).outcomes[i] == iter(Fold(iter, mdPath, fs0, reqs[..i]).fs, i, reqs[i]).1
    decreases |reqs|
  {
    var n := |reqs| - 1;
    if i < n {
      FoldOutcome(iter, mdPath, fs0, reqs[..n], i);
      EarlierOutcomeKept(iter, mdPath, fs0, reqs, i);
    } else {
      FoldLast(iter, mdPath, fs0, reqs);
      assert reqs[..n] == reqs[..i];
    }
  }

  /** A property of the filesystem that every iteration keeps holds when the
      loop ends if it held at the start. */
  lemma {:induction false} FoldPreserves(iter: Iteration, mdPath: Request -> Path, fs0: Fs, reqs: seq<Request>, inv: Fs -> bool)
    requires inv(fs0)
    requires forall fs, index, req :: inv(fs) ==> inv(iter(fs, index, req).0)
    ensures inv(Fold(iter, mdPath, fs0, reqs).fs)
    decreases |reqs|
  {
    if |reqs| > 0 {
      FoldPreserves(iter, mdPath, fs0, reqs[..|reqs| - 1], inv);
      FoldLast(iter, mdPath, fs0, reqs);
    }
  }

  /** If a produced request leaves a mark `has` that later iterations keep,
      every produced request's mark is there when the loop ends. */
  lemma {:induction false} FoldProducedHold(iter: Iteration, mdPath: Request -> Path, fs0: Fs, reqs: seq<Request>,
                                            has: (Request, Fs) -> bool, i: nat)
    requires forall fs, index, req :: Produced(iter(fs, index, req).1) ==> has(req, iter(fs, index, req).0)
    requires forall fs, index, req, other :: has(other, fs) ==> has(other, iter(fs, index, req).0)
    requires i < |reqs| && Produced(Fold(iter, mdPath, fs0, reqs).outcomes[i])
    ensures has(reqs[i], Fold(iter, mdPath, fs0, reqs).fs)
    decreases |reqs|
  {
    var n := |reqs| - 1;
    FoldLast(iter, mdPath, fs0, reqs);
    if i < n {
      EarlierOutcomeKept(iter, mdPath, fs0, reqs, i);
      FoldProducedHold(iter, mdPath, fs0, reqs[..n], has, i);
    }
  }

  /** An iteration that reuses leaves the filesystem alone, so a loop that
      reuses every request changes nothing on disk. */
  lemma {:induction false} FoldAllReusedKeeps(iter: Iteration, mdPath: Request -> Path, fs0: Fs, reqs: seq<Request>)
    requires forall fs, index, req :: IsReuse(iter(fs, index, req).1) ==> iter(fs, index, req).0 == fs
    requires forall i :: 0 <= i < |reqs| ==> IsReuse(Fold(iter, mdPath, fs0, reqs).outcomes[i])
    ensures Fold(iter, mdPath, fs0, reqs).fs == fs0
    decreases |reqs|
  {
    if |reqs| > 0 {
      var n := |reqs| - 1;
      var prev := Fold(iter, mdPath, fs0, reqs[..n]);
      FoldLast(iter, mdPath, fs0, reqs);
      forall i | 0 <= i < n
        ensures IsReuse(prev.outcomes[i])
      {
        EarlierOutcomeKept(iter, mdPath, fs0, reqs, i);
      }
      FoldAllReusedKeeps(iter, mdPath, fs0, reqs[..n]);
      assert Fold(iter, mdPath, fs0, reqs).outcomes[n] == iter(prev.fs, n, reqs[n]).1;
    }
  }

  /** Collecting with outcome lists that agree on `keep` gives the same list. */
  lemma {:induction false} CollectSameKeep(reqs: seq<Request>, o1: seq<Outcome>, o2: seq<Outcome>,
                                           keep: Outcome -> bool, pathOf: Request -> Path)
    requires |o1| == |o2| == |reqs|
    requires forall i :: 0 <= i < |reqs| ==> keep(o1[i]) == keep(o2[i])
    ensures Collect(reqs, o1, keep, pathOf) == Collect(reqs, o2, keep, pathOf)
    decreases |reqs|
  {
    if |reqs| > 0 {
      var n := |reqs| - 1;
      CollectSameKeep(reqs[..n], o1[..n], o2[..n], keep, pathOf);
    }
  }

  predicate IsConverted(o: Outcome) {
    o.Converted?
  }

  /** Produced outcomes split into reused and converted ones. */
  lemma {:induction false} ProducedCountSplit(outcomes: seq<Outcome>)
    ensures CountWhere(outcomes, Produced) == CountWhere(outcomes, IsReuse) + CountWhere(outcomes, IsConverted)
    decreases |outcomes|
  {
    if |outcomes| > 0 {
      ProducedCountSplit(outcomes[..|outcomes| - 1]);
    }
  }

  /** The orchestrator's iteration, applied. */
  lemma StepOfApplied(eng: Engine, st: Settings, fs: Fs, index: nat, req: Request)
    ensures StepOf(eng, st)(fs, index, req) == Step(eng, st, fs, index, req)
  {
  }

  /** The outcome of request `i` of the orchestrator's loop is that of its
      iteration on the filesystem the first `i` iterations left behind. */
  lemma RunOutcome(eng: Engine, st: Settings, fs0: Fs, reqs: seq<Request>, i: nat)
    requires i < |reqs|
    ensures Run(eng, st, fs0, reqs).outcomes[i] == Step(eng, st, Run(eng, st, fs0, reqs[..i]).fs, i, reqs[i]).1
  {
    FoldOutcome(StepOf(eng, st), MdPathIn(st.outDir), fs0, reqs, i);
    StepOfApplied(eng, st, Run(eng, st, fs0, reqs[..i]).fs, i, reqs[i]);
  }

  /** A request's markdown file that exists before an iteration still exists
      after it, whichever request the iteration handles. */
  lemma FinalSurvivesStep(eng: Engine, st: Settings, fs: Fs, index: nat, req: Request, other: Request)
    requires WellBehaved(eng)
    requires Exists(fs, FinalMdPath(st.outDir, other.pdf, other.id))
    ensures Exists(Step(eng, st, fs, index, req).0, FinalMdPath(st.outDir, other.pdf, other.id))
  {
    var p := FinalMdPath(st.outDir, other.pdf, other.id);
    var k :| k in fs && AtOrUnder(k, p);
    FinalMdOutsideTemp(st.outDir, other.pdf, other.id, index, k);
    StepFrame(eng, st, fs, index, req, k);
  }

  /** Whether the markdown file of `req` exists. */
  predicate HasFinal(outDir: Path, req: Request, fs: Fs) {
    Exists(fs, FinalMdPath(outDir, req.pdf, req.id))
  }

  /** Markdown files that exist stay through every iteration. */
  lemma FinalsSurviveSteps(eng: Engine, st: Settings)
    requires WellBehaved(eng)
    ensures forall fs, index, req, other :: HasFinal(st.outDir, other, fs) ==>
      HasFinal(st.outDir, other, StepOf(eng, st)(fs, index, req).0)
  {
    forall fs, index, req, other | HasFinal(st.outDir, other, fs)
      ensures HasFinal(st.outDir, other, StepOf(eng, st)(fs, index, req).0)
    {
      StepOfApplied(eng, st, fs, index, req);
      FinalSurvivesStep(eng, st, fs, index, req, other);
    }
  }

  /** The same for the whole loop. */
  lemma FinalSurvivesRun(eng: Engine, st: Settings, fs0: Fs, reqs: seq<Request>, other: Request)
    requires WellBehaved(eng)
    requires Exists(fs0, FinalMdPath(st.outDir, other.pdf, other.id))
    ensures Exists(Run(eng, st, fs0, reqs).fs, FinalMdPath(st.outDir, other.pdf, other.id))
  {
    FinalsSurviveSteps(eng, st);
    FoldPreserves(StepOf(eng, st), MdPathIn(st.outDir), fs0, reqs, (fs: Fs) => HasFinal(st.outDir, other, fs));
  }

  /** An iteration whose request counts as produced leaves its markdown file
      in place: reused because it was there, or converted and moved there. */
  lemma ProducedStepHasFinal(eng: Engine, st: Settings, fs: Fs, index: nat, req: Request)
    requires WellBehaved(eng)
    requires Produced(Step(eng, st, fs, index, req).1)
    ensures Exists(Step(eng, st, fs, index, req).0, FinalMdPath(st.outDir, req.pdf, req.id))
  {
    var final := FinalMdPath(st.outDir, req.pdf, req.id);
    var r := Step(eng, st, fs, index, req);
    if r.1.Converted? {
      StepAttempts(eng, st, fs, index, req);
      AttemptSucceedsIffEngine(eng, fs, st.outDir, index, req);
      assert AtOrUnder(final, final);
    }
  }

  /** Every markdown path the loop returns exists on disk when it ends. */
  lemma GeneratedExist(eng: Engine, st: Settings, fs0: Fs, reqs: seq<Request>, i: nat)
    requires WellBehaved(eng)
    requires i < |reqs| && Produced(Run(eng, st, fs0, reqs).outcomes[i])
    ensures Exists(Run(eng, st, fs0, reqs).fs, FinalMdPath(st.outDir, reqs[i].pdf, reqs[i].id))
  {
    var has := (req: Request, fs: Fs) => HasFinal(st.outDir, req, fs);
    forall fs, index, req | Produced(StepOf(eng, st)(fs, index, req).1)
      ensures has(req, StepOf(eng, st)(fs, index, req).0)
    {
      StepOfApplied(eng, st, fs, index, req);
      ProducedStepHasFinal(eng, st, fs, index, req);
    }
    FinalsSurviveSteps(eng, st);
    FoldProducedHold(StepOf(eng, st), MdPathIn(st.outDir), fs0, reqs, has, i);
  }

  /** The same, stated on the returned list. */
  lemma GeneratedListExists(eng: Engine, st: Settings, fs0: Fs, reqs: seq<Request>, p: Path)
    requires WellBehaved(eng)
    requires p in Run(eng, st, fs0, reqs).generated
    ensures Exists(Run(eng, st, fs0, reqs).fs, p)
  {
    var r := Run(eng, st, fs0, reqs);
    FoldLists(StepOf(eng, st), MdPathIn(st.outDir), fs0, reqs);
    CollectMembers(reqs, r.outcomes, Produced, MdPathIn(st.outDir), p);
    var i :| 0 <= i < |reqs| && Produced(r.outcomes[i]) && p == MdPathIn(st.outDir)(reqs[i]);
    GeneratedExist(eng, st, fs0, reqs, i);
  }

  /** The "Successfully converted" figure of the summary is the number of
      requests converted in this run. */
  lemma NewlyConvertedCounts(eng: Engine, st: Settings, fs0: Fs, reqs: seq<Request>)
    ensures NewlyConverted(Run(eng, st, fs0, reqs)) == CountWhere(Run(eng, st, fs0, reqs).outcomes, IsConverted)
  {
    FoldLists(StepOf(eng, st), MdPathIn(st.outDir), fs0, reqs);
    ProducedCountSplit(Run(eng, st, fs0, reqs).outcomes);
  }

  /** Without rebuilding, a request whose markdown file exists before the
      loop reaches it is reused. */
  lemma RerunReuses(eng: Engine, st: Settings, fs0: Fs, reqs: seq<Request>, i: nat)
    requires WellBehaved(eng) && !st.forceRebuild
    requires i < |reqs| && Exists(fs0, FinalMdPath(st.outDir, reqs[i].pdf, reqs[i].id))
    ensures Run(eng, st, fs0, reqs).outcomes[i] == AlreadyConverted
  {
    RunOutcome(eng, st, fs0, reqs, i);
    FinalSurvivesRun(eng, st, fs0, reqs[..i], reqs[i]);
  }

  /** Running the batch a second time without rebuilding, over the same
      requests and output directory, reuses every markdown file the first run
      returned. */
  lemma SecondRunReusesProduced(eng: Engine, st1: Settings, st2: Settings, fs0: Fs, reqs: seq<Request>, i: nat)
    requires WellBehaved(eng) && !st2.forceRebuild && st1.outDir == st2.outDir
    requires i < |reqs| && Produced(Run(eng, st1, fs0, reqs).outcomes[i])
    ensures Run(eng, st2, Run(eng, st1, fs0, reqs).fs, reqs).outcomes[i] == AlreadyConverted
  {
    GeneratedExist(eng, st1, fs0, reqs, i);
    RerunReuses(eng, st2, Run(eng, st1, fs0, reqs).fs, reqs, i);
  }

  /** An iteration of the orchestrator that reuses changes nothing on disk. */
  lemma ReuseStepsKeep(eng: Engine, st: Settings)
    ensures forall fs, index, req :: IsReuse(StepOf(eng, st)(fs, index, req).1) ==> StepOf(eng, st)(fs, index, req).0 == fs
  {
    forall fs, index, req | IsReuse(StepOf(eng, st)(fs, index, req).1)
      ensures StepOf(eng, st)(fs, index, req).0 == fs
    {
      StepOfApplied(eng, st, fs, index, req);
    }
  }

  /** Reusing every request changes nothing on disk. */
  lemma AllReusedKeepsFs(eng: Engine, st: Settings, fs0: Fs, reqs: seq<Request>)
    requires forall i :: 0 <= i < |reqs| ==> Run(eng, st, fs0, reqs).outcomes[i] == AlreadyConverted
    ensures Run(eng, st, fs0, reqs).fs == fs0
  {
    var outcomes := Run(eng, st, fs0, reqs).outcomes;
    assert forall i :: 0 <= i < |reqs| ==> IsReuse(outcomes[i]);
    ReuseStepsKeep(eng, st);
    FoldAllReusedKeeps(StepOf(eng, st), MdPathIn(st.outDir), fs0, reqs);
  }

  /** When the first run produced every request, a second run without
      rebuilding is a no-op: the filesystem is unchanged and it returns the
      same list of markdown paths. */
  lemma SecondRunIsNoOp(eng: Engine, st1: Settings, st2: Settings, fs0: Fs, reqs: seq<Request>)
    requires WellBehaved(eng) && !st2.forceRebuild && st1.outDir == st2.outDir
    requires forall i :: 0 <= i < |reqs| ==> Produced(Run(eng, st1, fs0, reqs).outcomes[i])
    ensures var first := Run(eng, st1, fs0, reqs);
      var second := Run(eng, st2, first.fs, reqs);
      second.fs == first.fs && second.generated == first.generated
  {
    var first := Run(eng, st1, fs0, reqs);
    var second := Run(eng, st2, first.fs, reqs);
    forall i | 0 <= i < |reqs|
      ensures second.outcomes[i] == AlreadyConverted
    {
      SecondRunReusesProduced(eng, st1, st2, fs0, reqs, i);
    }
    AllReusedKeepsFs(eng, st2, first.fs, reqs);
    FoldLists(StepOf(eng, st1), MdPathIn(st1.outDir), fs0, reqs);
    FoldLists(StepOf(eng, st2), MdPathIn(st2.outDir), first.fs, reqs);
    CollectSameKeep(reqs, first.outcomes, second.outcomes, Produced, MdPathIn(st1.outDir));
  }
}
