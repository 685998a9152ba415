/** `main`: load the submission, check the output directory, collect the
    required images and then the extra ones, and aggregate the report. The
    process exits with a failure status when anything raises or when a
    required image fails. Whether the output directory exists is a parameter. */
module Competition {
  import opened Wrappers
  import opened Loader
  import opened Pipeline
  import opened Report

  datatype Group = Required | Extra

  /** How a run of `main` ends. */
  datatype Outcome =
    | LoadFailed(message: string)               // `load` raised RuntimeError
    | OutputDirMissing                          // SystemExit before any image is touched
    | CollectAborted(group: Group, abort: Abort) // a call inside `collect` raised
    | ReportCrashed(crash: Crash)               // `int(None)` in the report loop
    | Completed(summary: Summary)               // `summary.json` was written

  /** The exit status is a failure unless the run completed with no required image failing. */
  predicate ExitFailure(o: Outcome)
  {
    !(o.Completed? && !o.summary.failed)
  }

  /** What `main` does, as a function of the submission, the directory check and what the externals do. */
  function Run<V, P, H>(m: Module<V>, outDirExists: bool, imgs: seq<string>, reqImgs: seq<string>,
                        ext: Externals<P, H>): Outcome
  {
    match Load(m)
    case Failure(msg) => LoadFailed(msg)
    case Success(_) =>
      if !outDirExists then OutputDirMissing
      else
        match Collected(reqImgs, ext)
        case Failure(a) => CollectAborted(Required, a)
        case Success(reqRows) =>
          match Collected(imgs, ext)
          case Failure(a) => CollectAborted(Extra, a)
          case Success(extraRows) =>
            match Verdict(reqRows, extraRows)
            case Failure(c) => ReportCrashed(c)
            case Success(s) => Completed(s)
  }

  function Tagged(g: Group, t: seq<Call>): (r: seq<(Group, Call)>)
    ensures |r| == |t| && forall k :: 0 <= k < |t| ==> r[k] == (g, t[k])
  {
    seq(|t|, k requires 0 <= k < |t| => (g, t[k]))
  }

  /** The calls `main` makes that touch an image, in order. */
  function RunTrace<V, P, H>(m: Module<V>, outDirExists: bool, imgs: seq<string>, reqImgs: seq<string>,
                             ext: Externals<P, H>): seq<(Group, Call)>
  {
    if Load(m).Failure? || !outDirExists then []
    else
      var req := Collected(reqImgs, ext);
      Tagged(Required, CollectTrace(|reqImgs|, req))
        + (if req.Success? then Tagged(Extra, CollectTrace(|imgs|, Collected(imgs, ext))) else [])
  }

  /** `main`, driving the loader, both collections and the report loop. */
  method RunMain<V, P, H>(m: Module<V>, outDirExists: bool, imgs: seq<string>, reqImgs: seq<string>,
                          ext: Externals<P, H>)
    returns (o: Outcome, calls: seq<(Group, Call)>)
    ensures o == Run(m, outDirExists, imgs, reqImgs, ext)
    ensures calls == RunTrace(m, outDirExists, imgs, reqImgs, ext)
  {
    var sub := Load(m);
    if sub.Failure? {
      return LoadFailed(sub.error), [];
    }
    if !outDirExists {
      return OutputDirMissing, [];
    }
    var reqData, reqCalls := Collect(reqImgs, ext);
    calls := Tagged(Required, reqCalls);
    if reqData.Failure? {
      assert calls == RunTrace(m, outDirExists, imgs, reqImgs, ext) by {
        assert calls == calls + [];
      }
      return CollectAborted(Required, reqData.error), calls;
    }
    var extraData, extraCalls := Collect(imgs, ext);
    calls := calls + Tagged(Extra, extraCalls);
    assert calls == RunTrace(m, outDirExists, imgs, reqImgs, ext);
    if extraData.Failure? {
      return CollectAborted(Extra, extraData.error), calls;
    }
    var report := Aggregate(reqData.value, extraData.value);
    if report.Failure? {
      return ReportCrashed(report.error), calls;
    }
    o := Completed(report.value);
  }

  /** A submission missing a capability, or a missing output directory, stops
      the run before any image is loaded or any worker is started. */
  lemma EarlyAbortTouchesNoImage<V, P, H>(m: Module<V>, outDirExists: bool, imgs: seq<string>,
                                          reqImgs: seq<string>, ext: Externals<P, H>)
    requires Load(m).Failure? || !outDirExists
    ensures RunTrace(m, outDirExists, imgs, reqImgs, ext) == []
    ensures Run(m, outDirExists, imgs, reqImgs, ext).LoadFailed? ||
            Run(m, outDirExists, imgs, reqImgs, ext).OutputDirMissing?
    ensures ExitFailure(Run(m, outDirExists, imgs, reqImgs, ext))
  {
  }

  /** The run exits successfully exactly when it completes and no required
      image fails. An extra image's own verdict never decides the exit status;
      it can still end the run by raising. */
  lemma ExitStatus<V, P, H>(m: Module<V>, outDirExists: bool, imgs: seq<string>,
                            reqImgs: seq<string>, ext: Externals<P, H>)
    ensures
      var o := Run(m, outDirExists, imgs, reqImgs, ext);
      !ExitFailure(o) <==>
        && o.Completed?
        && Collected(reqImgs, ext).Success?
        && !exists i :: 0 <= i < |reqImgs| && ImageFails(Collected(reqImgs, ext).value[i])
  {
    var o := Run(m, outDirExists, imgs, reqImgs, ext);
    if o.Completed? {
      var req := Collected(reqImgs, ext);
      if req.Success? && |reqImgs| > 0 {
        CollectedRows(reqImgs, ext, 0);
      }
    }
  }

  /** As written, once both groups have been collected, a payload that
      `vlctest` rejects in either group makes `main` raise in its report loop. */
  lemma MalformedPayloadCrashesRun<V, P, H>(m: Module<V>, imgs: seq<string>, reqImgs: seq<string>,
                                           ext: Externals<P, H>, g: Group, i: nat)
    requires Load(m).Success?
    requires Collected(reqImgs, ext).Success? && Collected(imgs, ext).Success?
    requires g == Required ==> i < |reqImgs| && Collected(reqImgs, ext).value[i].vlcBits.None?
    requires g == Extra ==> i < |imgs| && Collected(imgs, ext).value[i].vlcBits.None?
    ensures Run(m, true, imgs, reqImgs, ext).ReportCrashed?
  {
    var req, extra := Collected(reqImgs, ext).value, Collected(imgs, ext).value;
    if g == Required {
      CollectedRows(reqImgs, ext, i);
      MalformedPayloadCrashes(req, extra, req[i]);
    } else {
      CollectedRows(imgs, ext, i);
      MalformedPayloadCrashes(req, extra, extra[i]);
    }
  }

  /** All calls for the required images come before any for the extra images. */
  lemma RequiredCallsFirst<V, P, H>(m: Module<V>, outDirExists: bool, imgs: seq<string>,
                                    reqImgs: seq<string>, ext: Externals<P, H>)
    ensures
      var t := RunTrace(m, outDirExists, imgs, reqImgs, ext);
      forall a, b :: 0 <= a < b < |t| && t[a].0 == Extra ==> t[b].0 == Extra
  {
  }
}
