/**
 * The whole run of the tool: the source-directory check, the option map,
 * the task gate, the configuration and the dispatch over the walk. The
 * outcome records the executor calls made and the panic that ended the run,
 * if there was one.
 */
module Program {
  import opened Wrappers
  import opened Failures
  import opened Options
  import opened ResizeOptions
  import opened Dispatch
  import opened Strings

  datatype Outcome = Outcome(calls: seq<Call>, failure: Option<Panic>)

  /** What `resize` does with an option map over a walk. */
  function ResizeOutcome(options: OptionMap, walk: seq<WalkItem>): (o: Outcome)
    ensures o.failure == None ==> WalkError !in walk && Configure(options).Ok?
    ensures Configure(options).Err? ==> o == Outcome([], Some(Configure(options).error))
  {
    match Configure(options)
    case Err(e) => Outcome([], Some(e))
    case Ok(config) =>
      var t := Dispatched(walk, config.size, config.filter);
      DispatchedCompletes(walk, config.size, config.filter);
      Outcome(t.calls, if t.completed then None else Some(WalkFailed))
  }

  /** What `main` does, given whether the source is a directory, the task, the option text and the walk. */
  function RunOutcome(isDirectory: bool, task: string, optionsText: string, walk: seq<WalkItem>): Outcome {
    if !isDirectory then Outcome([], Some(SourceNotDirectory))
    else
      match ParseOptions(optionsText)
      case Err(e) => Outcome([], Some(e))
      case Ok(options) => if task == "resize" then ResizeOutcome(options, walk) else Outcome([], None)
  }

  /** `resize`: configure, then hand the walk to the dispatcher. */
  method ResizeImages(options: OptionMap, walk: seq<WalkItem>) returns (o: Outcome)
    ensures o == ResizeOutcome(options, walk)
  {
    var filter := FilterOf(options);
    var size := SizeOf(options);
    if size.Err? {
      return Outcome([], Some(size.error));
    }
    var calls, completed := ProcessDirectory(walk, size.value, filter);
    o := Outcome(calls, if completed then None else Some(WalkFailed));
  }

  /** `main`, with the command-line values and the file system given as parameters. */
  method Run(isDirectory: bool, task: string, optionsText: string, walk: seq<WalkItem>) returns (o: Outcome)
    ensures o == RunOutcome(isDirectory, task, optionsText, walk)
  {
    if !isDirectory {
      return Outcome([], Some(SourceNotDirectory));
    }
    var options := BuildOptionMap(optionsText);
    if options.Err? {
      return Outcome([], Some(options.error));
    }
    if task == "resize" {
      o := ResizeImages(options.value, walk);
    } else {
      o := Outcome([], None);
    }
  }

  // ---------------------------------------------------------------------
  // Properties of a run
  // ---------------------------------------------------------------------

  /** A source that is not a directory fails before the options are read or anything is walked. */
  lemma RunNotDirectory(task: string, optionsText: string, walk: seq<WalkItem>)
    ensures RunOutcome(false, task, optionsText, walk) == Outcome([], Some(SourceNotDirectory))
  {
  }

  /** A malformed option text fails whatever the task, since the options are read before the task is looked at. */
  lemma RunMalformedOptions(task: string, optionsText: string, walk: seq<WalkItem>)
    requires exists p :: p in Split(optionsText, ',') && !IsPair(p)
    ensures RunOutcome(true, task, optionsText, walk).failure.Some?
    ensures RunOutcome(true, task, optionsText, walk).calls == []
  {
    ParseOptionsOk(optionsText);
  }

  /** Any task other than `resize` makes no call and fails only on a malformed option text. */
  lemma RunOtherTask(task: string, optionsText: string, walk: seq<WalkItem>)
    requires task != "resize"
    ensures RunOutcome(true, task, optionsText, walk).calls == []
    ensures RunOutcome(true, task, optionsText, walk).failure.None? <==>
      forall p :: p in Split(optionsText, ',') ==> IsPair(p)
  {
    ParseOptionsOk(optionsText);
  }

  /**
   * A resize run over a walk without errors calls the executor once per
   * image file, in walk order, each with the configured size and filter,
   * and finishes without a panic.
   */
  lemma RunResizesImages(optionsText: string, walk: seq<WalkItem>, options: OptionMap, config: ResizeConfig)
    requires ParseOptions(optionsText) == Ok(options)
    requires Configure(options) == Ok(config)
    requires WalkError !in walk
    ensures var o := RunOutcome(true, "resize", optionsText, walk);
      var idx := ImageIndices(walk);
      o.failure == None && |o.calls| == |idx| &&
      forall j :: 0 <= j < |idx| ==> o.calls[j] == Call(walk[idx[j]].entry.path, config.size, config.filter)
  {
    DispatchedSelects(walk, config.size, config.filter);
    DispatchedCompletes(walk, config.size, config.filter);
  }

  /**
   * A resize run with valid options over a walk whose first error is at
   * position `k` has called the executor on every image file before `k`, in
   * walk order, and then panics on the walk error.
   */
  lemma RunAbortsOnWalkError(optionsText: string, walk: seq<WalkItem>, options: OptionMap, config: ResizeConfig, k: nat)
    requires ParseOptions(optionsText) == Ok(options)
    requires Configure(options) == Ok(config)
    requires k < |walk| && walk[k] == WalkError
    requires WalkError !in walk[..k]
    ensures var o := RunOutcome(true, "resize", optionsText, walk);
      var idx := ImageIndices(walk[..k]);
      o.failure == Some(WalkFailed) && |o.calls| == |idx| &&
      forall j :: 0 <= j < |idx| ==> o.calls[j] == Call(walk[..k][idx[j]].entry.path, config.size, config.filter)
  {
    DispatchedAbortsAt(walk, k, config.size, config.filter);
    DispatchedSelects(walk[..k], config.size, config.filter);
  }

  /** `size=10x10` over `a.png`, `b.txt` and `c.jpg` resizes the two images to 10 by 10 with the default filter. */
  lemma RunExample()
    ensures RunOutcome(true, "resize", "size=10x10",
      [Visit(Entry("a.png", true, Utf8("png"))),
       Visit(Entry("b.txt", true, Utf8("txt"))),
       Visit(Entry("c.jpg", true, Utf8("jpg")))])
      == Outcome([Call("a.png", Absolute(10, 10), CatmullRom), Call("c.jpg", Absolute(10, 10), CatmullRom)], None)
  {
    var options := map["size" := "10x10"];
    assert '=' !in "size" && '=' !in "10x10" && ',' !in "size" && ',' !in "10x10";
    ParseOneOption("size", "10x10");
    assert "size" + "=" + "10x10" == "size=10x10";
    assert Decimal(10) == "10";
    SizeRoundTrip(10, 10);
    assert Decimal(10) + "x" + Decimal(10) == "10x10";
    assert Configure(options) == Ok(ResizeConfig(Absolute(10, 10), CatmullRom));
    DispatchedExample(Absolute(10, 10), CatmullRom);
  }
}
