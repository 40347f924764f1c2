/** `compile_videos` of combine.py:275-388: the downloaded files are listed
    in a concat file, then three transcoder strategies are tried strictly in
    order until one produces an acceptable output. Each transcoder run is an
    input of the model: the return code, whether the output file exists and
    its size. The operator's answer to the prompt before the last strategy is
    an input too. */
module Compile {
  import opened Wrappers
  import opened Text
  import opened Dicts

  /** The three strategies: stream copy with timestamp correction, frame-drop
      re-encode, full re-encode with normalisation. */
  datatype Tier = StreamCopy | FrameDrop | FullReencode

  /** What one transcoder run left behind. */
  datatype Outcome = Outcome(returnCode: int, outputExists: bool, outputSize: int)

  /** An output of this many bytes or fewer is treated as a failed run. */
  const MinOutputSize: int := 1_000_000

  /** The acceptance test applied after every strategy. */
  predicate Accepted(o: Outcome) {
    o.returnCode == 0 && o.outputExists && o.outputSize > MinOutputSize
  }

  /** `input(...).strip().lower() == 'y'` */
  predicate Confirmed(reply: string) {
    Lower(Strip(reply)) == "y"
  }

  /** The operator confirms exactly with `y` or `Y`, surrounded by any whitespace. */
  lemma ConfirmedMeans(reply: string)
    ensures Confirmed(reply) <==> Strip(reply) == "y" || Strip(reply) == "Y"
  {
    LowerIsY(Strip(reply));
  }

  // ---------------------------------------------------------------------------
  // The tier state machine

  /** Where the procedure stands: about to run a strategy, waiting for the
      operator, or finished with or without an output. */
  datatype Phase = Attempt(tier: Tier) | AwaitConfirmation | Succeeded(winner: Tier) | Failed

  predicate Terminal(p: Phase) { p.Succeeded? || p.Failed? }

  /** Steps still possible from a phase. */
  function Rank(p: Phase): nat {
    match p
    case Attempt(StreamCopy) => 4
    case Attempt(FrameDrop) => 3
    case AwaitConfirmation => 2
    case Attempt(FullReencode) => 1
    case _ => 0
  }

  /** One transition. A strategy that is accepted ends the procedure; one that
      fails hands over to the next; in interactive mode the operator is asked
      before the full re-encode. */
  function Step(p: Phase, autoMode: bool, transcode: Tier -> Outcome, reply: string): (q: Phase)
    ensures Terminal(p) ==> q == p
    ensures !Terminal(p) ==> Rank(q) < Rank(p)
  {
    match p
    case Attempt(t) =>
      if Accepted(transcode(t)) then Succeeded(t)
      else (match t
        case StreamCopy => Attempt(FrameDrop)
        case FrameDrop => if autoMode then Attempt(FullReencode) else AwaitConfirmation
        case FullReencode => Failed)
    case AwaitConfirmation => if Confirmed(reply) then Attempt(FullReencode) else Failed
    case _ => p
  }

  /** The final phase and the strategies run on the way there. */
  datatype Trace = Trace(final: Phase, attempted: seq<Tier>)

  /** The strategies in the order they are tried. */
  const TierOrder: seq<Tier> := [StreamCopy, FrameDrop, FullReencode]

  /** The position in `TierOrder` of the next strategy a phase can run. */
  function NextTier(p: Phase): nat {
    match p
    case Attempt(StreamCopy) => 0
    case Attempt(FrameDrop) => 1
    case AwaitConfirmation => 2
    case Attempt(FullReencode) => 2
    case _ => 3
  }

  /** Running the machine to the end: it stops in success or failure, after
      at most the strategies left in `TierOrder` (three from the start). */
  function Run(p: Phase, autoMode: bool, transcode: Tier -> Outcome, reply: string): (t: Trace)
    ensures Terminal(t.final)
    ensures NextTier(p) + |t.attempted| <= |TierOrder|
    decreases Rank(p)
  {
    if Terminal(p) then Trace(p, [])
    else
      StepFacts(p, autoMode, transcode, reply);
      var rest := Run(Step(p, autoMode, transcode, reply), autoMode, transcode, reply);
      Trace(rest.final, (if p.Attempt? then [p.tier] else []) + rest.attempted)
  }

  /** The strategies run are the remaining ones of `TierOrder`, in order;
      each one before the last was rejected, and a success is the last
      strategy run, which was accepted. */
  lemma {:induction false} RunOrder(p: Phase, autoMode: bool, transcode: Tier -> Outcome, reply: string)
    ensures var t := Run(p, autoMode, transcode, reply);
      t.attempted == TierOrder[NextTier(p)..NextTier(p) + |t.attempted|]
      && (p.Attempt? ==> t.attempted != [] && t.attempted[0] == p.tier)
      && (forall i :: 0 <= i < |t.attempted| - 1 ==> !Accepted(transcode(t.attempted[i])))
      && (!Terminal(p) && t.final.Succeeded? ==>
            t.attempted != [] && t.final.winner == t.attempted[|t.attempted| - 1]
            && Accepted(transcode(t.final.winner)))
    decreases Rank(p)
  {
    if !Terminal(p) {
      var q := Step(p, autoMode, transcode, reply);
      StepFacts(p, autoMode, transcode, reply);
      RunOrder(q, autoMode, transcode, reply);
      var rest := Run(q, autoMode, transcode, reply);
      var head := if p.Attempt? then [p.tier] else [];
      var t := Run(p, autoMode, transcode, reply);
      assert t.attempted == head + rest.attempted;
      var a := NextTier(p);
      if Terminal(q) {
        assert rest.attempted == [];
        assert t.attempted == head;
      } else {
        assert rest.attempted == TierOrder[a + |head|..a + |head| + |rest.attempted|];
        assert t.attempted == TierOrder[a..a + |t.attempted|];
        forall i | 0 <= i < |t.attempted| - 1 ensures !Accepted(transcode(t.attempted[i])) {
          if p.Attempt? && i > 0 { assert t.attempted[i] == rest.attempted[i - 1]; }
        }
      }
    }
  }

  /** What one step does to the position in `TierOrder`, and why it stops. */
  lemma StepFacts(p: Phase, autoMode: bool, transcode: Tier -> Outcome, reply: string)
    requires !Terminal(p)
    ensures var q := Step(p, autoMode, transcode, reply);
      var head := if p.Attempt? then [p.tier] else [];
      NextTier(p) + |head| <= |TierOrder|
      && head == TierOrder[NextTier(p)..NextTier(p) + |head|]
      && (Terminal(q) || NextTier(q) == NextTier(p) + |head|)
      && (p.Attempt? && !Terminal(q) ==> !Accepted(transcode(p.tier)))
      && (q.Succeeded? ==> p.Attempt? && q.winner == p.tier && Accepted(transcode(p.tier)))
  {
  }

  /** The whole procedure from the first strategy. */
  function Procedure(autoMode: bool, transcode: Tier -> Outcome, reply: string): Trace {
    Run(Attempt(StreamCopy), autoMode, transcode, reply)
  }

  /** The procedure in closed form: which strategy wins, and which ones run.
      A later strategy runs only after every earlier one failed, the first
      accepted one wins, and the full re-encode runs in interactive mode only
      after the operator confirmed. */
  lemma ProcedureCases(autoMode: bool, transcode: Tier -> Outcome, reply: string)
    ensures var t := Procedure(autoMode, transcode, reply);
      var a1, a2, a3 := Accepted(transcode(StreamCopy)), Accepted(transcode(FrameDrop)), Accepted(transcode(FullReencode));
      var go := autoMode || Confirmed(reply);
      (t.final == Succeeded(StreamCopy) <==> a1)
      && (t.final == Succeeded(FrameDrop) <==> !a1 && a2)
      && (t.final == Succeeded(FullReencode) <==> !a1 && !a2 && go && a3)
      && (t.final == Failed <==> !a1 && !a2 && (!go || !a3))
      && t.attempted == (if a1 then [StreamCopy]
                         else if a2 || !go then [StreamCopy, FrameDrop]
                         else [StreamCopy, FrameDrop, FullReencode])
  {
  }

  /** Strategies run in their fixed order, each one only after all before it
      failed, and a success is the last strategy run, which passed the test. */
  lemma ProcedureOrder(autoMode: bool, transcode: Tier -> Outcome, reply: string)
    ensures var t := Procedure(autoMode, transcode, reply);
      1 <= |t.attempted| <= 3
      && t.attempted == [StreamCopy, FrameDrop, FullReencode][..|t.attempted|]
      && (forall i :: 0 <= i < |t.attempted| - 1 ==> !Accepted(transcode(t.attempted[i])))
      && (t.final.Succeeded? ==> t.final.winner == t.attempted[|t.attempted| - 1]
                                 && Accepted(transcode(t.final.winner)))
  {
    ProcedureCases(autoMode, transcode, reply);
  }

  /** In interactive mode the full re-encode runs only on a `y` answer; in
      automatic mode the answer plays no part. */
  lemma ProcedureGate(autoMode: bool, transcode: Tier -> Outcome, reply: string, otherReply: string)
    ensures !autoMode && FullReencode in Procedure(autoMode, transcode, reply).attempted
            ==> Strip(reply) == "y" || Strip(reply) == "Y"
    ensures autoMode ==> Procedure(autoMode, transcode, reply) == Procedure(autoMode, transcode, otherReply)
  {
    ProcedureCases(autoMode, transcode, reply);
    ProcedureCases(autoMode, transcode, otherReply);
    ConfirmedMeans(reply);
  }

  /** A failed full re-encode leaves no output. */
  lemma LastTierFailure(autoMode: bool, transcode: Tier -> Outcome, reply: string)
    requires !Accepted(transcode(FullReencode))
    ensures Procedure(autoMode, transcode, reply).final != Succeeded(FullReencode)
    ensures FullReencode in Procedure(autoMode, transcode, reply).attempted
            ==> Procedure(autoMode, transcode, reply).final == Failed
  {
    ProcedureCases(autoMode, transcode, reply);
  }

  // ---------------------------------------------------------------------------
  // The concat list and the output name

  /** One line of the concat file, with the path's backslashes turned into slashes. */
  function ConcatLine(path: string): string {
    "file '" + ReplaceChar(path, '\\', '/') + "'"
  }

  /** `'\n'.join(...)` of the lines, in the order of the downloads. */
  function ConcatListing(paths: seq<string>): string
    decreases |paths|
  {
    if paths == [] then ""
    else if |paths| == 1 then ConcatLine(paths[0])
    else ConcatLine(paths[0]) + "\n" + ConcatListing(paths[1..])
  }

  /** The concat file can be written as ASCII exactly when every path is ASCII. */
  lemma {:induction false} ConcatListingAscii(paths: seq<string>)
    ensures IsAscii(ConcatListing(paths)) <==> forall i :: 0 <= i < |paths| ==> IsAscii(paths[i])
    decreases |paths|
  {
    if paths != [] {
      var line := ConcatLine(paths[0]);
      ReplaceCharAscii(paths[0], '\\', '/');
      IsAsciiAppend("file '", ReplaceChar(paths[0], '\\', '/'));
      IsAsciiAppend("file '" + ReplaceChar(paths[0], '\\', '/'), "'");
      assert IsAscii(line) <==> IsAscii(paths[0]);
      if |paths| > 1 {
        ConcatListingAscii(paths[1..]);
        IsAsciiAppend(line, "\n");
        IsAsciiAppend(line + "\n", ConcatListing(paths[1..]));
        forall i | 1 <= i < |paths| ensures paths[i] == paths[1..][i - 1] { }
        if forall i :: 0 <= i < |paths| - 1 ==> IsAscii(paths[1..][i]) {
          forall i | 1 <= i < |paths| ensures IsAscii(paths[i]) { assert paths[i] == paths[1..][i - 1]; }
        }
      }
    }
  }

  /** `f"{topic}_compilation_{timestamp}.mp4"` */
  function OutputName(topic: string, timestamp: string): string {
    topic + "_compilation_" + timestamp + ".mp4"
  }

  /** `Path(output_path) / OutputName(...)` */
  function OutputPath(outputDir: string, topic: string, timestamp: string): string {
    outputDir + "/" + OutputName(topic, timestamp)
  }

  /** The one failure of the procedure that is modelled: a path that is not
      ASCII cannot be written to the concat file. */
  datatype CompileError = ConcatListNotAscii

  /** `compile_videos`. An empty map returns `None` before anything runs; the
      strategies then run one after another as the state machine says, and
      the output path is returned only when a strategy was accepted. */
  method CompileVideos(videoFiles: Dict<string>, topic: string, outputDir: string, timestamp: string,
                       autoMode: bool, transcode: Tier -> Outcome, reply: string)
    returns (r: Result<Option<string>, CompileError>, attempted: seq<Tier>)
    requires Valid(videoFiles)
    ensures videoFiles.keys == [] ==> r == Success(None) && attempted == []
    ensures videoFiles.keys != [] && !IsAscii(ConcatListing(Values(videoFiles)))
            ==> r == Failure(ConcatListNotAscii) && attempted == []
    ensures videoFiles.keys != [] && IsAscii(ConcatListing(Values(videoFiles)))
            ==> var t := Procedure(autoMode, transcode, reply);
                attempted == t.attempted
                && r == Success(if t.final.Succeeded? then Some(OutputPath(outputDir, topic, timestamp)) else None)
  {
    if videoFiles.keys == [] {
      return Success(None), [];
    }
    var listing := ConcatListing(Values(videoFiles));
    if !IsAscii(listing) {
      return Failure(ConcatListNotAscii), [];
    }
    var output := OutputPath(outputDir, topic, timestamp);
    ProcedureCases(autoMode, transcode, reply);

    attempted := [StreamCopy];
    if Accepted(transcode(StreamCopy)) {
      return Success(Some(output)), attempted;
    }
    attempted := attempted + [FrameDrop];
    if Accepted(transcode(FrameDrop)) {
      return Success(Some(output)), attempted;
    }
    if !autoMode && !Confirmed(reply) {
      return Success(None), attempted;
    }
    attempted := attempted + [FullReencode];
    if Accepted(transcode(FullReencode)) {
      return Success(Some(output)), attempted;
    }
    r := Success(None);
  }
}
