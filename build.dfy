/** The `/build` handler: pump the build script's output into the log,
    classify each line into a phase notification, branch on the exit code,
    and trim the log directory in `finally`. */
module Build {
  import opened StringOrder
  import opened Retention
  import opened LogStore

  datatype Option<T> = None | Some(value: T)

  /** Substring tests of the classifier. */
  const PatchMarker: string := "Applying patch"
  const BuildMarker: string := "Building kernel"

  /** `p` occurs in `s` starting at index `i`. */
  predicate OccursAt(s: string, p: string, i: int) {
    0 <= i && i + |p| <= |s| && s[i..i + |p|] == p
  }

  /** Python's `p in s` on strings: try each start position in turn. */
  function Contains(s: string, p: string): bool
    decreases |s|
  {
    (|p| <= |s| && s[..|p|] == p) || (|s| > 0 && Contains(s[1..], p))
  }

  /** The search finds `p` exactly when `p` occurs somewhere in `s`. */
  lemma {:induction false} ContainsIffOccurs(s: string, p: string)
    ensures Contains(s, p) <==> exists i :: OccursAt(s, p, i)
    decreases |s|
  {
    if |s| > 0 {
      ContainsIffOccurs(s[1..], p);
      if Contains(s[1..], p) {
        var i :| OccursAt(s[1..], p, i);
        assert s[1..][i..i + |p|] == s[i + 1..i + 1 + |p|];
        assert OccursAt(s, p, i + 1);
      }
      if i :| OccursAt(s, p, i) && i > 0 {
        assert s[1..][i - 1..i - 1 + |p|] == s[i..i + |p|];
        assert OccursAt(s[1..], p, i - 1);
      }
    }
    if |p| <= |s| && s[..|p|] == p {
      assert OccursAt(s, p, 0);
    }
  }

  /** A phase the output shows, announced on the display. */
  datatype Phase = Patching | Building

  /** `if "Applying patch" in output ... elif "Building kernel" in output`:
      the patch marker wins when a line holds both. */
  function Classify(line: string): (r: Option<Phase>)
    ensures r == Some(Patching) <==> exists i :: OccursAt(line, PatchMarker, i)
    ensures r == Some(Building) <==>
              (forall i :: !OccursAt(line, PatchMarker, i))
              && exists i :: OccursAt(line, BuildMarker, i)
    ensures r == None <==>
              forall i :: !OccursAt(line, PatchMarker, i) && !OccursAt(line, BuildMarker, i)
  {
    ContainsIffOccurs(line, PatchMarker);
    ContainsIffOccurs(line, BuildMarker);
    if Contains(line, PatchMarker) then Some(Patching)
    else if Contains(line, BuildMarker) then Some(Building)
    else None
  }

  /** The text sent to the display for a phase. */
  function PhaseMessage(p: Phase): string {
    match p
    case Patching => "Patching..."
    case Building => "Building..."
  }

  /** One pass of the read loop: `readline()` returned `text` and `poll()`
      would report `exited` at that moment; or the pass raised, in `readline`
      (output that does not decode as text) or in `log_file.write`. */
  datatype Read =
    | Line(text: string, exited: bool)
    | Raises

  /** The text a pass adds to the log: nothing when it raised. */
  function TextOf(r: Read): string {
    if r.Line? then r.text else ""
  }

  /** The read that ends the loop normally: nothing read and the process gone. */
  predicate Ends(r: Read) {
    r.Line? && r.text == "" && r.exited
  }

  /** A pass that leaves the loop: the ending read, or one that raises. */
  predicate Stops(r: Read) {
    Ends(r) || r.Raises?
  }

  /** Index of the pass that leaves the loop (`|outputs|` when none does). */
  function StopAt(outputs: seq<Read>): (k: nat)
    ensures k <= |outputs|
    ensures forall j :: 0 <= j < k ==> !Stops(outputs[j])
    ensures k < |outputs| ==> Stops(outputs[k])
  {
    if outputs == [] || Stops(outputs[0]) then 0 else 1 + StopAt(outputs[1..])
  }

  /** The lines written to the log file: every non-empty read, in order. */
  function Written(outputs: seq<Read>): seq<string> {
    if outputs == [] then []
    else
      var last := TextOf(outputs[|outputs| - 1]);
      Written(outputs[..|outputs| - 1]) + (if last != "" then [last] else [])
  }

  /** The phase a written line announces: none or one. */
  function Announced(line: string): seq<Phase> {
    var c := Classify(line);
    if c.Some? then [c.value] else []
  }

  /** The phases announced for the written lines, in order. */
  function Events(lines: seq<string>): seq<Phase> {
    if lines == [] then []
    else Events(lines[..|lines| - 1]) + Announced(lines[|lines| - 1])
  }

  /** The display texts for a run of phases. */
  function PhaseMessages(events: seq<Phase>): (r: seq<string>)
    ensures |r| == |events|
    ensures forall i :: 0 <= i < |events| ==> r[i] == PhaseMessage(events[i])
  {
    if events == [] then [] else [PhaseMessage(events[0])] + PhaseMessages(events[1..])
  }

  /** What the log file holds: its writes, one after the other. */
  function Concat(parts: seq<string>): string {
    if parts == [] then "" else Concat(parts[..|parts| - 1]) + parts[|parts| - 1]
  }

  /** The text of each read, in arrival order. */
  function Texts(outputs: seq<Read>): (r: seq<string>)
    ensures |r| == |outputs|
    ensures forall i :: 0 <= i < |outputs| ==> r[i] == TextOf(outputs[i])
  {
    if outputs == [] then [] else Texts(outputs[..|outputs| - 1]) + [TextOf(outputs[|outputs| - 1])]
  }

  /** Reads are logged in arrival order: the lines of two runs of reads are
      those of the first followed by those of the second. */
  lemma {:induction false} WrittenAppend(a: seq<Read>, b: seq<Read>)
    ensures Written(a + b) == Written(a) + Written(b)
    decreases |b|
  {
    if b != [] {
      var b' := b[..|b| - 1];
      assert (a + b)[..|a + b| - 1] == a + b';
      WrittenAppend(a, b');
    } else {
      assert a + b == a;
    }
  }

  /** The log file content is the concatenation of every read, empty ones
      included: skipping empty reads loses nothing. */
  lemma {:induction false} LogContentIsOutput(outputs: seq<Read>)
    ensures Concat(Written(outputs)) == Concat(Texts(outputs))
  {
    if outputs != [] {
      var init := outputs[..|outputs| - 1];
      var last := TextOf(outputs[|outputs| - 1]);
      LogContentIsOutput(init);
      assert Texts(outputs)[..|outputs| - 1] == Texts(init);
      if last != "" {
        assert (Written(init) + [last])[..|Written(init)|] == Written(init);
      } else {
        assert Written(init) + [] == Written(init);
        assert Concat(Texts(init)) + last == Concat(Texts(init));
      }
    }
  }

  /** Every written line is non-empty, and the log has one line per
      non-empty read. */
  lemma {:induction false} WrittenNonEmpty(outputs: seq<Read>)
    ensures forall line :: line in Written(outputs) ==> line != ""
    ensures |Written(outputs)| == |NonEmptyReads(outputs)|
  {
    if outputs != [] {
      var n := |outputs| - 1;
      var init := outputs[..n];
      WrittenNonEmpty(init);
      NonEmptyStep(outputs);
      assert Written(outputs) == Written(init) + (if TextOf(outputs[n]) != "" then [TextOf(outputs[n])] else []);
    }
  }

  /** The indices of the non-empty reads. */
  function NonEmptyReads(outputs: seq<Read>): set<nat> {
    set j: nat | j < |outputs| && TextOf(outputs[j]) != ""
  }

  /** One more read adds its index to the non-empty ones when it is non-empty. */
  lemma NonEmptyStep(outputs: seq<Read>)
    requires outputs != []
    ensures var n := |outputs| - 1;
            |NonEmptyReads(outputs)| ==
              |NonEmptyReads(outputs[..n])| + (if TextOf(outputs[n]) != "" then 1 else 0)
  {
    var n := |outputs| - 1;
    var before := NonEmptyReads(outputs[..n]);
    assert before == set j: nat | j < n && TextOf(outputs[j]) != "";
    if TextOf(outputs[n]) != "" {
      assert NonEmptyReads(outputs) == before + {n};
    } else {
      assert NonEmptyReads(outputs) == before;
    }
  }

  /** One more read adds its line to the log when it is non-empty. */
  lemma WrittenStep(outputs: seq<Read>, i: nat, text: string)
    requires i < |outputs| && TextOf(outputs[i]) == text
    ensures text == "" ==> Written(outputs[..i + 1]) == Written(outputs[..i])
    ensures text != "" ==> Written(outputs[..i + 1]) == Written(outputs[..i]) + [text]
  {
    assert outputs[..i + 1][..i] == outputs[..i];
    assert Written(outputs[..i]) + [] == Written(outputs[..i]);
  }

  /** One more logged line adds its phase, if any, to the announcements. */
  lemma EventsStep(lines: seq<string>, line: string)
    ensures Events(lines + [line]) == Events(lines) + Announced(line)
  {
    assert (lines + [line])[..|lines|] == lines;
  }

  /** How the read loop was left. */
  datatype PumpEnd =
    | Exited      // an empty read after `poll()` reported exit: `break`
    | Raised      // a read or a log write raised: on to `except Exception`
    | OutOfReads  // the reads ran out first: the real loop would still wait

  /** One pump of the build output, as `build_kernel`'s `while True` loop
      does it. */
  method PumpOutput(outputs: seq<Read>)
    returns (end: PumpEnd, consumed: nat, written: seq<string>, events: seq<Phase>)
    ensures end == OutOfReads <==> StopAt(outputs) == |outputs|
    ensures end == Exited <==> StopAt(outputs) < |outputs| && Ends(outputs[StopAt(outputs)])
    ensures end == Raised <==> StopAt(outputs) < |outputs| && outputs[StopAt(outputs)].Raises?
    ensures consumed == if end == OutOfReads then |outputs| else StopAt(outputs) + 1
    ensures written == Written(outputs[..StopAt(outputs)])
    ensures events == Events(written)
  {
    ghost var k := StopAt(outputs);
    var i := 0;
    end, written, events := OutOfReads, [], [];
    while i < |outputs|
      invariant i <= k
      invariant end == OutOfReads
      invariant written == Written(outputs[..i])
      invariant events == Events(written)
    {
      var output := outputs[i];
      if output.Raises? {
        end := Raised;
        break;
      }
      var text := output.text;
      if text == "" && output.exited {
        end := Exited;
        break;
      }
      assert i != k by {
        assert !Stops(outputs[i]);
      }
      WrittenStep(outputs, i, text);
      if text != "" {
        EventsStep(written, text);
        written, events := written + [text], events + Announced(text);
      }
      i := i + 1;
    }
    assert i == k;
    consumed := if end == OutOfReads then i else i + 1;
  }

  /** How a `/build` request ends. */
  datatype Outcome =
    | Succeeded     // return code 0
    | Failed        // any other return code
    | Crashed       // an exception reached `except Exception`: "critical error"
    | StillReading  // the output never ended: `finally` not reached

  /** How far the handler gets before the read loop. */
  datatype Start =
    | OpenFails     // `open(log_path, 'w')` raised: no log file
    | LaunchFails   // the log is open but `Popen` raised
    | Launched      // the script runs

  /** The chat replies of the handler (their texts are fixed strings). */
  datatype ChatReply = StartedReply | SuccessReply | FailureReply | CriticalErrorReply

  /** The caption of the log document sent back. */
  datatype Caption = SuccessCaption | FailureCaption

  /** What the return-code branch selects. */
  datatype Verdict = Verdict(outcome: Outcome, reply: ChatReply, display: string, caption: Caption)

  /** `if process.returncode == 0: ... else: ...`. */
  function VerdictOf(returnCode: int): (v: Verdict)
    ensures v.outcome == Succeeded <==> returnCode == 0
    ensures v.outcome == Failed <==> returnCode != 0
    ensures v.outcome == Succeeded ==>
              v.reply == SuccessReply && v.display == "Build Success" && v.caption == SuccessCaption
    ensures v.outcome == Failed ==>
              v.reply == FailureReply && v.display == "Build Failed" && v.caption == FailureCaption
  {
    if returnCode == 0 then Verdict(Succeeded, SuccessReply, "Build Success", SuccessCaption)
    else Verdict(Failed, FailureReply, "Build Failed", FailureCaption)
  }

  /** One `/build` request. `logName` is the timestamped log name, `start`
      how far the handler got before the read loop, `outputs` the passes of
      the read loop and `returnCode` the script's exit status. Returns the
      outcome, the chat replies, the display texts, the lines written to the
      log and the captions of the documents sent. */
  method BuildKernel(dir: LogDirectory, logName: string, start: Start, outputs: seq<Read>, returnCode: int)
    returns (outcome: Outcome, replies: seq<ChatReply>, displays: seq<string>,
             written: seq<string>, documents: seq<Caption>)
    modifies dir
    ensures var k := StopAt(outputs);
            outcome == Crashed <==> start != Launched || (k < |outputs| && outputs[k].Raises?)
    ensures var k := StopAt(outputs);
            outcome == Succeeded || outcome == Failed <==> start == Launched && k < |outputs| && Ends(outputs[k])
    ensures outcome == StillReading <==> start == Launched && StopAt(outputs) == |outputs|
    ensures written == if start == Launched then Written(outputs[..StopAt(outputs)]) else []
    ensures outcome == Crashed ==>
              replies == [StartedReply, CriticalErrorReply] && documents == []
              && displays == ["Build Started"] + PhaseMessages(Events(written)) + ["Critical Error"]
    ensures outcome == StillReading ==>
              replies == [StartedReply] && documents == []
              && displays == ["Build Started"] + PhaseMessages(Events(written))
    ensures outcome == Succeeded || outcome == Failed ==>
              var v := VerdictOf(returnCode);
              outcome == v.outcome && replies == [StartedReply, v.reply] && documents == [v.caption]
              && displays == ["Build Started"] + PhaseMessages(Events(written)) + [v.display]
    ensures outcome == StillReading ==> dir.files == old(dir.files) + {logName}
    ensures outcome != StillReading ==>
              dir.files == Greatest(if start == OpenFails then old(dir.files) else old(dir.files) + {logName},
                                    MaxLogFiles)
  {
    replies, displays, documents, written := [StartedReply], ["Build Started"], [], [];
    if start == OpenFails {
      outcome := Crashed;
      replies, displays := replies + [CriticalErrorReply], displays + ["Critical Error"];
    } else {
      dir.Create(logName);
      if start == LaunchFails {
        outcome := Crashed;
        replies, displays := replies + [CriticalErrorReply], displays + ["Critical Error"];
      } else {
        var end, consumed, events;
        end, consumed, written, events := PumpOutput(outputs);
        displays := displays + PhaseMessages(events);
        if end == OutOfReads {
          outcome := StillReading;
          return;
        } else if end == Raised {
          outcome := Crashed;
          replies, displays := replies + [CriticalErrorReply], displays + ["Critical Error"];
        } else {
          var v := VerdictOf(returnCode);
          outcome := v.outcome;
          replies, displays, documents := replies + [v.reply], displays + [v.display], [v.caption];
        }
      }
    }
    dir.CleanupOldLogs();
  }
}
