/** `run_wsl_silently`: the background reader of one backend session. It
    relays every output line to the display (through `append_output`),
    marks the server running when a line carries the readiness marker, and
    clears both flags once the output ends or reading fails. The backend
    process itself is abstract: what it printed and how its output ended. */
module Launcher {
  import opened Text
  import opened LogFilter
  import opened ServerLifecycle

  const StartingUpMessage: string := "DwemerDistro is starting up.\n"
  const ReadyMessage: string := "Server is ready.\n"

  /** `f"An error occurred: {e}\n"`, with `str(e)` given. */
  function ErrorMessage(error: string): string
  {
    "An error occurred: " + error + "\n"
  }

  datatype StreamEnd = Exhausted | ReadFailed(error: string)

  /** How one backend session went: the process could not be spawned, or it
      printed `output` (line by line, newlines included) and then its output
      ended or reading it raised. */
  datatype Backend =
    | SpawnFailed(error: string)
    | Spawned(output: seq<string>, end: StreamEnd)

  predicate IsMarkerLine(line: string)
  {
    Contains(line, ReadinessMarker)
  }

  /** The texts handed to `append_output` for one line: the line itself and,
      after a marker line, the ready notice. */
  function Relayed(line: string): seq<string>
  {
    if IsMarkerLine(line) then [line, ReadyMessage] else [line]
  }

  function RelayedAll(lines: seq<string>): seq<string>
    decreases |lines|
  {
    if lines == [] then [] else Relayed(lines[0]) + RelayedAll(lines[1..])
  }

  /** What the display gains from a run of texts: each text stripped of
      escape sequences, kept when the stripped form is not unwanted. */
  function Visible(texts: seq<string>): (r: seq<string>)
    ensures |r| <= |texts|
    ensures forall i :: 0 <= i < |r| ==> !IsUnwantedLine(r[i])
    decreases |texts|
  {
    if texts == [] then []
    else AppendOutput([], texts[0]) + Visible(texts[1..])
  }

  lemma {:induction false} VisibleAppend(a: seq<string>, b: seq<string>)
    ensures Visible(a + b) == Visible(a) + Visible(b)
    decreases |a|
  {
    if a != [] {
      assert (a + b)[1..] == a[1..] + b;
      VisibleAppend(a[1..], b);
    } else {
      assert a + b == b;
    }
  }

  /** The `for line in self.process.stdout` loop. */
  function ReadOutput(f: Flags, shown: seq<string>, lines: seq<string>): (r: (Flags, seq<string>))
    decreases |lines|
  {
    if lines == [] then (f, shown)
    else
      var line := lines[0];
      var afterLine := AppendOutput(shown, line);
      var afterNotice := if IsMarkerLine(line) then AppendOutput(afterLine, ReadyMessage) else afterLine;
      ReadOutput(OnOutputLine(f, line), afterNotice, lines[1..])
  }

  /** After reading, the server is marked running when some line carried
      the marker, and otherwise the flags are as they were: it reads as
      running exactly when it did before or a marker line came, and as
      starting exactly when it was starting and no marker line came. */
  lemma {:induction false} ReadOutputFlags(f: Flags, shown: seq<string>, lines: seq<string>)
    ensures (exists i :: 0 <= i < |lines| && IsMarkerLine(lines[i])) ==> ReadOutput(f, shown, lines).0 == Running
    ensures (forall i :: 0 <= i < |lines| ==> !IsMarkerLine(lines[i])) ==> ReadOutput(f, shown, lines).0 == f
    ensures ReadOutput(f, shown, lines).0.running <==> f.running || exists i :: 0 <= i < |lines| && IsMarkerLine(lines[i])
    ensures ReadOutput(f, shown, lines).0.starting <==> f.starting && forall i :: 0 <= i < |lines| ==> !IsMarkerLine(lines[i])
    decreases |lines|
  {
    if lines != [] {
      var line := lines[0];
      var afterLine := AppendOutput(shown, line);
      var afterNotice := if IsMarkerLine(line) then AppendOutput(afterLine, ReadyMessage) else afterLine;
      ReadOutputFlags(OnOutputLine(f, line), afterNotice, lines[1..]);
      assert forall i :: 1 <= i < |lines| ==> lines[i] == lines[1..][i - 1];
      if IsMarkerLine(line) {
        ReadOutputStaysRunning(afterNotice, lines[1..]);
      }
    }
  }

  lemma {:induction false} ReadOutputStaysRunning(shown: seq<string>, lines: seq<string>)
    ensures ReadOutput(Running, shown, lines).0 == Running
    decreases |lines|
  {
    if lines != [] {
      var line := lines[0];
      var afterLine := AppendOutput(shown, line);
      var afterNotice := if IsMarkerLine(line) then AppendOutput(afterLine, ReadyMessage) else afterLine;
      ReadOutputStaysRunning(afterNotice, lines[1..]);
    }
  }

  lemma AppendOutputExtends(shown: seq<string>, text: string)
    ensures AppendOutput(shown, text) == shown + AppendOutput([], text)
    ensures Visible([text]) == AppendOutput([], text)
  {
    assert Visible([text]) == AppendOutput([], text) + Visible([]);
  }

  lemma RelayedAllStep(lines: seq<string>)
    requires lines != []
    ensures RelayedAll(lines) == Relayed(lines[0]) + RelayedAll(lines[1..])
  {
  }

  /** Appending `a` and then `b` to `shown` appends `a + b`. */
  lemma Regroup<T>(out: seq<T>, mid: seq<T>, shown: seq<T>, a: seq<T>, b: seq<T>, whole: seq<T>)
    requires out == mid + b && mid == shown + a && whole == a + b
    ensures out == shown + whole
  {
  }

  /** The display after one line: the line's visible part, then the notice's. */
  lemma LineDisplay(shown: seq<string>, line: string)
    ensures (if IsMarkerLine(line) then AppendOutput(AppendOutput(shown, line), ReadyMessage) else AppendOutput(shown, line))
            == shown + Visible(Relayed(line))
  {
    AppendOutputExtends(shown, line);
    if IsMarkerLine(line) {
      var afterLine := AppendOutput(shown, line);
      AppendOutputExtends(afterLine, ReadyMessage);
      AppendOutputExtends([], ReadyMessage);
      VisibleAppend([line], [ReadyMessage]);
      assert [line] + [ReadyMessage] == [line, ReadyMessage];
      Regroup(AppendOutput(afterLine, ReadyMessage), afterLine, shown,
              Visible([line]), Visible([ReadyMessage]), Visible([line, ReadyMessage]));
    }
  }

  /** The display receives exactly the visible part of the relayed texts, in
      the order the backend printed them. */
  lemma {:induction false} ReadOutputDisplay(f: Flags, shown: seq<string>, lines: seq<string>)
    ensures ReadOutput(f, shown, lines).1 == shown + Visible(RelayedAll(lines))
    decreases |lines|
  {
    if lines == [] {
      assert shown + [] == shown;
    } else {
      var line := lines[0];
      var afterLine := AppendOutput(shown, line);
      var afterNotice := if IsMarkerLine(line) then AppendOutput(afterLine, ReadyMessage) else afterLine;
      ReadOutputDisplay(OnOutputLine(f, line), afterNotice, lines[1..]);
      LineDisplay(shown, line);
      RelayedAllStep(lines);
      VisibleAppend(Relayed(line), RelayedAll(lines[1..]));
      Regroup(ReadOutput(f, shown, lines).1, afterNotice, shown,
              Visible(Relayed(line)), Visible(RelayedAll(lines[1..])), Visible(RelayedAll(lines)));
    }
  }

  /** `run_wsl_silently` from spawning to `update_buttons_after_process`. */
  function RunWslSilently(f: Flags, shown: seq<string>, backend: Backend): (r: (Flags, seq<string>))
  {
    match backend
    case SpawnFailed(error) =>
      (OnProcessEnd(f), AppendOutput(shown, ErrorMessage(error)))
    case Spawned(output, end) =>
      var (read, display) := ReadOutput(f, AppendOutput(shown, StartingUpMessage), output);
      match end
      case Exhausted => (OnProcessEnd(read), display)
      case ReadFailed(error) => (OnProcessEnd(read), AppendOutput(display, ErrorMessage(error)))
  }

  /** Whatever the backend does, the session ends with both flags cleared,
      and the display shows the starting notice, the visible relayed output
      and, when reading failed, the error, in that order. */
  lemma SessionOutcome(f: Flags, shown: seq<string>, backend: Backend)
    ensures RunWslSilently(f, shown, backend).0 == Idle
    ensures backend.SpawnFailed? ==>
              RunWslSilently(f, shown, backend).1 == shown + Visible([ErrorMessage(backend.error)])
    ensures backend.Spawned? ==>
              RunWslSilently(f, shown, backend).1 ==
                shown + Visible([StartingUpMessage] + RelayedAll(backend.output)
                                + (if backend.end.ReadFailed? then [ErrorMessage(backend.end.error)] else []))
  {
    match backend
    case SpawnFailed(error) =>
      AppendOutputExtends(shown, ErrorMessage(error));
    case Spawned(output, end) =>
      var start := AppendOutput(shown, StartingUpMessage);
      var printed := [StartingUpMessage] + RelayedAll(output);
      AppendOutputExtends(shown, StartingUpMessage);
      ReadOutputDisplay(f, start, output);
      VisibleAppend([StartingUpMessage], RelayedAll(output));
      var display := ReadOutput(f, start, output).1;
      Regroup(display, start, shown, Visible([StartingUpMessage]), Visible(RelayedAll(output)), Visible(printed));
      if end.ReadFailed? {
        var error := ErrorMessage(end.error);
        AppendOutputExtends(display, error);
        VisibleAppend(printed, [error]);
        Regroup(AppendOutput(display, error), display, shown, Visible(printed), Visible([error]), Visible(printed + [error]));
      } else {
        assert printed + [] == printed;
      }
  }

  /** Between the marker line and the end of the output the launcher reads
      as running; the ready notice is shown right after the marker line. */
  lemma MarkerLineMarksRunning(f: Flags, shown: seq<string>, before: seq<string>, marker: string, after: seq<string>)
    requires IsMarkerLine(marker)
    ensures ReadOutput(f, shown, before + [marker] + after).0 == Running
  {
    var lines := before + [marker] + after;
    assert lines[|before|] == marker;
    ReadOutputFlags(f, shown, lines);
  }
}
