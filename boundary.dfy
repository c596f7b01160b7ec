/**
 * The track-boundary state machine of Program.Main. One pass of its
 * `while (true)` loop reads the player's elapsed-time label, artist and
 * title, compares them with the previous pass and decides whether to export
 * the previous segment, mark a new one, or wait for the next track start.
 *
 * `Step` is the specification of one pass over the loop's local variables
 * (`State`); `Pass` is the pass as the loop body performs it, proved equal
 * to `Step`; `Run` and `MainLoop` are the loop over a finite sequence of
 * passes.
 */
module Boundary {

  import opened FileNames

  /** The elapsed-time label the player shows when a track starts. */
  const StartLabel: string := "0:00"

  /** The loop sleeps this many milliseconds per pass; the counters advance by it. */
  const TickMs: int := 100

  /** Passes with an unchanged label after which the track counts as ended. */
  const DebounceTicks: int := 30

  /** Segments shorter than this many milliseconds are not exported. */
  const MinExportMs: int := 15000

  /**
   * What one pass reads: the three labels from the metadata source, the
   * clock in milliseconds, and the names of the files present in the
   * "Tracks" folder under the application directory.
   */
  datatype Reading = Reading(trackTime: string, artist: string, title: string, now: int, tracks: set<string>)

  /** What one pass does to the world outside the loop. */
  datatype Action =
    | SetMetadata(title: string, artist: string)   // ringBufferRecorder.SetMetadata(title, artist)
    | MarkSegmentStart                              // ringBufferRecorder.MarkSegmentStart()
    | Export(filename: string)                      // ringBufferRecorder.ExportMarkedSegment(filename)
    | AppendRecorded(line: string)                  // File.AppendAllText("recorded.txt", line)

  /** The local variables the loop carries from one pass to the next. */
  datatype State = State(
    lastTrackTime: string,
    lastArtist: string,
    lastTitle: string,
    unchangedTimeCount: int,
    millisecondsSinceStart: int,
    currentTrackDuration: int,
    waitingForTrackStart: bool,
    trackJustStarted: bool,
    trackStartTime: int)

  /** The variables as Main initialises them before the loop; `startTime` is the clock then. */
  function Initial(startTime: int): State {
    State("", "", "", 0, 0, 0, false, false, startTime)
  }

  /** The line appended to recorded.txt for an exported track. */
  function RecordedLine(artist: string, title: string): string {
    artist + " - " + title + "\n"
  }

  /**
   * The gate in front of every export: nothing when the track's .mp3 is
   * already present or the segment is shorter than MinExportMs, otherwise the
   * export under the track's name followed by its audit line.
   */
  function ExportIfDue(artist: string, title: string, duration: int, tracks: set<string>): seq<Action> {
    if Mp3FileName(artist, title) in tracks then []
    else if duration >= MinExportMs then
      [Export(WavFileName(artist, title)), AppendRecorded(RecordedLine(artist, title))]
    else []
  }

  /** The label moves onto the start label in this pass. */
  predicate StartsTrack(s: State, r: Reading) {
    r.trackTime == StartLabel && s.lastTrackTime != StartLabel
  }

  predicate IdentityChanged(s: State, r: Reading) {
    r.artist != s.lastArtist || r.title != s.lastTitle
  }

  /** A start of a track whose .mp3 is present: the pass waits and ends early. */
  predicate SkipsKnownTrack(s: State, r: Reading) {
    !s.waitingForTrackStart && StartsTrack(s, r) && Mp3FileName(r.artist, r.title) in r.tracks
  }

  /** The identity-change branch: the previous pair's segment is exported if due. */
  function OnIdentity(s: State, r: Reading): (State, seq<Action>) {
    if IdentityChanged(s, r) then
      (s.(millisecondsSinceStart := 0, unchangedTimeCount := 0, currentTrackDuration := 0, trackStartTime := r.now),
       ExportIfDue(s.lastArtist, s.lastTitle, r.now - s.trackStartTime, r.tracks))
    else (s, [])
  }

  /** The start branch when the track is not known: set the tags and mark the segment. */
  function OnStart(s: State, r: Reading): (State, seq<Action>) {
    if StartsTrack(s, r) then
      (s.(trackJustStarted := true, millisecondsSinceStart := 0, currentTrackDuration := 0, trackStartTime := r.now),
       [SetMetadata(r.title, r.artist), MarkSegmentStart])
    else
      (s.(millisecondsSinceStart := s.millisecondsSinceStart + TickMs, trackJustStarted := false), [])
  }

  /** The stall branch: count unchanged labels; at DebounceTicks the current pair is exported if due. */
  function OnStall(s: State, r: Reading): (State, seq<Action>) {
    if r.trackTime == s.lastTrackTime then
      var count := s.unchangedTimeCount + 1;
      if count >= DebounceTicks then
        (s.(unchangedTimeCount := count, waitingForTrackStart := true),
         ExportIfDue(r.artist, r.title, r.now - s.trackStartTime, r.tracks))
      else (s.(unchangedTimeCount := count), [])
    else (s.(unchangedTimeCount := 0), [])
  }

  /** The waiting branch: only a start leaves it, resetting the counters and marking a segment. */
  function OnWaiting(s: State, r: Reading): (State, seq<Action>) {
    if StartsTrack(s, r) then
      (s.(waitingForTrackStart := false, unchangedTimeCount := 0, millisecondsSinceStart := 0,
          currentTrackDuration := 0, trackStartTime := r.now),
       [SetMetadata(r.title, r.artist), MarkSegmentStart])
    else (s, [])
  }

  function Remember(s: State, r: Reading): State {
    s.(lastTrackTime := r.trackTime, lastArtist := r.artist, lastTitle := r.title)
  }

  /** One pass of the loop. */
  function Step(s: State, r: Reading): (State, seq<Action>) {
    var s0 := s.(currentTrackDuration := s.currentTrackDuration + TickMs);
    if s.waitingForTrackStart then
      var waiting := OnWaiting(s0, r);
      (Remember(waiting.0, r), waiting.1)
    else
      var identity := OnIdentity(s0, r);
      if SkipsKnownTrack(s, r) then
        (identity.0.(waitingForTrackStart := true), identity.1)
      else
        var start := OnStart(identity.0, r);
        var stall := OnStall(start.0, r);
        (Remember(stall.0, r), identity.1 + start.1 + stall.1)
  }

  /** The loop over a finite sequence of passes: the final state and every action in order. */
  function Run(s: State, rs: seq<Reading>): (State, seq<Action>)
    decreases |rs|
  {
    if rs == [] then (s, [])
    else
      var first := Step(s, rs[0]);
      var rest := Run(first.0, rs[1..]);
      (rest.0, first.1 + rest.1)
  }

  lemma {:induction false} RunAppend(s: State, rs: seq<Reading>, r: Reading)
    ensures Run(s, rs + [r]) == (Step(Run(s, rs).0, r).0, Run(s, rs).1 + Step(Run(s, rs).0, r).1)
    decreases |rs|
  {
    if rs == [] {
      assert [] + [r] == [r] && [r][1..] == [];
      assert Run(s, [r]) == (Step(s, r).0, Step(s, r).1 + []);
      assert Step(s, r).1 + [] == Step(s, r).1 == [] + Step(s, r).1;
    } else {
      assert (rs + [r])[0] == rs[0];
      assert (rs + [r])[1..] == rs[1..] + [r];
      var first := Step(s, rs[0]);
      RunAppend(first.0, rs[1..], r);
      var rest := Run(first.0, rs[1..]);
      assert first.1 + (rest.1 + Step(rest.0, r).1) == (first.1 + rest.1) + Step(rest.0, r).1;
    }
  }

  // ---------------------------------------------------------------------
  // The loop, imperatively

  /** The name the loop builds for a pair: "{MakeFilenameSafe(artist)}_{MakeFilenameSafe(title)}.wav". */
  method TrackFileName(artist: string, title: string) returns (filename: string)
    ensures filename == WavFileName(artist, title)
  {
    var safeArtist := MakeFilenameSafe(artist);
    var safeTitle := MakeFilenameSafe(title);
    filename := safeArtist + "_" + safeTitle + ".wav";
  }

  /** The existence check and duration check in front of an export, as the loop performs them. */
  method ExportIfDueAt(artist: string, title: string, duration: int, tracks: set<string>)
    returns (actions: seq<Action>)
    ensures actions == ExportIfDue(artist, title, duration, tracks)
  {
    var filename := TrackFileName(artist, title);
    actions := [];
    if ChangeExtension(filename, ".mp3") !in tracks && duration >= MinExportMs {
      actions := [Export(filename), AppendRecorded(artist + " - " + title + "\n")];
    }
  }

  /**
   * One pass of the loop body over Main's local variables, held in `before`;
   * an early `return` is the source's `continue`.
   */
  method Pass(before: State, trackTime: string, artist: string, title: string, now: int, tracks: set<string>)
    returns (after: State, actions: seq<Action>)
    ensures (after, actions) == Step(before, Reading(trackTime, artist, title, now, tracks))
  {
    ghost var r := Reading(trackTime, artist, title, now, tracks);
    ghost var s0 := before.(currentTrackDuration := before.currentTrackDuration + TickMs);
    ghost var identity := OnIdentity(s0, r);
    var lastTrackTime, lastArtist, lastTitle := before.lastTrackTime, before.lastArtist, before.lastTitle;
    var unchangedTimeCount, millisecondsSinceStart := before.unchangedTimeCount, before.millisecondsSinceStart;
    var currentTrackDuration, waitingForTrackStart := before.currentTrackDuration, before.waitingForTrackStart;
    var trackJustStarted, trackStartTime := before.trackJustStarted, before.trackStartTime;
    actions := [];

    currentTrackDuration := currentTrackDuration + TickMs;

    if !waitingForTrackStart {
      if artist != lastArtist || title != lastTitle {
        millisecondsSinceStart := 0;
        unchangedTimeCount := 0;
        var exported := ExportIfDueAt(lastArtist, lastTitle, now - trackStartTime, tracks);
        actions := actions + exported;
        currentTrackDuration := 0;
        trackStartTime := now;
      }
      assert actions == identity.1;
      assert identity.0 == State(lastTrackTime, lastArtist, lastTitle, unchangedTimeCount, millisecondsSinceStart,
                                 currentTrackDuration, waitingForTrackStart, trackJustStarted, trackStartTime);

      if trackTime == StartLabel && lastTrackTime != StartLabel {
        var filename := TrackFileName(artist, title);
        if ChangeExtension(filename, ".mp3") in tracks {
          assert SkipsKnownTrack(before, r);
          waitingForTrackStart := true;
          after := State(lastTrackTime, lastArtist, lastTitle, unchangedTimeCount, millisecondsSinceStart,
                         currentTrackDuration, waitingForTrackStart, trackJustStarted, trackStartTime);
          return;
        }
        trackJustStarted := true;
        millisecondsSinceStart := 0;
        currentTrackDuration := 0;
        trackStartTime := now;
        actions := actions + [SetMetadata(title, artist), MarkSegmentStart];
      } else {
        millisecondsSinceStart := millisecondsSinceStart + TickMs;
        if trackJustStarted {
          trackJustStarted := false;
        }
      }
      ghost var start := OnStart(identity.0, r);
      assert actions == identity.1 + start.1;
      assert start.0 == State(lastTrackTime, lastArtist, lastTitle, unchangedTimeCount, millisecondsSinceStart,
                          currentTrackDuration, waitingForTrackStart, trackJustStarted, trackStartTime);

      if trackTime == lastTrackTime {
        unchangedTimeCount := unchangedTimeCount + 1;
        if unchangedTimeCount >= DebounceTicks {
          waitingForTrackStart := true;
          var exported := ExportIfDueAt(artist, title, now - trackStartTime, tracks);
          actions := actions + exported;
        }
      } else {
        unchangedTimeCount := 0;
      }
      assert actions == identity.1 + start.1 + OnStall(start.0, r).1;
      assert OnStall(start.0, r).0 == State(lastTrackTime, lastArtist, lastTitle, unchangedTimeCount, millisecondsSinceStart,
                                      currentTrackDuration, waitingForTrackStart, trackJustStarted, trackStartTime);
      assert !SkipsKnownTrack(before, r);
      assert Step(before, r) == (Remember(OnStall(start.0, r).0, r), actions);
    } else {
      if trackTime == StartLabel && lastTrackTime != StartLabel {
        waitingForTrackStart := false;
        unchangedTimeCount := 0;
        millisecondsSinceStart := 0;
        currentTrackDuration := 0;
        trackStartTime := now;
        actions := actions + [SetMetadata(title, artist), MarkSegmentStart];
      }
      assert actions == OnWaiting(s0, r).1;
      assert OnWaiting(s0, r).0 == State(lastTrackTime, lastArtist, lastTitle, unchangedTimeCount, millisecondsSinceStart,
                                  currentTrackDuration, waitingForTrackStart, trackJustStarted, trackStartTime);
      assert Step(before, r) == (Remember(OnWaiting(s0, r).0, r), actions);
    }

    lastTrackTime := trackTime;
    lastArtist := artist;
    lastTitle := title;
    after := State(lastTrackTime, lastArtist, lastTitle, unchangedTimeCount, millisecondsSinceStart,
                   currentTrackDuration, waitingForTrackStart, trackJustStarted, trackStartTime);
  }

  /**
   * Main's initialisations followed by its loop, over a finite sequence of
   * readings: the final values of the loop variables and every action in order.
   */
  method MainLoop(startTime: int, rs: seq<Reading>) returns (final: State, actions: seq<Action>)
    ensures (final, actions) == Run(Initial(startTime), rs)
  {
    final, actions := Initial(startTime), [];
    for k := 0 to |rs|
      invariant (final, actions) == Run(Initial(startTime), rs[..k])
    {
      var r := rs[k];
      RunAppend(Initial(startTime), rs[..k], r);
      assert rs[..k + 1] == rs[..k] + [r];
      var more;
      final, more := Pass(final, r.trackTime, r.artist, r.title, r.now, r.tracks);
      actions := actions + more;
    }
    assert rs[..|rs|] == rs;
  }

  // ---------------------------------------------------------------------
  // What the actions amount to

  /** The file names passed to ExportMarkedSegment, in order. */
  function Exports(acts: seq<Action>): seq<string>
    decreases |acts|
  {
    if acts == [] then []
    else (if acts[0].Export? then [acts[0].filename] else []) + Exports(acts[1..])
  }

  /** The lines appended to recorded.txt, in order. */
  function Recorded(acts: seq<Action>): seq<string>
    decreases |acts|
  {
    if acts == [] then []
    else (if acts[0].AppendRecorded? then [acts[0].line] else []) + Recorded(acts[1..])
  }

  /** The number of segment marks. */
  function Marks(acts: seq<Action>): nat
    decreases |acts|
  {
    if acts == [] then 0
    else (if acts[0].MarkSegmentStart? then 1 else 0) + Marks(acts[1..])
  }

  lemma ActionsAppend(a: seq<Action>, b: seq<Action>)
    ensures Exports(a + b) == Exports(a) + Exports(b)
    ensures Recorded(a + b) == Recorded(a) + Recorded(b)
    ensures Marks(a + b) == Marks(a) + Marks(b)
  {
    ExportsAppend(a, b);
    RecordedAppend(a, b);
    MarksAppend(a, b);
  }

  lemma {:induction false} ExportsAppend(a: seq<Action>, b: seq<Action>)
    ensures Exports(a + b) == Exports(a) + Exports(b)
    decreases |a|
  {
    if a == [] {
      assert a + b == b;
    } else {
      assert (a + b)[0] == a[0];
      assert (a + b)[1..] == a[1..] + b;
      ExportsAppend(a[1..], b);
      var head := (if a[0].Export? then [a[0].filename] else []);
      assert Exports(a + b) == head + Exports(a[1..] + b);
      assert head + (Exports(a[1..]) + Exports(b)) == (head + Exports(a[1..])) + Exports(b);
    }
  }

  lemma {:induction false} RecordedAppend(a: seq<Action>, b: seq<Action>)
    ensures Recorded(a + b) == Recorded(a) + Recorded(b)
    decreases |a|
  {
    if a == [] {
      assert a + b == b;
    } else {
      assert (a + b)[0] == a[0];
      assert (a + b)[1..] == a[1..] + b;
      RecordedAppend(a[1..], b);
      var head := (if a[0].AppendRecorded? then [a[0].line] else []);
      assert Recorded(a + b) == head + Recorded(a[1..] + b);
      assert head + (Recorded(a[1..]) + Recorded(b)) == (head + Recorded(a[1..])) + Recorded(b);
    }
  }

  lemma {:induction false} MarksAppend(a: seq<Action>, b: seq<Action>)
    ensures Marks(a + b) == Marks(a) + Marks(b)
    decreases |a|
  {
    if a == [] {
      assert a + b == b;
    } else {
      assert (a + b)[0] == a[0];
      assert (a + b)[1..] == a[1..] + b;
      MarksAppend(a[1..], b);
      assert Marks(a + b) == (if a[0].MarkSegmentStart? then 1 else 0) + Marks(a[1..] + b);
    }
  }

  lemma ActionsOfOne(a: Action)
    ensures Exports([a]) == (if a.Export? then [a.filename] else [])
    ensures Recorded([a]) == (if a.AppendRecorded? then [a.line] else [])
    ensures Marks([a]) == (if a.MarkSegmentStart? then 1 else 0)
  {
    assert [a][1..] == [];
  }

  /** The actions that change what the next export writes: the tags or the segment mark. */
  predicate ChangesRecorder(a: Action) {
    a.SetMetadata? || a.MarkSegmentStart?
  }

  /** No action of `acts` changes the recorder's tags or mark. */
  predicate Untouched(acts: seq<Action>)
    decreases |acts|
  {
    acts == [] || (!ChangesRecorder(acts[0]) && Untouched(acts[1..]))
  }

  /**
   * The file names exported before the first tagging or marking: the exports
   * that still write the segment and tags the recorder had when the actions began.
   */
  function ExportsBeforeChange(acts: seq<Action>): (names: seq<string>)
    ensures |names| <= |Exports(acts)|
    decreases |acts|
  {
    if acts == [] || ChangesRecorder(acts[0]) then []
    else (if acts[0].Export? then [acts[0].filename] else []) + ExportsBeforeChange(acts[1..])
  }

  /** With no tagging or marking, every export writes what the recorder had at the start. */
  lemma {:induction false} UntouchedExportsAll(acts: seq<Action>)
    requires Untouched(acts)
    ensures ExportsBeforeChange(acts) == Exports(acts)
    decreases |acts|
  {
    if acts != [] {
      UntouchedExportsAll(acts[1..]);
    }
  }

  lemma {:induction false} UntouchedAppend(a: seq<Action>, b: seq<Action>)
    ensures Untouched(a + b) == (Untouched(a) && Untouched(b))
    decreases |a|
  {
    if a == [] {
      assert a + b == b;
    } else {
      assert (a + b)[0] == a[0];
      assert (a + b)[1..] == a[1..] + b;
      UntouchedAppend(a[1..], b);
    }
  }

  lemma {:induction false} ExportsBeforeChangeAppend(a: seq<Action>, b: seq<Action>)
    ensures ExportsBeforeChange(a + b) == ExportsBeforeChange(a) + (if Untouched(a) then ExportsBeforeChange(b) else [])
    decreases |a|
  {
    if a == [] {
      assert a + b == b;
    } else {
      assert (a + b)[0] == a[0];
      assert (a + b)[1..] == a[1..] + b;
      if !ChangesRecorder(a[0]) {
        ExportsBeforeChangeAppend(a[1..], b);
        var head := (if a[0].Export? then [a[0].filename] else []);
        var tail := (if Untouched(a[1..]) then ExportsBeforeChange(b) else []);
        assert ExportsBeforeChange(a + b) == head + ExportsBeforeChange(a[1..] + b);
        assert head + (ExportsBeforeChange(a[1..]) + tail) == (head + ExportsBeforeChange(a[1..])) + tail;
        assert Untouched(a) == Untouched(a[1..]);
      } else {
        assert ExportsBeforeChange(a + b) == [] && ExportsBeforeChange(a) == [] && !Untouched(a);
      }
    }
  }

  lemma ExportsBeforeChangeOfOne(a: Action)
    ensures Untouched([a]) == !ChangesRecorder(a)
    ensures ExportsBeforeChange([a]) == (if a.Export? then [a.filename] else [])
  {
    assert [a][1..] == [];
  }

  /**
   * Every export is immediately followed by an audit line, and every audit
   * line immediately follows an export: the actions read as export-and-line
   * pairs among other actions.
   */
  predicate EveryExportLogged(acts: seq<Action>)
    decreases |acts|
  {
    if acts == [] then true
    else if acts[0].Export? then |acts| >= 2 && acts[1].AppendRecorded? && EveryExportLogged(acts[2..])
    else !acts[0].AppendRecorded? && EveryExportLogged(acts[1..])
  }

  lemma {:induction false} EveryExportLoggedAppend(a: seq<Action>, b: seq<Action>)
    requires EveryExportLogged(a) && EveryExportLogged(b)
    ensures EveryExportLogged(a + b)
    decreases |a|
  {
    if a == [] {
      assert a + b == b;
    } else if a[0].Export? {
      assert (a + b)[0] == a[0] && (a + b)[1] == a[1];
      assert (a + b)[2..] == a[2..] + b;
      EveryExportLoggedAppend(a[2..], b);
    } else {
      assert (a + b)[0] == a[0];
      assert (a + b)[1..] == a[1..] + b;
      EveryExportLoggedAppend(a[1..], b);
    }
  }

  /** The existence check and the duration check at work: what the gate exports and logs. */
  lemma ExportIfDueContents(artist: string, title: string, duration: int, tracks: set<string>)
    ensures var due := Mp3FileName(artist, title) !in tracks && duration >= MinExportMs;
      && Exports(ExportIfDue(artist, title, duration, tracks)) == (if due then [WavFileName(artist, title)] else [])
      && Recorded(ExportIfDue(artist, title, duration, tracks)) == (if due then [RecordedLine(artist, title)] else [])
      && Marks(ExportIfDue(artist, title, duration, tracks)) == 0
      && EveryExportLogged(ExportIfDue(artist, title, duration, tracks))
      && Untouched(ExportIfDue(artist, title, duration, tracks))
  {
    var acts := ExportIfDue(artist, title, duration, tracks);
    if acts != [] {
      assert acts[1..] == [AppendRecorded(RecordedLine(artist, title))];
      ActionsOfOne(AppendRecorded(RecordedLine(artist, title)));
      ExportsBeforeChangeOfOne(AppendRecorded(RecordedLine(artist, title)));
    }
  }

  /**
   * A ".wav" already exported under the pair's name does not stop the gate:
   * only the ".mp3" name is checked, so the export is attempted again and a
   * second audit line is appended.
   */
  lemma ExportedFileDoesNotStopExport(artist: string, title: string, duration: int, tracks: set<string>)
    ensures ExportIfDue(artist, title, duration, tracks + {WavFileName(artist, title)})
      == ExportIfDue(artist, title, duration, tracks)
  {
    CheckedNameIsNotExportedName(artist, title);
  }

  /** The exports of the identity-change branch: the previous pair's, if due. */
  function ChangeExports(s: State, r: Reading): seq<Action> {
    if IdentityChanged(s, r) then ExportIfDue(s.lastArtist, s.lastTitle, r.now - s.trackStartTime, r.tracks)
    else []
  }

  /** The export of the stall branch: the current pair's, if due, on the pass that reaches DebounceTicks. */
  function StallExports(s: State, r: Reading): seq<Action> {
    if !IdentityChanged(s, r) && r.trackTime == s.lastTrackTime && s.unchangedTimeCount + 1 >= DebounceTicks then
      ExportIfDue(r.artist, r.title, r.now - s.trackStartTime, r.tracks)
    else []
  }

  /** The tagging and marking of the start branch. */
  function StartActions(s: State, r: Reading): seq<Action> {
    if StartsTrack(s, r) then [SetMetadata(r.title, r.artist), MarkSegmentStart] else []
  }

  // ---------------------------------------------------------------------
  // Properties of one pass

  /**
   * The actions of a pass that neither waits nor skips: the identity-change
   * exports, then the start's tagging and marking, then the stall export.
   */
  lemma StepActions(s: State, r: Reading)
    requires !s.waitingForTrackStart && !SkipsKnownTrack(s, r)
    ensures Step(s, r).1 == ChangeExports(s, r) + StartActions(s, r) + StallExports(s, r)
  {
  }

  /**
   * A pass that sees a new artist or title exports the previous pair's
   * segment exactly when that pair's .mp3 is absent and the segment lasted
   * at least MinExportMs.
   */
  lemma IdentityChangeExportsPrevious(s: State, r: Reading)
    requires !s.waitingForTrackStart && IdentityChanged(s, r)
    ensures var due := Mp3FileName(s.lastArtist, s.lastTitle) !in r.tracks && r.now - s.trackStartTime >= MinExportMs;
      && Exports(Step(s, r).1) == (if due then [WavFileName(s.lastArtist, s.lastTitle)] else [])
      && Recorded(Step(s, r).1) == (if due then [RecordedLine(s.lastArtist, s.lastTitle)] else [])
  {
    var change := ChangeExports(s, r);
    assert Exports(Step(s, r).1) == Exports(change) && Recorded(Step(s, r).1) == Recorded(change) by {
      if SkipsKnownTrack(s, r) {
        assert Step(s, r).1 == change;
      } else {
        StepActions(s, r);
        assert StallExports(s, r) == [];
        StartActionsContents(s, r);
        ActionsAppend(change, StartActions(s, r));
        ActionsAppend(change + StartActions(s, r), []);
        assert change + StartActions(s, r) + [] == change + StartActions(s, r);
      }
    }
    ExportIfDueContents(s.lastArtist, s.lastTitle, r.now - s.trackStartTime, r.tracks);
  }

  /**
   * A pass that sees a new artist or title restarts the segment clock and
   * the duration counter; the unchanged counter restarts too, at 1 when this
   * pass's stall check sees the same label again, and the elapsed counter
   * is 0 after a start and 100 otherwise.
   */
  lemma IdentityChangeResetsCounters(s: State, r: Reading)
    requires !s.waitingForTrackStart && IdentityChanged(s, r)
    ensures Step(s, r).0.trackStartTime == r.now && Step(s, r).0.currentTrackDuration == 0
    ensures Step(s, r).0.millisecondsSinceStart == (if StartsTrack(s, r) then 0 else TickMs)
    ensures Step(s, r).0.unchangedTimeCount ==
      (if !SkipsKnownTrack(s, r) && r.trackTime == s.lastTrackTime then 1 else 0)
  {
  }

  /** A start of a track whose .mp3 is absent tags and marks a new segment and resets every counter. */
  lemma StartMarksSegment(s: State, r: Reading)
    requires !s.waitingForTrackStart && StartsTrack(s, r) && Mp3FileName(r.artist, r.title) !in r.tracks
    ensures Step(s, r).1 == ChangeExports(s, r) + [SetMetadata(r.title, r.artist), MarkSegmentStart]
    ensures Step(s, r).0 == State(r.trackTime, r.artist, r.title, 0, 0, 0, false, true, r.now)
  {
    var s0 := s.(currentTrackDuration := s.currentTrackDuration + TickMs);
    var start := OnStart(OnIdentity(s0, r).0, r);
    assert OnStall(start.0, r).1 == [];
  }

  /**
   * A start of a track whose .mp3 is present: the pass only handles an
   * identity change, enters the waiting state and keeps the previous labels.
   */
  lemma KnownTrackSkipped(s: State, r: Reading)
    requires SkipsKnownTrack(s, r)
    ensures Step(s, r).1 == ChangeExports(s, r)
    ensures Marks(Step(s, r).1) == 0
    ensures Step(s, r).0.waitingForTrackStart
    ensures Step(s, r).0.lastTrackTime == s.lastTrackTime
    ensures Step(s, r).0.lastArtist == s.lastArtist && Step(s, r).0.lastTitle == s.lastTitle
  {
    assert Step(s, r).1 == ChangeExports(s, r);
    assert Marks(ChangeExports(s, r)) == 0 by {
      ExportIfDueContents(s.lastArtist, s.lastTitle, r.now - s.trackStartTime, r.tracks);
    }
  }

  /**
   * The skip does not hold: because the labels were not updated, a next
   * pass that still shows the start label is a start again, which leaves the
   * waiting state and marks the known track's segment.
   */
  lemma SkipUndoneOnNextPass(s: State, r: Reading, next: Reading)
    requires SkipsKnownTrack(s, r) && next.trackTime == StartLabel
    ensures StartsTrack(Step(s, r).0, next)
    ensures !Step(Step(s, r).0, next).0.waitingForTrackStart
    ensures Step(Step(s, r).0, next).1 == [SetMetadata(next.title, next.artist), MarkSegmentStart]
  {
  }

  /**
   * The stall counter counts passes whose label equals the previous one
   * (from zero after an identity change) and the pass that reaches
   * DebounceTicks enters the waiting state.
   */
  lemma StallCounting(s: State, r: Reading)
    requires !s.waitingForTrackStart && !SkipsKnownTrack(s, r)
    ensures var count := (if IdentityChanged(s, r) then 0 else s.unchangedTimeCount);
      && Step(s, r).0.unchangedTimeCount == (if r.trackTime == s.lastTrackTime then count + 1 else 0)
      && (Step(s, r).0.waitingForTrackStart <==> r.trackTime == s.lastTrackTime && count + 1 >= DebounceTicks)
  {
  }

  /** The pass that ends a stalled track exports the current pair's segment if it is due. */
  lemma StallExportsCurrentTrack(s: State, r: Reading)
    requires !s.waitingForTrackStart && !IdentityChanged(s, r)
    requires r.trackTime == s.lastTrackTime && s.unchangedTimeCount + 1 >= DebounceTicks
    ensures Step(s, r).0.waitingForTrackStart
    ensures var due := Mp3FileName(r.artist, r.title) !in r.tracks && r.now - s.trackStartTime >= MinExportMs;
      && Exports(Step(s, r).1) == (if due then [WavFileName(r.artist, r.title)] else [])
      && Recorded(Step(s, r).1) == (if due then [RecordedLine(r.artist, r.title)] else [])
      && Marks(Step(s, r).1) == 0
  {
    ExportIfDueContents(r.artist, r.title, r.now - s.trackStartTime, r.tracks);
    StepActions(s, r);
    var acts := ExportIfDue(r.artist, r.title, r.now - s.trackStartTime, r.tracks);
    assert Step(s, r).1 == [] + [] + acts;
    assert [] + [] + acts == acts;
  }

  /** While waiting, only a start does anything: it leaves the state, resets the counters and marks a segment. */
  lemma WaitingPass(s: State, r: Reading)
    requires s.waitingForTrackStart
    ensures StartsTrack(s, r) ==>
      Step(s, r) == (State(r.trackTime, r.artist, r.title, 0, 0, 0, false, s.trackJustStarted, r.now),
                     [SetMetadata(r.title, r.artist), MarkSegmentStart])
    ensures !StartsTrack(s, r) ==>
      Step(s, r) == (s.(currentTrackDuration := s.currentTrackDuration + TickMs,
                        lastTrackTime := r.trackTime, lastArtist := r.artist, lastTitle := r.title),
                     [])
  {
  }

  lemma StartActionsContents(s: State, r: Reading)
    ensures Exports(StartActions(s, r)) == [] && Recorded(StartActions(s, r)) == []
    ensures Marks(StartActions(s, r)) == (if StartsTrack(s, r) then 1 else 0)
    ensures EveryExportLogged(StartActions(s, r))
  {
    var acts := StartActions(s, r);
    if acts != [] {
      assert acts[1..] == [MarkSegmentStart];
      ActionsOfOne(MarkSegmentStart);
    }
  }

  /** No pass exports more than one segment, and every export is followed by its audit line. */
  lemma AtMostOneExportPerPass(s: State, r: Reading)
    ensures |Exports(Step(s, r).1)| <= 1
    ensures |Recorded(Step(s, r).1)| == |Exports(Step(s, r).1)|
    ensures EveryExportLogged(Step(s, r).1)
  {
    if s.waitingForTrackStart {
      assert Step(s, r).1 == StartActions(s, r);
      StartActionsContents(s, r);
    } else if SkipsKnownTrack(s, r) {
      assert Step(s, r).1 == ChangeExports(s, r);
      GateCounts(s.lastArtist, s.lastTitle, r.now - s.trackStartTime, r.tracks);
    } else {
      ActingPassLogs(s, r);
    }
  }

  lemma ActingPassLogs(s: State, r: Reading)
    requires !s.waitingForTrackStart && !SkipsKnownTrack(s, r)
    ensures |Exports(Step(s, r).1)| <= 1
    ensures |Recorded(Step(s, r).1)| == |Exports(Step(s, r).1)|
    ensures EveryExportLogged(Step(s, r).1)
  {
    StepActions(s, r);
    var change, start, stall := ChangeExports(s, r), StartActions(s, r), StallExports(s, r);
    assert |Exports(change + start + stall)| <= 1 && |Recorded(change + start + stall)| == |Exports(change + start + stall)| by {
      PassPartsCount(s, r);
    }
    assert EveryExportLogged(change + start + stall) by {
      PassPartsLogged(s, r);
    }
  }

  lemma PassPartsCount(s: State, r: Reading)
    ensures var acts := ChangeExports(s, r) + StartActions(s, r) + StallExports(s, r);
      |Exports(acts)| <= 1 && |Recorded(acts)| == |Exports(acts)|
  {
    var change, start, stall := ChangeExports(s, r), StartActions(s, r), StallExports(s, r);
    assert |Exports(change)| == |Recorded(change)| <= 1 by {
      GateCounts(s.lastArtist, s.lastTitle, r.now - s.trackStartTime, r.tracks);
    }
    assert |Exports(stall)| == |Recorded(stall)| <= 1 by {
      GateCounts(r.artist, r.title, r.now - s.trackStartTime, r.tracks);
    }
    assert Exports(start) == [] && Recorded(start) == [] by {
      StartActionsContents(s, r);
    }
    assert Exports(change) == [] || Exports(stall) == [] by {
      assert change == [] || stall == [];
    }
    ActionsAppend(change, start);
    ActionsAppend(change + start, stall);
  }

  /** The gate exports at most once and logs each export once. */
  lemma GateCounts(artist: string, title: string, duration: int, tracks: set<string>)
    ensures |Exports(ExportIfDue(artist, title, duration, tracks))| <= 1
    ensures |Recorded(ExportIfDue(artist, title, duration, tracks))| == |Exports(ExportIfDue(artist, title, duration, tracks))|
    ensures EveryExportLogged(ExportIfDue(artist, title, duration, tracks))
  {
    ExportIfDueContents(artist, title, duration, tracks);
  }

  /**
   * Every export of a pass comes before its tagging and marking: a start
   * moves the label, so no stall export shares a pass with it, and the
   * identity-change export comes first.
   */
  lemma ExportsPrecedeChanges(s: State, r: Reading)
    ensures ExportsBeforeChange(Step(s, r).1) == Exports(Step(s, r).1)
  {
    if s.waitingForTrackStart {
      assert Step(s, r).1 == StartActions(s, r);
      StartActionsContents(s, r);
    } else if SkipsKnownTrack(s, r) {
      assert Step(s, r).1 == ChangeExports(s, r);
      ExportIfDueContents(s.lastArtist, s.lastTitle, r.now - s.trackStartTime, r.tracks);
      UntouchedExportsAll(ChangeExports(s, r));
    } else {
      StepActions(s, r);
      var change, start, stall := ChangeExports(s, r), StartActions(s, r), StallExports(s, r);
      assert Untouched(change) by {
        ExportIfDueContents(s.lastArtist, s.lastTitle, r.now - s.trackStartTime, r.tracks);
      }
      assert Untouched(stall) by {
        ExportIfDueContents(r.artist, r.title, r.now - s.trackStartTime, r.tracks);
      }
      StartActionsContents(s, r);
      assert start == [] || stall == [] by {
        if StartsTrack(s, r) {
          assert stall == [];
        } else {
          assert start == [];
        }
      }
      ExportsAheadOfStart(change, start, stall);
    }
  }

  /**
   * Untouched exports, then a start that exports nothing, then untouched
   * exports, with at most one of the last two present: every export comes
   * before the first tagging or marking.
   */
  lemma ExportsAheadOfStart(change: seq<Action>, start: seq<Action>, stall: seq<Action>)
    requires Untouched(change) && Untouched(stall) && Exports(start) == []
    requires start == [] || stall == []
    ensures ExportsBeforeChange(change + start + stall) == Exports(change + start + stall)
  {
    UntouchedExportsAll(change);
    UntouchedExportsAll(stall);
    ExportsBeforeChangeAppend(change, start);
    ExportsBeforeChangeAppend(change + start, stall);
    ActionsAppend(change, start);
    ActionsAppend(change + start, stall);
    if start == [] {
      assert change + start == change;
    } else {
      assert change + start + stall == change + start;
    }
  }

  lemma PassPartsLogged(s: State, r: Reading)
    ensures EveryExportLogged(ChangeExports(s, r) + StartActions(s, r) + StallExports(s, r))
  {
    var change, start, stall := ChangeExports(s, r), StartActions(s, r), StallExports(s, r);
    assert EveryExportLogged(change) by {
      ExportIfDueContents(s.lastArtist, s.lastTitle, r.now - s.trackStartTime, r.tracks);
    }
    assert EveryExportLogged(stall) by {
      ExportIfDueContents(r.artist, r.title, r.now - s.trackStartTime, r.tracks);
    }
    assert EveryExportLogged(start) by {
      StartActionsContents(s, r);
    }
    assert EveryExportLogged(change + start) by {
      EveryExportLoggedAppend(change, start);
    }
    EveryExportLoggedAppend(change + start, stall);
  }

  /**
   * The first pass compares with the empty labels Main starts from: any
   * non-empty pair is an identity change, whose only possible export is the
   * empty pair's "_.wav".
   */
  lemma FirstPassExportsEmptyPair(startTime: int, r: Reading)
    requires r.artist != "" || r.title != ""
    ensures IdentityChanged(Initial(startTime), r)
    ensures Exports(Step(Initial(startTime), r).1) ==
      (if "_.mp3" !in r.tracks && r.now - startTime >= MinExportMs then ["_.wav"] else [])
  {
    assert Mp3FileName("", "") == "_.mp3" by {
      Mp3FileNameSwapsExtension("", "");
      assert Sanitized("") == [];
    }
    assert WavFileName("", "") == "_.wav" by {
      assert Sanitized("") == [];
    }
    IdentityChangeExportsPrevious(Initial(startTime), r);
  }

  /** "unknown" is an ordinary label: switching to it exports the previous track like any other change. */
  lemma UnknownArtistIsAnIdentityChange(s: State, r: Reading)
    requires !s.waitingForTrackStart && s.lastArtist != "unknown" && r.artist == "unknown"
    requires Mp3FileName(s.lastArtist, s.lastTitle) !in r.tracks && r.now - s.trackStartTime >= MinExportMs
    ensures Exports(Step(s, r).1) == [WavFileName(s.lastArtist, s.lastTitle)]
  {
    IdentityChangeExportsPrevious(s, r);
  }

  // ---------------------------------------------------------------------
  // Properties of the loop

  /** The labels of `rs` never move onto the start label, starting from `shown`. */
  predicate NoStart(shown: string, rs: seq<Reading>)
    decreases |rs|
  {
    rs == [] || (!(rs[0].trackTime == StartLabel && shown != StartLabel) && NoStart(rs[0].trackTime, rs[1..]))
  }

  /** Once waiting, the loop does nothing and keeps waiting until a start. */
  lemma {:induction false} QuietWhileWaiting(s: State, rs: seq<Reading>)
    requires s.waitingForTrackStart && NoStart(s.lastTrackTime, rs)
    ensures Run(s, rs).1 == []
    ensures Run(s, rs).0.waitingForTrackStart
    ensures rs != [] ==> Run(s, rs).0.lastTrackTime == rs[|rs| - 1].trackTime
    decreases |rs|
  {
    if rs != [] {
      WaitingPass(s, rs[0]);
      QuietWhileWaiting(Step(s, rs[0]).0, rs[1..]);
      if rs[1..] != [] {
        assert rs[1..][|rs[1..]| - 1] == rs[|rs| - 1];
      }
    }
  }

  /**
   * After entering the waiting state, the first thing the loop does is the
   * SetMetadata and MarkSegmentStart of the next start.
   */
  lemma WaitingEndsAtNextStart(s: State, rs: seq<Reading>, r: Reading)
    requires s.waitingForTrackStart && NoStart(s.lastTrackTime, rs)
    requires r.trackTime == StartLabel && Run(s, rs).0.lastTrackTime != StartLabel
    ensures Run(s, rs + [r]).1 == [SetMetadata(r.title, r.artist), MarkSegmentStart]
    ensures !Run(s, rs + [r]).0.waitingForTrackStart
  {
    QuietWhileWaiting(s, rs);
    RunAppend(s, rs, r);
    WaitingPass(Run(s, rs).0, r);
  }

  /** Over any run, every export is followed by its audit line and every audit line follows an export. */
  lemma {:induction false} RunLogsEveryExport(s: State, rs: seq<Reading>)
    ensures EveryExportLogged(Run(s, rs).1)
    ensures |Recorded(Run(s, rs).1)| == |Exports(Run(s, rs).1)| <= |rs|
    decreases |rs|
  {
    if rs != [] {
      var first := Step(s, rs[0]);
      AtMostOneExportPerPass(s, rs[0]);
      RunLogsEveryExport(first.0, rs[1..]);
      EveryExportLoggedAppend(first.1, Run(first.0, rs[1..]).1);
      ActionsAppend(first.1, Run(first.0, rs[1..]).1);
    }
  }
}
