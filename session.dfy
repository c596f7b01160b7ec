/**
 * Main's calls into the recorder: the actions of the boundary state machine
 * carried out against the RingBufferRecorder, with recorded.txt as the
 * sequence of lines appended to it.
 */
module Session {

  import opened Wrappers
  import opened FileNames
  import opened Recorder
  import opened Boundary

  /** The (title, artist) of the last SetMetadata among `acts`, if any. */
  function LastMetadata(acts: seq<Action>): Option<(string, string)>
    decreases |acts|
  {
    if acts == [] then None
    else if acts[|acts| - 1].SetMetadata? then Some((acts[|acts| - 1].title, acts[|acts| - 1].artist))
    else LastMetadata(acts[..|acts| - 1])
  }

  lemma ActionsAppendOne(acts: seq<Action>, a: Action)
    ensures Exports(acts + [a]) == Exports(acts) + (if a.Export? then [a.filename] else [])
    ensures Recorded(acts + [a]) == Recorded(acts) + (if a.AppendRecorded? then [a.line] else [])
    ensures Marks(acts + [a]) == Marks(acts) + (if a.MarkSegmentStart? then 1 else 0)
  {
    ActionsAppend(acts, [a]);
    ActionsOfOne(a);
  }

  /** The recorder's tags and segment mark, as the actions leave them. */
  datatype Marking = Marking(title: string, artist: string, cover: Option<seq<byte>>, start: nat, markedAt: nat)

  /**
   * The tags and the mark after `acts`, starting from `initial`: the tags of
   * the last SetMetadata with no cover image, and the mark at the cursor
   * `cursor` and stream length `written` once any action marked.
   */
  ghost predicate Carried(acts: seq<Action>, now: Marking, initial: Marking, cursor: nat, written: nat) {
    && (match LastMetadata(acts)
        case Some(m) => now.title == m.0 && now.artist == m.1 && now.cover == None
        case None => now.title == initial.title && now.artist == initial.artist && now.cover == initial.cover)
    && (Marks(acts) > 0 ==> now.start == cursor && now.markedAt == written)
    && (Marks(acts) == 0 ==> now.start == initial.start && now.markedAt == initial.markedAt)
  }

  /** One more action, with the contract of PerformAction, keeps the tags and the mark carried. */
  lemma ActionCarried(acts: seq<Action>, a: Action, before: Marking, after: Marking, initial: Marking, cursor: nat, written: nat)
    requires Carried(acts, before, initial, cursor, written)
    requires if a.SetMetadata? then after.title == a.title && after.artist == a.artist && after.cover == None
      else after.title == before.title && after.artist == before.artist && after.cover == before.cover
    requires if a.MarkSegmentStart? then after.start == cursor && after.markedAt == written
      else after.start == before.start && after.markedAt == before.markedAt
    ensures Carried(acts + [a], after, initial, cursor, written)
  {
    assert (acts + [a])[..|acts|] == acts;
    ActionsAppendOne(acts, a);
  }

  /** Actions that neither tag nor mark leave the tags and the mark as they were. */
  lemma {:induction false} UntouchedKeepsRecorder(acts: seq<Action>)
    ensures Untouched(acts) ==> LastMetadata(acts) == None && Marks(acts) == 0
    decreases |acts|
  {
    if acts != [] && Untouched(acts) {
      var init, last := acts[..|acts| - 1], acts[|acts| - 1];
      assert acts == init + [last];
      UntouchedAppend(init, [last]);
      ExportsBeforeChangeOfOne(last);
      ActionsAppendOne(init, last);
      UntouchedKeepsRecorder(init);
    }
  }

  /** The files the exports of `names`, ending as `outcomes`, create in `dir`. */
  function CreatedFiles(dir: string, names: seq<string>, outcomes: seq<ExportOutcome>): set<FilePath>
    requires |names| == |outcomes|
    decreases |names|
  {
    if names == [] then {}
    else
      CreatedFiles(dir, names[..|names| - 1], outcomes[..|outcomes| - 1])
      + (if outcomes[|outcomes| - 1].CreatedFile() then {FilePath(dir, names[|names| - 1])} else {})
  }

  /**
   * Carries out `acts` in order: SetMetadata(title, artist) with no cover
   * image, MarkSegmentStart at `now`, ExportMarkedSegment into `outputDir`,
   * and the appending of audit lines. `files` is the set of files present;
   * `calls` holds, per export, its calls into the encoder and the tag writer.
   */
  method Perform(
    rec: RingBufferRecorder, acts: seq<Action>, now: int, outputDir: string, files: set<FilePath>,
    encoder: (FilePath, seq<byte>, WaveFormat) -> EncodeResult,
    tagWriter: (FilePath, string, string, Option<seq<byte>>) -> bool)
    returns (recorded: seq<string>, outcomes: seq<ExportOutcome>, calls: seq<seq<Call>>, filesAfter: set<FilePath>)
    requires rec.Valid()
    modifies rec`title, rec`artist, rec`coverImage, rec`segmentStartPosition, rec`segmentStartTime, rec`MarkedAt
    ensures rec.Valid()
    ensures recorded == Recorded(acts)
    ensures ExportsAccounted(rec.buffer != null, outputDir, files, Exports(acts), outcomes, calls, filesAfter, encoder, tagWriter)
    ensures match LastMetadata(acts)
      case Some(m) => rec.title == m.0 && rec.artist == m.1 && rec.coverImage == None
      case None => rec.title == old(rec.title) && rec.artist == old(rec.artist) && rec.coverImage == old(rec.coverImage)
    ensures Marks(acts) > 0 ==> rec.segmentStartPosition == rec.writePosition && rec.MarkedAt == |rec.History|
    ensures Marks(acts) == 0 ==> rec.segmentStartPosition == old(rec.segmentStartPosition) && rec.MarkedAt == old(rec.MarkedAt)
    ensures rec.buffer != null ==> forall i :: 0 <= i < |ExportsBeforeChange(acts)| ==>
      ExportedFrom(calls[i], old(rec.MarkedBytes()), rec.waveFormat.value, old(rec.title), old(rec.artist), old(rec.coverImage))
  {
    ghost var initial := Marking(rec.title, rec.artist, rec.coverImage, rec.segmentStartPosition, rec.MarkedAt);
    ghost var pcm := if rec.buffer != null then rec.MarkedBytes() else [];
    recorded, outcomes, calls, filesAfter := [], [], [], files;
    for k := 0 to |acts|
      invariant Performed(rec, acts[..k], initial, pcm, outputDir, files, recorded, outcomes, calls, filesAfter, encoder, tagWriter)
    {
      recorded, outcomes, calls, filesAfter :=
        PerformStep(rec, acts, k, now, outputDir, files, encoder, tagWriter, initial, pcm, recorded, outcomes, calls, filesAfter);
    }
    assert acts[..|acts|] == acts;
  }

  /**
   * What carrying out `done` from the initial tags and mark `initial` has
   * left: a valid recorder, the audit lines, the exports accounted for, the
   * tags and mark as the actions set them, and every export before the first
   * tagging or marking an export of `pcm`, the segment marked at the start,
   * with the initial tags.
   */
  ghost predicate Performed(
    rec: RingBufferRecorder, done: seq<Action>, initial: Marking, pcm: seq<byte>, outputDir: string,
    files: set<FilePath>, recorded: seq<string>, outcomes: seq<ExportOutcome>, calls: seq<seq<Call>>,
    filesAfter: set<FilePath>, encoder: (FilePath, seq<byte>, WaveFormat) -> EncodeResult, tagWriter: (FilePath, string, string, Option<seq<byte>>) -> bool)
    reads rec, rec.buffer
  {
    && rec.Valid()
    && recorded == Recorded(done)
    && ExportsAccounted(rec.buffer != null, outputDir, files, Exports(done), outcomes, calls, filesAfter, encoder, tagWriter)
    && Carried(done, Marking(rec.title, rec.artist, rec.coverImage, rec.segmentStartPosition, rec.MarkedAt),
         initial, rec.writePosition, |rec.History|)
    && (rec.buffer != null ==>
          initial.start <= rec.buffer.Length && pcm == Segment(rec.buffer[..], initial.start, rec.writePosition))
    && (rec.buffer != null ==> forall i :: 0 <= i < |ExportsBeforeChange(done)| ==>
          ExportedFrom(calls[i], pcm, rec.waveFormat.value, initial.title, initial.artist, initial.cover))
  }

  /** The k-th action of `acts` carried out, after the first k. */
  method PerformStep(
    rec: RingBufferRecorder, acts: seq<Action>, k: nat, now: int, outputDir: string, files: set<FilePath>,
    encoder: (FilePath, seq<byte>, WaveFormat) -> EncodeResult,
    tagWriter: (FilePath, string, string, Option<seq<byte>>) -> bool,
    ghost initial: Marking, ghost pcm: seq<byte>,
    recorded: seq<string>, outcomes: seq<ExportOutcome>, calls: seq<seq<Call>>, filesAfter: set<FilePath>)
    returns (recorded': seq<string>, outcomes': seq<ExportOutcome>, calls': seq<seq<Call>>, filesAfter': set<FilePath>)
    requires k < |acts|
    requires Performed(rec, acts[..k], initial, pcm, outputDir, files, recorded, outcomes, calls, filesAfter, encoder, tagWriter)
    modifies rec`title, rec`artist, rec`coverImage, rec`segmentStartPosition, rec`segmentStartTime, rec`MarkedAt
    ensures Performed(rec, acts[..k + 1], initial, pcm, outputDir, files, recorded', outcomes', calls', filesAfter',
      encoder, tagWriter)
  {
    assert acts[..k + 1] == acts[..k] + [acts[k]];
    ActionsAppendOne(acts[..k], acts[k]);
    ghost var untouched := Untouched(acts[..k]);
    ghost var before := Marking(rec.title, rec.artist, rec.coverImage, rec.segmentStartPosition, rec.MarkedAt);
    assert untouched ==>
      && before.title == initial.title && before.artist == initial.artist && before.cover == initial.cover
      && (rec.buffer != null ==> rec.MarkedBytes() == pcm) by {
      UntouchedKeepsRecorder(acts[..k]);
    }
    var line, outcome, exportCalls, after := PerformAction(rec, acts[k], now, outputDir, filesAfter, encoder, tagWriter);
    ActionCarried(acts[..k], acts[k], before,
      Marking(rec.title, rec.artist, rec.coverImage, rec.segmentStartPosition, rec.MarkedAt),
      initial, rec.writePosition, |rec.History|);
    ActionAccounted(rec.buffer != null, outputDir, files, acts[..k], outcomes, calls, filesAfter,
      acts[k], outcome, exportCalls, after, encoder, tagWriter);
    if rec.buffer != null {
      ExportContentExtends(acts[..k], calls, acts[k], exportCalls, untouched,
        pcm, rec.waveFormat.value, initial.title, initial.artist, initial.cover);
    }
    recorded', outcomes', calls', filesAfter' := recorded + line, outcomes + outcome, calls + exportCalls, after;
  }

  /**
   * One action carried out on the recorder: its audit line, if any, and for
   * an Export the outcome, the calls and the files afterwards.
   */
  method PerformAction(
    rec: RingBufferRecorder, a: Action, now: int, outputDir: string, files: set<FilePath>,
    encoder: (FilePath, seq<byte>, WaveFormat) -> EncodeResult,
    tagWriter: (FilePath, string, string, Option<seq<byte>>) -> bool)
    returns (line: seq<string>, outcome: seq<ExportOutcome>, calls: seq<seq<Call>>, filesAfter: set<FilePath>)
    requires rec.Valid()
    modifies rec`title, rec`artist, rec`coverImage, rec`segmentStartPosition, rec`segmentStartTime, rec`MarkedAt
    ensures rec.Valid()
    ensures line == if a.AppendRecorded? then [a.line] else []
    ensures |outcome| == |calls| == if a.Export? then 1 else 0
    ensures !a.Export? ==> filesAfter == files
    ensures a.Export? ==>
      var target := FilePath(outputDir, a.filename);
      && (forall c :: c in calls[0] ==> c.path == target)
      && (outcome[0] == NoBuffer <==> rec.buffer == null)
      && (outcome[0] == SkippedExisting <==> rec.buffer != null && target in files)
      && filesAfter == (if outcome[0].CreatedFile() then files + {target} else files)
      && OutcomeFollowsCalls(outcome[0], calls[0], encoder, tagWriter)
      && (rec.buffer != null ==>
            ExportedFrom(calls[0], old(rec.MarkedBytes()), rec.waveFormat.value,
              old(rec.title), old(rec.artist), old(rec.coverImage)))
    ensures if a.SetMetadata? then rec.title == a.title && rec.artist == a.artist && rec.coverImage == None
      else rec.title == old(rec.title) && rec.artist == old(rec.artist) && rec.coverImage == old(rec.coverImage)
    ensures if a.MarkSegmentStart? then rec.segmentStartPosition == rec.writePosition && rec.MarkedAt == |rec.History|
      else rec.segmentStartPosition == old(rec.segmentStartPosition) && rec.MarkedAt == old(rec.MarkedAt)
  {
    line, outcome, calls, filesAfter := [], [], [], files;
    match a
    case SetMetadata(title, artist) =>
      rec.SetMetadata(title, artist, None);
    case MarkSegmentStart =>
      rec.MarkSegmentStart(now);
    case Export(filename) =>
      var o, c, after := rec.ExportMarkedSegment(filename, outputDir, files, encoder, tagWriter);
      outcome, calls, filesAfter := [o], [c], after;
    case AppendRecorded(l) =>
      line := [l];
  }

  /**
   * The calls of one export: at most an encoding of `pcm` in `format`, then
   * a tagging with `title`, `artist` and `cover`.
   */
  predicate ExportedFrom(
    calls: seq<Call>, pcm: seq<byte>, format: WaveFormat, title: string, artist: string, cover: Option<seq<byte>>)
  {
    && |calls| <= 2
    && (calls != [] ==> calls[0].Encode? && calls[0].pcm == pcm && calls[0].format == format)
    && (|calls| == 2 ==>
          calls[1].WriteTags? && calls[1].title == title && calls[1].artist == artist && calls[1].cover == cover)
  }

  /**
   * How an export's outcome follows from its calls and what the collaborators
   * returned: no calls exactly when there is no buffer or the file exists;
   * otherwise an encoding, followed by a tagging exactly when the encoder
   * succeeded, and the outcome is the encoder's failure or the tag writer's
   * verdict.
   */
  predicate OutcomeFollowsCalls(
    outcome: ExportOutcome, calls: seq<Call>,
    encoder: (FilePath, seq<byte>, WaveFormat) -> EncodeResult, tagWriter: (FilePath, string, string, Option<seq<byte>>) -> bool)
  {
    && (calls == [] <==> outcome in {NoBuffer, SkippedExisting})
    && (calls != [] ==>
          calls[0].Encode? && |calls| == (if encoder(calls[0].path, calls[0].pcm, calls[0].format) == Encoded then 2 else 1))
    && (|calls| == 1 ==>
          outcome == EncodingFailed(encoder(calls[0].path, calls[0].pcm, calls[0].format) == FailedAfterCreate))
    && (|calls| == 2 ==>
          && calls[1].WriteTags?
          && outcome == (if tagWriter(calls[1].path, calls[1].title, calls[1].artist, calls[1].cover)
                         then Exported else TaggingFailed))
  }

  /**
   * One more action keeps every export before the first tagging or marking
   * an export of the same segment and tags, given that the action, if it is
   * such an export, used them.
   */
  lemma ExportContentExtends(
    acts: seq<Action>, calls: seq<seq<Call>>, a: Action, exportCalls: seq<seq<Call>>,
    untouched: bool, pcm: seq<byte>, format: WaveFormat, title: string, artist: string, cover: Option<seq<byte>>)
    requires |calls| == |Exports(acts)| && |exportCalls| == (if a.Export? then 1 else 0)
    requires untouched == Untouched(acts)
    requires forall i :: 0 <= i < |ExportsBeforeChange(acts)| ==>
      ExportedFrom(calls[i], pcm, format, title, artist, cover)
    requires untouched && a.Export? ==> ExportedFrom(exportCalls[0], pcm, format, title, artist, cover)
    ensures |ExportsBeforeChange(acts + [a])| <= |calls + exportCalls|
    ensures forall i :: 0 <= i < |ExportsBeforeChange(acts + [a])| ==>
      ExportedFrom((calls + exportCalls)[i], pcm, format, title, artist, cover)
  {
    ActionsAppendOne(acts, a);
    ExportsBeforeChangeAppend(acts, [a]);
    ExportsBeforeChangeOfOne(a);
    if untouched {
      UntouchedExportsAll(acts);
    }
    forall i | 0 <= i < |ExportsBeforeChange(acts + [a])|
      ensures ExportedFrom((calls + exportCalls)[i], pcm, format, title, artist, cover)
    {
      if i < |ExportsBeforeChange(acts)| {
        assert (calls + exportCalls)[i] == calls[i];
      } else {
        assert (calls + exportCalls)[i] == exportCalls[0];
      }
    }
  }

  /** Every call of the i-th export goes to the file named by the i-th Export action. */
  ghost predicate ExportsNamed(dir: string, names: seq<string>, calls: seq<seq<Call>>)
    requires |names| == |calls|
    decreases |calls|
  {
    if calls == [] then true
    else
      && ExportsNamed(dir, names[..|names| - 1], calls[..|calls| - 1])
      && forall c :: c in calls[|calls| - 1] ==> c.path == FilePath(dir, names[|names| - 1])
  }

  /**
   * Each export reports NoBuffer exactly when there is no buffer, and
   * SkippedExisting exactly when its file is among those present before it:
   * the initial ones and those the earlier exports created.
   */
  ghost predicate OutcomesFollowFiles(
    hasBuffer: bool, dir: string, files: set<FilePath>, names: seq<string>, outcomes: seq<ExportOutcome>)
    requires |names| == |outcomes|
    decreases |outcomes|
  {
    if outcomes == [] then true
    else
      var earlier, earlierOutcomes := names[..|names| - 1], outcomes[..|outcomes| - 1];
      var last := outcomes[|outcomes| - 1];
      && OutcomesFollowFiles(hasBuffer, dir, files, earlier, earlierOutcomes)
      && (last == NoBuffer <==> !hasBuffer)
      && (last == SkippedExisting <==>
            hasBuffer && FilePath(dir, names[|names| - 1]) in files + CreatedFiles(dir, earlier, earlierOutcomes))
  }

  /**
   * The exports of `names` ended as `outcomes` with `calls`, starting from
   * the files `files` and leaving `filesAfter`: one outcome and one list of
   * calls per name, each call to the export's own file, each outcome
   * following from the files present before it and from what the encoder
   * and the tag writer reported, and the files afterwards the initial ones
   * plus those the exports created.
   */
  ghost predicate ExportsAccounted(
    hasBuffer: bool, dir: string, files: set<FilePath>, names: seq<string>, outcomes: seq<ExportOutcome>,
    calls: seq<seq<Call>>, filesAfter: set<FilePath>, encoder: (FilePath, seq<byte>, WaveFormat) -> EncodeResult, tagWriter: (FilePath, string, string, Option<seq<byte>>) -> bool)
  {
    && |names| == |outcomes| == |calls|
    && (forall i :: 0 <= i < |calls| ==> OutcomeFollowsCalls(outcomes[i], calls[i], encoder, tagWriter))
    && ExportsNamed(dir, names, calls)
    && OutcomesFollowFiles(hasBuffer, dir, files, names, outcomes)
    && filesAfter == files + CreatedFiles(dir, names, outcomes)
  }

  /** One more export, with the contract of ExportMarkedSegment, keeps the exports accounted for. */
  lemma ExportExtends(
    hasBuffer: bool, dir: string, files: set<FilePath>, names: seq<string>, outcomes: seq<ExportOutcome>,
    calls: seq<seq<Call>>, present: set<FilePath>, name: string, outcome: ExportOutcome, exportCalls: seq<Call>,
    after: set<FilePath>, encoder: (FilePath, seq<byte>, WaveFormat) -> EncodeResult, tagWriter: (FilePath, string, string, Option<seq<byte>>) -> bool)
    requires ExportsAccounted(hasBuffer, dir, files, names, outcomes, calls, present, encoder, tagWriter)
    requires OutcomeFollowsCalls(outcome, exportCalls, encoder, tagWriter)
    requires outcome == NoBuffer <==> !hasBuffer
    requires outcome == SkippedExisting <==> hasBuffer && FilePath(dir, name) in present
    requires forall c :: c in exportCalls ==> c.path == FilePath(dir, name)
    requires after == if outcome.CreatedFile() then present + {FilePath(dir, name)} else present
    ensures ExportsAccounted(hasBuffer, dir, files, names + [name], outcomes + [outcome], calls + [exportCalls], after,
      encoder, tagWriter)
  {
    assert (names + [name])[..|names|] == names;
    assert (outcomes + [outcome])[..|outcomes|] == outcomes;
    assert (calls + [exportCalls])[..|calls|] == calls;
  }

  /**
   * One pass of Main's loop with its effects: the pass over the loop
   * variables, then its calls into the recorder and its audit lines.
   */
  method MainPass(
    rec: RingBufferRecorder, before: State, r: Reading, outputDir: string, files: set<FilePath>,
    encoder: (FilePath, seq<byte>, WaveFormat) -> EncodeResult,
    tagWriter: (FilePath, string, string, Option<seq<byte>>) -> bool)
    returns (after: State, recorded: seq<string>, outcomes: seq<ExportOutcome>, calls: seq<seq<Call>>,
             filesAfter: set<FilePath>)
    requires rec.Valid()
    modifies rec`title, rec`artist, rec`coverImage, rec`segmentStartPosition, rec`segmentStartTime, rec`MarkedAt
    ensures rec.Valid()
    ensures after == Step(before, r).0
    ensures recorded == Recorded(Step(before, r).1) && |recorded| == |outcomes| == |calls| <= 1
    ensures |Exports(Step(before, r).1)| == |outcomes|
    ensures outcomes == [] ==> filesAfter == files
    ensures outcomes != [] ==>
      var target := FilePath(outputDir, Exports(Step(before, r).1)[0]);
      && (forall c :: c in calls[0] ==> c.path == target)
      && (outcomes[0] == NoBuffer <==> rec.buffer == null)
      && (outcomes[0] == SkippedExisting <==> rec.buffer != null && target in files)
      && filesAfter == (if outcomes[0].CreatedFile() then files + {target} else files)
      && OutcomeFollowsCalls(outcomes[0], calls[0], encoder, tagWriter)
      && (rec.buffer != null ==>
            ExportedFrom(calls[0], old(rec.MarkedBytes()), rec.waveFormat.value,
              old(rec.title), old(rec.artist), old(rec.coverImage)))
    ensures match LastMetadata(Step(before, r).1)
      case Some(m) => rec.title == m.0 && rec.artist == m.1 && rec.coverImage == None
      case None => rec.title == old(rec.title) && rec.artist == old(rec.artist) && rec.coverImage == old(rec.coverImage)
    ensures Marks(Step(before, r).1) > 0 ==> rec.segmentStartPosition == rec.writePosition && rec.MarkedAt == |rec.History|
    ensures Marks(Step(before, r).1) == 0 ==>
      rec.segmentStartPosition == old(rec.segmentStartPosition) && rec.MarkedAt == old(rec.MarkedAt)
  {
    var acts;
    after, acts := Pass(before, r.trackTime, r.artist, r.title, r.now, r.tracks);
    AtMostOneExportPerPass(before, r);
    ExportsPrecedeChanges(before, r);
    recorded, outcomes, calls, filesAfter := PerformPass(rec, acts, r.now, outputDir, files, encoder, tagWriter);
  }

  /**
   * The actions of one pass carried out: at most one export, logged, and
   * ahead of any tagging or marking, so it writes the segment and the tags
   * the recorder had when the pass began.
   */
  method PerformPass(
    rec: RingBufferRecorder, acts: seq<Action>, now: int, outputDir: string, files: set<FilePath>,
    encoder: (FilePath, seq<byte>, WaveFormat) -> EncodeResult,
    tagWriter: (FilePath, string, string, Option<seq<byte>>) -> bool)
    returns (recorded: seq<string>, outcomes: seq<ExportOutcome>, calls: seq<seq<Call>>, filesAfter: set<FilePath>)
    requires rec.Valid()
    requires |Exports(acts)| <= 1 && |Recorded(acts)| == |Exports(acts)| && ExportsBeforeChange(acts) == Exports(acts)
    modifies rec`title, rec`artist, rec`coverImage, rec`segmentStartPosition, rec`segmentStartTime, rec`MarkedAt
    ensures rec.Valid()
    ensures recorded == Recorded(acts) && |recorded| == |outcomes| == |calls| <= 1
    ensures |Exports(acts)| == |outcomes|
    ensures outcomes == [] ==> filesAfter == files
    ensures outcomes != [] ==>
      var target := FilePath(outputDir, Exports(acts)[0]);
      && (forall c :: c in calls[0] ==> c.path == target)
      && (outcomes[0] == NoBuffer <==> rec.buffer == null)
      && (outcomes[0] == SkippedExisting <==> rec.buffer != null && target in files)
      && filesAfter == (if outcomes[0].CreatedFile() then files + {target} else files)
      && OutcomeFollowsCalls(outcomes[0], calls[0], encoder, tagWriter)
      && (rec.buffer != null ==>
            ExportedFrom(calls[0], old(rec.MarkedBytes()), rec.waveFormat.value,
              old(rec.title), old(rec.artist), old(rec.coverImage)))
    ensures match LastMetadata(acts)
      case Some(m) => rec.title == m.0 && rec.artist == m.1 && rec.coverImage == None
      case None => rec.title == old(rec.title) && rec.artist == old(rec.artist) && rec.coverImage == old(rec.coverImage)
    ensures Marks(acts) > 0 ==> rec.segmentStartPosition == rec.writePosition && rec.MarkedAt == |rec.History|
    ensures Marks(acts) == 0 ==> rec.segmentStartPosition == old(rec.segmentStartPosition) && rec.MarkedAt == old(rec.MarkedAt)
  {
    recorded, outcomes, calls, filesAfter := Perform(rec, acts, now, outputDir, files, encoder, tagWriter);
    AtMostOneExportAccounted(rec.buffer != null, outputDir, files, Exports(acts), outcomes, calls, filesAfter,
      encoder, tagWriter);
    assert outcomes != [] ==> 0 < |ExportsBeforeChange(acts)|;
  }

  /** Carrying out one more action, with the contract of PerformAction, keeps the exports accounted for. */
  lemma ActionAccounted(
    hasBuffer: bool, dir: string, files: set<FilePath>, acts: seq<Action>, outcomes: seq<ExportOutcome>,
    calls: seq<seq<Call>>, present: set<FilePath>,
    a: Action, outcome: seq<ExportOutcome>, exportCalls: seq<seq<Call>>, after: set<FilePath>,
    encoder: (FilePath, seq<byte>, WaveFormat) -> EncodeResult, tagWriter: (FilePath, string, string, Option<seq<byte>>) -> bool)
    requires ExportsAccounted(hasBuffer, dir, files, Exports(acts), outcomes, calls, present, encoder, tagWriter)
    requires |outcome| == |exportCalls| == if a.Export? then 1 else 0
    requires !a.Export? ==> after == present
    requires a.Export? ==>
      var target := FilePath(dir, a.filename);
      && (forall c :: c in exportCalls[0] ==> c.path == target)
      && (outcome[0] == NoBuffer <==> !hasBuffer)
      && (outcome[0] == SkippedExisting <==> hasBuffer && target in present)
      && after == (if outcome[0].CreatedFile() then present + {target} else present)
      && OutcomeFollowsCalls(outcome[0], exportCalls[0], encoder, tagWriter)
    ensures ExportsAccounted(hasBuffer, dir, files, Exports(acts + [a]), outcomes + outcome, calls + exportCalls, after,
      encoder, tagWriter)
  {
    ActionsAppendOne(acts, a);
    if a.Export? {
      assert outcome == [outcome[0]] && exportCalls == [exportCalls[0]];
      ExportExtends(hasBuffer, dir, files, Exports(acts), outcomes, calls, present,
        a.filename, outcome[0], exportCalls[0], after, encoder, tagWriter);
    } else {
      assert outcome == [] && exportCalls == [];
      assert Exports(acts + [a]) == Exports(acts) + [] == Exports(acts);
      assert outcomes + outcome == outcomes && calls + exportCalls == calls;
    }
  }

  /** For a pass's single export, the accounting says what that one export did. */
  lemma AtMostOneExportAccounted(
    hasBuffer: bool, dir: string, files: set<FilePath>, names: seq<string>, outcomes: seq<ExportOutcome>,
    calls: seq<seq<Call>>, filesAfter: set<FilePath>, encoder: (FilePath, seq<byte>, WaveFormat) -> EncodeResult, tagWriter: (FilePath, string, string, Option<seq<byte>>) -> bool)
    requires ExportsAccounted(hasBuffer, dir, files, names, outcomes, calls, filesAfter, encoder, tagWriter) && |names| <= 1
    ensures outcomes == [] ==> filesAfter == files
    ensures outcomes != [] ==>
      var target := FilePath(dir, names[0]);
      && (forall c :: c in calls[0] ==> c.path == target)
      && (outcomes[0] == NoBuffer <==> !hasBuffer)
      && (outcomes[0] == SkippedExisting <==> hasBuffer && target in files)
      && filesAfter == (if outcomes[0].CreatedFile() then files + {target} else files)
      && OutcomeFollowsCalls(outcomes[0], calls[0], encoder, tagWriter)
  {
    if outcomes != [] {
      assert names[..0] == [] && outcomes[..0] == [] && calls[..0] == [];
      assert CreatedFiles(dir, names, outcomes)
        == CreatedFiles(dir, [], []) + (if outcomes[0].CreatedFile() then {FilePath(dir, names[0])} else {});
    }
  }
}
