/**
 * The ring-buffer recorder (RingBufferRecorder.cs): a fixed-capacity byte
 * array holding the last ten minutes of captured PCM audio, a write cursor
 * that wraps at the end of the array, a "filled" flag, a segment mark, the
 * metadata of the next export, and the export of the marked range.
 */
module Recorder {

  import opened Wrappers
  import opened FileNames

  newtype byte = b: int | 0 <= b < 256

  /** The largest value of a C# int. */
  const Int32Max: int := 0x7fff_ffff

  /** The buffer holds this many seconds of audio (BufferSeconds). */
  const BufferSeconds: nat := 60 * 10

  /** The capture device's audio format; the buffer size depends only on its byte rate. */
  datatype WaveFormat = WaveFormat(averageBytesPerSecond: nat)

  /** What the MP3 encoder collaborator reports for one export. */
  datatype EncodeResult =
    | Encoded
      // the file stream could not be opened: no file was created
    | FailedBeforeCreate
      // the file was created, then the encoder failed: a partial file stays
    | FailedAfterCreate

  /** A call the exporter makes into a collaborator. */
  datatype Call =
    | Encode(path: FilePath, pcm: seq<byte>, format: WaveFormat)
    | WriteTags(path: FilePath, title: string, artist: string, cover: Option<seq<byte>>)

  /** How an export ended. */
  datatype ExportOutcome =
    | NoBuffer
    | SkippedExisting
    | EncodingFailed(partialFileLeft: bool)
    | TaggingFailed
    | Exported
  {
    /** Whether the export leaves an audio file at the target path it created itself. */
    predicate CreatedFile() {
      Exported? || TaggingFailed? || (EncodingFailed? && partialFileLeft)
    }
  }

  // ---------------------------------------------------------------------
  // Wrap-aware ranges over the buffer contents

  /**
   * The bytes of the range [start, end) of `data`, read the way the export
   * reads it: one slice when start <= end, otherwise the tail from start
   * followed by the head up to end.
   */
  function Segment(data: seq<byte>, start: nat, end: nat): (r: seq<byte>)
    requires start <= |data| && end <= |data|
    ensures |r| == if start <= end then end - start else |data| - start + end
    ensures forall i :: 0 <= i < |r| ==> r[i] == data[(start + i) % |data|]
  {
    if start <= end then
      var r := data[start..end];
      forall i | 0 <= i < |r| ensures r[i] == data[(start + i) % |data|] {
        ModBelow(start + i, |data|);
      }
      r
    else
      var r := data[start..] + data[..end];
      forall i | 0 <= i < |r| ensures r[i] == data[(start + i) % |data|] {
        if i < |data| - start {
          ModBelow(start + i, |data|);
        } else {
          ModWrapOnce(start + i, |data|);
        }
      }
      r
  }

  /** The length of a range is its distance modulo the capacity; start == end is the empty range. */
  lemma SegmentLength(data: seq<byte>, start: nat, end: nat)
    requires start < |data| && end < |data|
    ensures |Segment(data, start, end)| == (end - start) % |data|
    ensures start == end ==> Segment(data, start, end) == []
  {
    var n := |data|;
    if start <= end {
      ModBelow(end - start, n);
    } else {
      ModNegative(end - start, n);
    }
  }

  /**
   * The buffer holds the stream `history` in the sense of the ring: every one
   * of the last |data| bytes of the stream sits at its offset modulo the
   * capacity.
   */
  ghost predicate HistoryStored(data: seq<byte>, history: seq<byte>)
    requires |data| > 0
  {
    forall j :: |history| - |data| <= j < |history| && 0 <= j ==> data[j % |data|] == history[j]
  }

  /**
   * Reading the range from the offset `from` of the stream to its end gives
   * back exactly the bytes written since then, provided fewer than |data|
   * bytes were written in between.
   */
  lemma {:induction false} SegmentRecoversHistory(data: seq<byte>, history: seq<byte>, from: nat)
    requires |data| > 0 && HistoryStored(data, history)
    requires from <= |history| < from + |data|
    ensures Segment(data, from % |data|, |history| % |data|) == history[from..]
  {
    var n := |data|;
    var s, e := from % n, |history| % n;
    var r := Segment(data, s, e);
    ModDistance(|history|, from, n);
    assert |r| == |history| - from;
    forall i | 0 <= i < |r| ensures r[i] == history[from + i] {
      ModAddLeft(from, i, n);
    }
  }

  // ---------------------------------------------------------------------
  // Arithmetic modulo the capacity

  lemma ModBelow(x: int, n: int)
    requires 0 <= x < n
    ensures x % n == x
  {
  }

  lemma ModWrapOnce(x: int, n: int)
    requires 0 < n <= x < 2 * n
    ensures x % n == x - n
  {
    ModUnique(x, n, 1, x - n);
  }

  lemma ModNegative(x: int, n: int)
    requires -n <= x < 0
    ensures x % n == x + n
  {
    ModUnique(x, n, -1, x + n);
  }

  /** The remainder is determined by any division of x by n with a remainder in [0, n). */
  lemma ModUnique(x: int, n: int, q: int, r: int)
    requires 0 <= r < n && x == q * n + r
    ensures x % n == r
  {
    var q', r' := x / n, x % n;
    assert x == q' * n + r';
    assert (q - q') * n == r' - r;
    if q - q' >= 1 {
      MulAtLeast(q - q', n);
    } else if q' - q >= 1 {
      assert (q' - q) * n == r - r';
      MulAtLeast(q' - q, n);
    }
  }

  lemma {:induction false} MulAtLeast(d: int, n: int)
    requires d >= 1 && n >= 0
    ensures d * n >= n
  {
    if d > 1 {
      MulAtLeast(d - 1, n);
      assert d * n == (d - 1) * n + n;
    }
  }

  /** Adding to a reduced offset reduces like adding to the offset itself. */
  lemma ModAddLeft(a: int, b: int, n: int)
    requires n > 0
    ensures (a % n + b) % n == (a + b) % n
  {
    var qa := a / n;
    var qs := (a % n + b) / n;
    var rs := (a % n + b) % n;
    assert a == qa * n + a % n;
    assert a % n + b == qs * n + rs;
    assert a + b == (qa + qs) * n + rs;
    ModUnique(a + b, n, qa + qs, rs);
  }

  /** The wrap-aware distance between two offsets less than n apart is their difference. */
  lemma ModDistance(a: int, b: int, n: int)
    requires n > 0 && b <= a < b + n
    ensures (if b % n <= a % n then a % n - b % n else n - b % n + a % n) == a - b
  {
    if b % n <= a % n {
      ModSub(a, b, n);
      ModBelow(a % n - b % n, n);
      ModBelow(a - b, n);
    } else {
      ModSub(a, b, n);
      ModNegative(a % n - b % n, n);
      ModBelow(a - b, n);
    }
  }

  /** The offset of a position relative to the cursor, taken modulo the capacity. */
  lemma ModSub(a: int, b: int, n: int)
    requires n > 0
    ensures (a % n - b % n) % n == (a - b) % n
  {
    var qa, qb := a / n, b / n;
    assert a == qa * n + a % n;
    assert b == qb * n + b % n;
    var d := a % n - b % n;
    var qd, rd := d / n, d % n;
    assert d == qd * n + rd;
    assert a - b == (qa - qb + qd) * n + rd;
    ModUnique(a - b, n, qa - qb + qd, rd);
  }

  // ---------------------------------------------------------------------
  // Array.Copy

  /** Array.Copy(src, srcIndex, dst, dstIndex, length) into the buffer. */
  method ArrayCopy(src: seq<byte>, srcIndex: nat, dst: array<byte>, dstIndex: nat, length: nat)
    requires srcIndex + length <= |src| && dstIndex + length <= dst.Length
    modifies dst
    ensures forall p :: dstIndex <= p < dstIndex + length ==> dst[p] == src[srcIndex + p - dstIndex]
    ensures forall p :: 0 <= p < dst.Length && !(dstIndex <= p < dstIndex + length) ==> dst[p] == old(dst[p])
  {
    forall i | 0 <= i < length {
      dst[dstIndex + i] := src[srcIndex + i];
    }
  }

  // ---------------------------------------------------------------------
  // The cursor arithmetic of OnDataAvailable

  /**
   * The cursor after OnDataAvailable writes an n-byte chunk at cursor w of a
   * `size`-byte array, as its two branches compute it, or None when the
   * second Array.Copy would run past the end of the array and throw.
   */
  function WrittenCursor(size: nat, w: nat, n: nat): Option<int>
    requires w < size
  {
    var spaceAtEnd := size - w;
    if n <= spaceAtEnd then Some(if w + n == size then 0 else w + n)
    else if n - spaceAtEnd <= size then Some(n - spaceAtEnd)
    else None
  }

  /** Below the longest chunk both copies accept, the cursor moves to (w + n) mod size. */
  lemma WrittenCursorWraps(size: nat, w: nat, n: nat)
    requires w < size && n < size + (size - w)
    ensures WrittenCursor(size, w, n) == Some((w + n) % size)
  {
    if w + n < size {
      ModBelow(w + n, size);
    } else if w + n == size {
      ModUnique(w + n, size, 1, 0);
    } else {
      ModWrapOnce(w + n, size);
    }
  }

  /**
   * The longest chunk both copies accept, size + (size - w) bytes, leaves the
   * cursor at size, one past the last index of the array; any longer chunk
   * makes the second copy throw.
   */
  lemma WrittenCursorAtLongestChunk(size: nat, w: nat)
    requires w < size
    ensures WrittenCursor(size, w, size + (size - w)) == Some(size)
    ensures forall n :: n > size + (size - w) ==> WrittenCursor(size, w, n) == None
  {
  }

  // ---------------------------------------------------------------------
  // The recorder

  class RingBufferRecorder {
    /** _buffer: absent when the capture device could not be opened. */
    var buffer: array?<byte>
    /** _waveFormat */
    var waveFormat: Option<WaveFormat>
    /** _bufferSize */
    var bufferSize: nat
    /** _writePosition: where the next captured byte goes. */
    var writePosition: nat
    /** _bufferFilled: the cursor has wrapped at least once. */
    var bufferFilled: bool
    /** _title, _artist, _coverImageBytes: the tags of the next export. */
    var title: string
    var artist: string
    var coverImage: Option<seq<byte>>
    /** _segmentStartPosition, _segmentStartTime: the segment mark. */
    var segmentStartPosition: nat
    var segmentStartTime: int

    /** Every byte captured since construction, oldest first. */
    ghost var History: seq<byte>
    /** |History| at the moment of the last mark. */
    ghost var MarkedAt: nat

    ghost predicate Valid()
      reads this, buffer
    {
      && (buffer == null <==> waveFormat.None?)
      && (buffer == null ==>
            && History == [] && MarkedAt == 0
            && writePosition == 0 && segmentStartPosition == 0 && !bufferFilled)
      && (buffer != null ==>
            && bufferSize == buffer.Length > 0
            && writePosition < bufferSize && segmentStartPosition < bufferSize
            && writePosition == |History| % bufferSize
            && bufferFilled == (|History| >= bufferSize)
            && MarkedAt <= |History|
            && segmentStartPosition == MarkedAt % bufferSize
            && HistoryStored(buffer[..], History))
    }

    /**
     * The constructor: `device` is the format of the opened loopback device,
     * or None when opening the device failed and the exception left the
     * buffer unallocated.
     */
    constructor (device: Option<WaveFormat>)
      requires device.Some? ==> 0 < device.value.averageBytesPerSecond
      requires device.Some? ==> device.value.averageBytesPerSecond * BufferSeconds <= Int32Max
      ensures Valid()
      ensures waveFormat == device
      ensures device.Some? ==> buffer != null && fresh(buffer)
      ensures bufferSize == if device.Some? then device.value.averageBytesPerSecond * BufferSeconds else 0
      ensures writePosition == 0 && !bufferFilled && segmentStartPosition == 0
      ensures title == "" && artist == "" && coverImage == None
      ensures History == [] && MarkedAt == 0
    {
      title, artist, coverImage := "", "", None;
      segmentStartPosition, segmentStartTime := 0, 0;
      History, MarkedAt := [], 0;
      writePosition, bufferFilled := 0, false;
      match device
      case None =>
        buffer, waveFormat, bufferSize := null, None, 0;
      case Some(format) =>
        var size := format.averageBytesPerSecond * BufferSeconds;
        MulAtLeast(BufferSeconds, format.averageBytesPerSecond);
        var storage := new byte[size];
        buffer, waveFormat, bufferSize := storage, device, size;
        ModBelow(0, size);
    }

    /**
     * OnDataAvailable: copies a captured chunk in at the cursor, in two
     * pieces when it runs past the end of the array. Both copies stay inside
     * the array for chunks of up to bufferSize + (bufferSize - writePosition)
     * bytes; the longest of those is excluded, since it leaves the cursor at
     * bufferSize (WrittenCursor).
     */
    method OnDataAvailable(chunk: seq<byte>)
      requires Valid() && buffer != null
      requires |chunk| < bufferSize + (bufferSize - writePosition)
      modifies this`writePosition, this`bufferFilled, this`History, buffer
      ensures Valid()
      ensures Some(writePosition as int) == WrittenCursor(bufferSize, old(writePosition), |chunk|)
      ensures writePosition == (old(writePosition) + |chunk|) % bufferSize
      ensures bufferFilled == (old(bufferFilled) || old(writePosition) + |chunk| >= bufferSize)
      ensures Placed(old(buffer[..]), buffer[..], chunk, old(writePosition))
      ensures History == old(History) + chunk
    {
      ghost var before := buffer[..];
      ghost var w0 := writePosition;
      writePosition, bufferFilled := RingWrite(buffer, writePosition, bufferFilled, chunk);
      RingWriteKeepsInvariant(before, buffer[..], History, chunk, w0, old(bufferFilled), writePosition, bufferFilled);
      History := History + chunk;
    }

    /**
     * MarkSegmentStart: the segment to export next begins at the cursor;
     * `now` is the clock reading the source stores with it.
     */
    method MarkSegmentStart(now: int)
      requires Valid()
      modifies this`segmentStartPosition, this`segmentStartTime, this`MarkedAt
      ensures Valid()
      ensures segmentStartPosition == writePosition && segmentStartTime == now
      ensures MarkedAt == |History|
    {
      segmentStartPosition := writePosition;
      segmentStartTime := now;
      MarkedAt := |History|;
    }

    /** SetMetadata: the tags written by the next export. */
    method SetMetadata(newTitle: string, newArtist: string, cover: Option<seq<byte>>)
      requires Valid()
      modifies this`title, this`artist, this`coverImage
      ensures Valid()
      ensures title == newTitle && artist == newArtist && coverImage == cover
    {
      title, artist, coverImage := newTitle, newArtist, cover;
    }

    /** The bytes the export hands to the encoder: the marked-to-current range. */
    function MarkedBytes(): (pcm: seq<byte>)
      reads this`buffer, this`segmentStartPosition, this`writePosition, buffer
      requires buffer != null && segmentStartPosition <= buffer.Length && writePosition <= buffer.Length
    {
      Segment(buffer[..], segmentStartPosition, writePosition)
    }

    /**
     * ExportMarkedSegment(filename): encodes the marked-to-current range into
     * `filename` inside the configured tracks directory, then tags the file.
     * `existing` is the set of files present, `encoder` and `tagWriter` the
     * two collaborators; `filesAfter` is the set of files present afterwards.
     */
    method ExportMarkedSegment(
      filename: string, tracksDirectory: string, existing: set<FilePath>,
      encoder: (FilePath, seq<byte>, WaveFormat) -> EncodeResult,
      tagWriter: (FilePath, string, string, Option<seq<byte>>) -> bool)
      returns (outcome: ExportOutcome, calls: seq<Call>, filesAfter: set<FilePath>)
      requires Valid()
      ensures outcome == NoBuffer <==> buffer == null
      ensures outcome == SkippedExisting <==> buffer != null && FilePath(tracksDirectory, filename) in existing
      ensures calls == [] <==> outcome in {NoBuffer, SkippedExisting}
      ensures forall c :: c in calls ==> c.path == FilePath(tracksDirectory, filename)
      ensures calls != [] ==>
        (buffer != null && calls[0] == Encode(FilePath(tracksDirectory, filename), MarkedBytes(), waveFormat.value))
      ensures calls != [] ==> |calls| == (if encoder(calls[0].path, calls[0].pcm, calls[0].format) == Encoded then 2 else 1)
      ensures |calls| == 1 ==>
        outcome == EncodingFailed(encoder(calls[0].path, calls[0].pcm, calls[0].format) == FailedAfterCreate)
      ensures |calls| == 2 ==>
        && calls[1] == WriteTags(FilePath(tracksDirectory, filename), title, artist, coverImage)
        && outcome == (if tagWriter(calls[1].path, title, artist, coverImage) then Exported else TaggingFailed)
      ensures buffer != null && MarkedAt + bufferSize > |History| && calls != [] ==>
        calls[0].pcm == History[MarkedAt..]
      ensures filesAfter == if outcome.CreatedFile() then existing + {FilePath(tracksDirectory, filename)} else existing
    {
      filesAfter := existing;
      if buffer == null || waveFormat.None? {
        return NoBuffer, [], filesAfter;
      }
      var path := FilePath(tracksDirectory, filename);
      if path in existing {
        return SkippedExisting, [], filesAfter;
      }
      var start := segmentStartPosition;
      var end := writePosition;
      var pcm: seq<byte>;
      if start <= end {
        pcm := buffer[start..end];
      } else {
        pcm := buffer[start..bufferSize] + buffer[0..end];
      }
      assert pcm == MarkedBytes();
      if MarkedAt + bufferSize > |History| {
        SegmentRecoversHistory(buffer[..], History, MarkedAt);
      }
      calls := [Encode(path, pcm, waveFormat.value)];
      var encoded := encoder(path, pcm, waveFormat.value);
      if encoded != Encoded {
        if encoded == FailedAfterCreate {
          filesAfter := existing + {path};
        }
        return EncodingFailed(encoded == FailedAfterCreate), calls, filesAfter;
      }
      filesAfter := existing + {path};
      calls := calls + [WriteTags(path, title, artist, coverImage)];
      var tagged := tagWriter(path, title, artist, coverImage);
      outcome := if tagged then Exported else TaggingFailed;
    }
  }

  /**
   * The body of OnDataAvailable over the array, the cursor `w` and the flag
   * `filled`: one Array.Copy when the chunk fits before the end of the
   * array, with the cursor wrapping to 0 when it reaches the end; otherwise
   * the part up to the end, then the rest from index 0.
   */
  method RingWrite(buffer: array<byte>, w: nat, filled: bool, chunk: seq<byte>) returns (w1: nat, filled1: bool)
    requires w < buffer.Length && |chunk| < buffer.Length + (buffer.Length - w)
    modifies buffer
    ensures Placed(old(buffer[..]), buffer[..], chunk, w)
    ensures Some(w1 as int) == WrittenCursor(buffer.Length, w, |chunk|)
    ensures w1 == (w + |chunk|) % buffer.Length
    ensures filled1 == (filled || w + |chunk| >= buffer.Length)
  {
    ghost var before := buffer[..];
    var n := |chunk|;
    var spaceAtEnd := buffer.Length - w;
    w1, filled1 := w, filled;
    if n <= spaceAtEnd {
      ArrayCopy(chunk, 0, buffer, w1, n);
      OneCopyPlacesChunk(before, buffer[..], chunk, w);
      w1 := w1 + n;
      if w1 == buffer.Length {
        w1 := 0;
        filled1 := true;
      }
    } else {
      ArrayCopy(chunk, 0, buffer, w1, spaceAtEnd);
      ghost var middle := buffer[..];
      ArrayCopy(chunk, spaceAtEnd, buffer, 0, n - spaceAtEnd);
      TwoCopiesPlaceChunk(before, middle, buffer[..], chunk, w);
      w1 := n - spaceAtEnd;
      filled1 := true;
    }
    WrittenCursorWraps(buffer.Length, w, n);
  }

  /** The chunks of `chunks`, one after the other. */
  function Concat(chunks: seq<seq<byte>>): seq<byte>
    decreases |chunks|
  {
    if chunks == [] then [] else Concat(chunks[..|chunks| - 1]) + chunks[|chunks| - 1]
  }

  /** No chunk is longer than all of them together. */
  lemma {:induction false} ChunkWithinConcat(chunks: seq<seq<byte>>, i: nat)
    requires i < |chunks|
    ensures |chunks[i]| <= |Concat(chunks)|
    decreases |chunks|
  {
    var earlier := chunks[..|chunks| - 1];
    if i < |earlier| {
      ChunkWithinConcat(earlier, i);
      assert earlier[i] == chunks[i];
    }
  }

  /** The device delivering `chunks` one after the other, each through OnDataAvailable. */
  method DeliverChunks(rec: RingBufferRecorder, chunks: seq<seq<byte>>)
    requires rec.Valid() && rec.buffer != null
    requires forall i :: 0 <= i < |chunks| ==> |chunks[i]| <= rec.bufferSize
    modifies rec`writePosition, rec`bufferFilled, rec`History, rec.buffer
    ensures rec.Valid()
    ensures rec.History == old(rec.History) + Concat(chunks)
  {
    for k := 0 to |chunks|
      invariant rec.Valid()
      invariant rec.History == old(rec.History) + Concat(chunks[..k])
    {
      assert chunks[..k + 1][..k] == chunks[..k];
      assert rec.writePosition < rec.bufferSize;
      rec.OnDataAvailable(chunks[k]);
    }
    assert chunks[..|chunks|] == chunks;
  }

  /**
   * One recorded track as the recorder sees it: the mark, then every chunk
   * the device delivers, then the export. As long as the chunks total fewer
   * bytes than the buffer holds, the encoder receives exactly their
   * concatenation, in order.
   */
  method RecordSegment(
    rec: RingBufferRecorder, now: int, chunks: seq<seq<byte>>,
    filename: string, tracksDirectory: string, existing: set<FilePath>,
    encoder: (FilePath, seq<byte>, WaveFormat) -> EncodeResult,
    tagWriter: (FilePath, string, string, Option<seq<byte>>) -> bool)
    returns (outcome: ExportOutcome, calls: seq<Call>, filesAfter: set<FilePath>)
    requires rec.Valid() && rec.buffer != null
    requires |Concat(chunks)| < rec.bufferSize
    modifies rec, rec.buffer
    ensures outcome == SkippedExisting <==> FilePath(tracksDirectory, filename) in existing
    ensures FilePath(tracksDirectory, filename) !in existing ==>
      calls != [] && calls[0] == Encode(FilePath(tracksDirectory, filename), Concat(chunks), old(rec.waveFormat).value)
  {
    rec.MarkSegmentStart(now);
    ghost var start := rec.History;
    forall i | 0 <= i < |chunks|
      ensures |chunks[i]| <= rec.bufferSize
    {
      ChunkWithinConcat(chunks, i);
    }
    DeliverChunks(rec, chunks);
    outcome, calls, filesAfter := rec.ExportMarkedSegment(filename, tracksDirectory, existing, encoder, tagWriter);
    assert (start + Concat(chunks))[|start|..] == Concat(chunks);
  }

  /**
   * `after` is `before` with `chunk` written at the ring offsets
   * (w0 + i) mod |after|, where a later byte of the chunk wins over an earlier
   * one at the same offset (so the last |after| bytes are the ones kept), and
   * every position at ring distance of at least |chunk| from w0 untouched.
   */
  ghost predicate Placed(before: seq<byte>, after: seq<byte>, chunk: seq<byte>, w0: nat)
    requires |before| == |after| > 0
  {
    && (forall i :: 0 <= i < |chunk| && |chunk| - |after| <= i ==> after[(w0 + i) % |after|] == chunk[i])
    && (forall p :: 0 <= p < |after| && (p - w0) % |after| >= |chunk| ==> after[p] == before[p])
  }

  /**
   * A chunk that fits before the end of the array lands at offsets
   * (w0 + i) mod size; a position at distance (mod size) of at least the
   * chunk length from w0 is untouched.
   */
  lemma OneCopyPlacesChunk(before: seq<byte>, after: seq<byte>, chunk: seq<byte>, w0: nat)
    requires |before| == |after| > 0 && w0 + |chunk| <= |after|
    requires forall p :: w0 <= p < w0 + |chunk| ==> after[p] == chunk[p - w0]
    requires forall p :: 0 <= p < |after| && !(w0 <= p < w0 + |chunk|) ==> after[p] == before[p]
    ensures Placed(before, after, chunk, w0)
  {
    var n := |after|;
    forall i | 0 <= i < |chunk| && |chunk| - n <= i ensures after[(w0 + i) % n] == chunk[i] {
      ModBelow(w0 + i, n);
    }
    forall p | 0 <= p < n && (p - w0) % n >= |chunk| ensures after[p] == before[p] {
      if p >= w0 {
        ModBelow(p - w0, n);
      } else {
        ModNegative(p - w0, n);
      }
    }
  }

  /**
   * A chunk that runs past the end of the array, copied as its first
   * size - w0 bytes at w0 and the rest at 0, lands at offsets
   * (w0 + i) mod size as well. A chunk longer than the array overwrites its
   * own first bytes with its last ones.
   */
  lemma TwoCopiesPlaceChunk(before: seq<byte>, middle: seq<byte>, after: seq<byte>, chunk: seq<byte>, w0: nat)
    requires |before| == |middle| == |after| && w0 < |after| < w0 + |chunk| < 2 * |after|
    requires forall p :: w0 <= p < |after| ==> middle[p] == chunk[p - w0]
    requires forall p :: 0 <= p < w0 ==> middle[p] == before[p]
    requires forall p :: 0 <= p < |chunk| - (|after| - w0) ==> after[p] == chunk[|after| - w0 + p]
    requires forall p :: |chunk| - (|after| - w0) <= p < |after| ==> after[p] == middle[p]
    ensures Placed(before, after, chunk, w0)
  {
    var n := |after|;
    forall i | 0 <= i < |chunk| && |chunk| - n <= i ensures after[(w0 + i) % n] == chunk[i] {
      if i < n - w0 {
        ModBelow(w0 + i, n);
      } else {
        ModWrapOnce(w0 + i, n);
      }
    }
    forall p | 0 <= p < n && (p - w0) % n >= |chunk| ensures after[p] == before[p] {
      if p >= w0 {
        ModBelow(p - w0, n);
      } else {
        ModNegative(p - w0, n);
      }
    }
  }

  /** A write at the cursor keeps the cursor and the filled flag in step with the captured history. */
  lemma RingWriteKeepsInvariant(
    before: seq<byte>, after: seq<byte>, history: seq<byte>, chunk: seq<byte>,
    w0: nat, filled0: bool, w1: nat, filled1: bool)
    requires |before| == |after| > 0
    requires HistoryStored(before, history) && w0 == |history| % |after| && filled0 == (|history| >= |after|)
    requires Placed(before, after, chunk, w0)
    requires w1 == (w0 + |chunk|) % |after| && filled1 == (filled0 || w0 + |chunk| >= |after|)
    ensures HistoryStored(after, history + chunk)
    ensures w1 == |history + chunk| % |after|
    ensures filled1 == (|history + chunk| >= |after|)
  {
    RingWriteKeepsHistory(before, after, history, chunk, w0);
    ModAddLeft(|history|, |chunk|, |after|);
    if |history| < |after| {
      ModBelow(|history|, |after|);
    }
  }

  /**
   * A write of `chunk` at the cursor |history| mod n that puts every byte at
   * its offset and leaves every other position alone keeps the ring holding
   * the extended stream.
   */
  lemma RingWriteKeepsHistory(before: seq<byte>, after: seq<byte>, history: seq<byte>, chunk: seq<byte>, w0: nat)
    requires |before| == |after| > 0
    requires HistoryStored(before, history) && w0 == |history| % |after|
    requires Placed(before, after, chunk, w0)
    ensures HistoryStored(after, history + chunk)
  {
    var n, h := |after|, history + chunk;
    forall j | |h| - n <= j < |h| && 0 <= j ensures after[j % n] == h[j] {
      if j >= |history| {
        ModAddLeft(|history|, j - |history|, n);
      } else {
        ModSub(j, |history|, n);
        ModNegative(j - |history|, n);
        assert 0 <= j % n < n;
      }
    }
  }
}
