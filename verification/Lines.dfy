/** Splitting a child's output on CR or LF as it arrives (src/daemon/progress.rs, `read_progress_lines`). */
module Lines {
  import opened Common

  const CR: byte := 0x0d
  const LF: byte := 0x0a

  predicate IsBreak(b: byte) {
    b == CR || b == LF
  }

  /** One result of reading the pipe: an empty chunk is the end of input. */
  datatype ReadResult = Chunk(bytes: seq<byte>) | Failed

  /** The bytes that arrive before the pipe ends or fails. */
  function Arrived(input: seq<ReadResult>): seq<byte> {
    if input == [] || input[0].Failed? || input[0].bytes == [] then []
    else input[0].bytes + Arrived(input[1..])
  }

  /** The index of the first break, or the length. */
  function RunLength(bytes: seq<byte>): (n: nat)
    ensures n <= |bytes|
  {
    if bytes == [] || IsBreak(bytes[0]) then 0 else 1 + RunLength(bytes[1..])
  }

  /** The non-empty maximal runs free of CR and LF, in order. */
  function Segments(bytes: seq<byte>): seq<seq<byte>>
    decreases |bytes|
  {
    if bytes == [] then []
    else
      var n := RunLength(bytes);
      if n == 0 then Segments(bytes[1..]) else [bytes[..n]] + Segments(bytes[n..])
  }

  /** `bytes[i..j]` is a maximal non-empty run with neither a carriage return nor a line feed. */
  ghost predicate MaximalRun(bytes: seq<byte>, i: int, j: int) {
    && 0 <= i < j <= |bytes|
    && (forall k | i <= k < j :: bytes[k] != 0x0d && bytes[k] != 0x0a)
    && (i == 0 || bytes[i - 1] == 0x0d || bytes[i - 1] == 0x0a)
    && (j == |bytes| || bytes[j] == 0x0d || bytes[j] == 0x0a)
  }

  /** What `String::from_utf8_lossy` guarantees: no line vanishes and no newline appears. */
  ghost predicate KeepsLines(lossy: seq<byte> -> string) {
    forall b: seq<byte> :: (b != [] ==> lossy(b) != "") && (LF !in b ==> '\n' !in lossy(b))
  }

  function Decoded(lossy: seq<byte> -> string, segments: seq<seq<byte>>): seq<string> {
    seq(|segments|, i requires 0 <= i < |segments| => lossy(segments[i]))
  }

  /** Lines with a newline between each two. */
  function Join(lines: seq<string>): string {
    if lines == [] then "" else if |lines| == 1 then lines[0] else lines[0] + "\n" + Join(lines[1..])
  }

  function SplitLines(text: string): seq<string>
    decreases |text|
  {
    var n := LineLength(text);
    if n == |text| then [text] else [text[..n]] + SplitLines(text[n + 1..])
  }

  function LineLength(text: string): (n: nat)
    ensures n <= |text|
  {
    if text == "" || text[0] == '\n' then 0 else 1 + LineLength(text[1..])
  }

  // ----- the scan is the segmentation

  /** Segments of `pending` (break-free so far) followed by `rest`. */
  lemma {:induction false} RunLengthAppend(run: seq<byte>, rest: seq<byte>)
    requires forall k | 0 <= k < |run| :: !IsBreak(run[k])
    ensures RunLength(run + rest) == |run| + RunLength(rest)
  {
    if run == [] {
      assert run + rest == rest;
    } else {
      assert (run + rest)[1..] == run[1..] + rest;
      RunLengthAppend(run[1..], rest);
    }
  }

  lemma SegmentsAtBreak(pending: seq<byte>, b: byte, rest: seq<byte>)
    requires forall k | 0 <= k < |pending| :: !IsBreak(pending[k])
    requires IsBreak(b)
    ensures Segments(pending + ([b] + rest)) == (if pending == [] then [] else [pending]) + Segments(rest)
  {
    var all := pending + ([b] + rest);
    assert ([b] + rest)[0] == b && ([b] + rest)[1..] == rest;
    RunLengthAppend(pending, [b] + rest);
    assert Segments([b] + rest) == Segments(rest);
    if pending != [] {
      assert all[..|pending|] == pending && all[|pending|..] == [b] + rest;
    } else {
      assert all == [b] + rest;
    }
  }

  lemma SegmentsAtEnd(pending: seq<byte>)
    requires forall k | 0 <= k < |pending| :: !IsBreak(pending[k])
    ensures Segments(pending) == if pending == [] then [] else [pending]
  {
    RunLengthAppend(pending, []);
    assert pending + [] == pending;
    if pending != [] {
      assert pending[..|pending|] == pending && pending[|pending|..] == [];
    }
  }

  lemma {:induction false} JoinAppend(lines: seq<string>, line: string)
    requires forall i | 0 <= i < |lines| :: lines[i] != ""
    ensures Join(lines + [line]) == (if Join(lines) == "" then line else Join(lines) + "\n" + line)
    ensures lines != [] ==> Join(lines) != ""
  {
    if |lines| == 1 {
      assert (lines + [line])[1..] == [line];
    } else if |lines| > 1 {
      assert (lines + [line])[1..] == lines[1..] + [line];
      JoinAppend(lines[1..], line);
      assert lines[0] + "\n" + (Join(lines[1..]) + "\n" + line) == lines[0] + "\n" + Join(lines[1..]) + "\n" + line;
    } else {
      assert lines + [line] == [line];
    }
  }

  lemma DecodedAppend(lossy: seq<byte> -> string, segments: seq<seq<byte>>, segment: seq<byte>)
    ensures Decoded(lossy, segments + [segment]) == Decoded(lossy, segments) + [lossy(segment)]
  {
  }

  /** The reader: `on_line`'s calls, in order, the text it captured and the unfinished segment. */
  class Reader {
    var reported: seq<string>
    var captured: string
    var pending: seq<byte>
    ghost var flushed: seq<seq<byte>>

    ghost predicate Valid(lossy: seq<byte> -> string)
      reads this
    {
      && KeepsLines(lossy)
      && (forall i | 0 <= i < |flushed| :: flushed[i] != [])
      && (forall k | 0 <= k < |pending| :: !IsBreak(pending[k]))
      && reported == Decoded(lossy, flushed) && captured == Join(reported)
    }

    /** The segments of everything read so far, were `left` all that is still to come. */
    ghost function Outlook(left: seq<byte>): seq<seq<byte>>
      reads this
    {
      flushed + Segments(pending + left)
    }

    constructor (lossy: seq<byte> -> string)
      requires KeepsLines(lossy)
      ensures Valid(lossy) && flushed == [] && pending == []
    {
      reported, captured, pending, flushed := [], "", [], [];
    }

    method Flush(lossy: seq<byte> -> string)
      requires Valid(lossy)
      modifies this
      ensures Valid(lossy) && pending == []
      ensures flushed == old(flushed) + (if old(pending) == [] then [] else [old(pending)])
    {
      if pending == [] {
        return;
      }
      var line := lossy(pending);
      DecodedAppend(lossy, flushed, pending);
      JoinAppend(reported, line);
      reported := reported + [line];
      if captured != "" {
        captured := captured + "\n";
      }
      captured := captured + line;
      flushed := flushed + [pending];
      pending := [];
    }

    method Push(b: byte, lossy: seq<byte> -> string, ghost rest: seq<byte>)
      requires Valid(lossy)
      modifies this
      ensures Valid(lossy) && Outlook(rest) == old(Outlook([b] + rest))
    {
      if IsBreak(b) {
        ghost var closed := if pending == [] then [] else [pending];
        SegmentsAtBreak(pending, b, rest);
        Associate(flushed, closed, Segments(rest));
        Flush(lossy);
        assert pending + rest == rest;
      } else {
        Associate(pending, [b], rest);
        pending := pending + [b];
      }
    }

    method PushAll(buf: seq<byte>, lossy: seq<byte> -> string, ghost next: seq<byte>)
      requires Valid(lossy)
      modifies this
      ensures Valid(lossy) && Outlook(next) == old(Outlook(buf + next))
    {
      ghost var goal := Outlook(buf + next);
      ghost var left := buf + next;
      for i := 0 to |buf|
        invariant Valid(lossy) && left == buf[i..] + next && Outlook(left) == goal
      {
        ghost var rest := buf[i + 1..] + next;
        assert left == [buf[i]] + rest;
        Push(buf[i], lossy, rest);
        left := rest;
      }
      assert left == next;
    }
  }

  /**
   However the input is cut into reads, `on_line` gets the segments of all that
   arrived, and the captured text is their newline-join.
   */
  method ReadProgressLines(input: seq<ReadResult>, lossy: seq<byte> -> string)
    returns (reported: seq<string>, captured: string)
    requires KeepsLines(lossy)
    ensures reported == Decoded(lossy, Segments(Arrived(input)))
    ensures captured == Join(reported)
  {
    var reader := new Reader(lossy);
    var r := 0;
    ghost var left := Arrived(input);
    assert reader.pending + left == left;
    while r < |input| && input[r].Chunk? && input[r].bytes != []
      invariant 0 <= r <= |input| && fresh(reader)
      invariant left == Arrived(input[r..])
      invariant reader.Valid(lossy) && reader.Outlook(left) == Segments(Arrived(input))
    {
      ghost var next := Arrived(input[r + 1..]);
      assert input[r..][1..] == input[r + 1..];
      reader.PushAll(input[r].bytes, lossy, next);
      left := next;
      r := r + 1;
    }
    assert reader.pending + left == reader.pending;
    SegmentsAtEnd(reader.pending);
    reader.Flush(lossy);
    return reader.reported, reader.captured;
  }

  // ----- what arrives, and what the segments are

  function Chunks(parts: seq<seq<byte>>): seq<ReadResult> {
    seq(|parts|, i requires 0 <= i < |parts| => Chunk(parts[i]))
  }

  /** All that was read up to the first failure or empty read arrives, and nothing behind it does. */
  lemma {:induction false} ArrivedUpToEnd(parts: seq<seq<byte>>, behind: seq<ReadResult>)
    requires forall i | 0 <= i < |parts| :: parts[i] != []
    requires behind == [] || behind[0] == Failed || behind[0] == Chunk([])
    ensures Arrived(Chunks(parts) + behind) == Flat(parts)
  {
    var input := Chunks(parts) + behind;
    if parts == [] {
      assert input == behind;
    } else {
      assert input[1..] == Chunks(parts[1..]) + behind;
      ArrivedUpToEnd(parts[1..], behind);
    }
  }

  /**
   From position `n` on, the segments are exactly the maximal break-free runs, in
   order: segment `k` is the run at `spans[k]`, each span ends before the next
   begins, and no run is left out.
   */
  ghost predicate RunsFrom(bytes: seq<byte>, n: int, segments: seq<seq<byte>>, spans: seq<(int, int)>) {
    Placed(bytes, n, segments, spans) && Ordered(spans) && Complete(bytes, n, spans)
  }

  ghost predicate Placed(bytes: seq<byte>, n: int, segments: seq<seq<byte>>, spans: seq<(int, int)>) {
    && |spans| == |segments|
    && forall k | 0 <= k < |spans| ::
         n <= spans[k].0 && MaximalRun(bytes, spans[k].0, spans[k].1) && bytes[spans[k].0..spans[k].1] == segments[k]
  }

  ghost predicate Ordered(spans: seq<(int, int)>) {
    forall k | 0 <= k < |spans| - 1 :: spans[k].1 < spans[k + 1].0
  }

  ghost predicate Complete(bytes: seq<byte>, n: int, spans: seq<(int, int)>) {
    forall i, j | MaximalRun(bytes, i, j) && n <= i :: (i, j) in spans
  }

  lemma {:induction false} SegmentsAreRuns(bytes: seq<byte>) returns (spans: seq<(int, int)>)
    ensures RunsFrom(bytes, 0, Segments(bytes), spans)
    decreases |bytes|
  {
    var n := RunLength(bytes);
    RunLengthStops(bytes);
    if bytes == [] {
      spans := [];
    } else if n == 0 {
      var rest := SegmentsAreRuns(bytes[1..]);
      SpansBehind(bytes, 1, Segments(bytes[1..]), rest);
      spans := Shifted(rest, 1);
    } else {
      var rest := SegmentsAreRuns(bytes[n..]);
      SpansBehind(bytes, n, Segments(bytes[n..]), rest);
      FirstSpan(bytes, n, Segments(bytes[n..]), Shifted(rest, n));
      spans := [(0, n)] + Shifted(rest, n);
    }
  }

  function Shifted(spans: seq<(int, int)>, n: nat): seq<(int, int)> {
    seq(|spans|, k requires 0 <= k < |spans| => (spans[k].0 + n, spans[k].1 + n))
  }

  /** Runs of what follows the first `n` bytes, as runs of the whole. */
  lemma SpansBehind(bytes: seq<byte>, n: nat, segments: seq<seq<byte>>, rest: seq<(int, int)>)
    requires 0 < n <= |bytes| && RunsFrom(bytes[n..], 0, segments, rest)
    requires IsBreak(bytes[n - 1]) || (n < |bytes| ==> IsBreak(bytes[n]))
    ensures RunsFrom(bytes, n, segments, Shifted(rest, n))
    ensures rest != [] && !IsBreak(bytes[n - 1]) ==> rest[0].0 > 0
  {
    PlacedBehind(bytes, n, segments, rest);
    CompleteBehind(bytes, n, rest);
  }

  lemma PlacedBehind(bytes: seq<byte>, n: nat, segments: seq<seq<byte>>, rest: seq<(int, int)>)
    requires 0 < n <= |bytes| && Placed(bytes[n..], 0, segments, rest)
    requires IsBreak(bytes[n - 1]) || (n < |bytes| ==> IsBreak(bytes[n]))
    ensures Placed(bytes, n, segments, Shifted(rest, n))
    ensures rest != [] && !IsBreak(bytes[n - 1]) ==> rest[0].0 > 0
  {
    var spans := Shifted(rest, n);
    forall k | 0 <= k < |spans|
      ensures n <= spans[k].0 && MaximalRun(bytes, spans[k].0, spans[k].1)
          && bytes[spans[k].0..spans[k].1] == segments[k]
      ensures !IsBreak(bytes[n - 1]) ==> rest[k].0 > 0
    {
      ShiftedRun(bytes, n, rest[k].0, rest[k].1);
    }
  }

  lemma CompleteBehind(bytes: seq<byte>, n: nat, rest: seq<(int, int)>)
    requires n <= |bytes| && Complete(bytes[n..], 0, rest)
    ensures Complete(bytes, n, Shifted(rest, n))
  {
    forall i, j | MaximalRun(bytes, i, j) && n <= i
      ensures (i, j) in Shifted(rest, n)
    {
      RunsBehind(bytes, n, i, j);
      InShifted(rest, n, i, j);
    }
  }

  lemma ShiftedRun(bytes: seq<byte>, n: nat, i: int, j: int)
    requires 0 < n <= |bytes| && MaximalRun(bytes[n..], i, j)
    requires IsBreak(bytes[n - 1]) || (n < |bytes| ==> IsBreak(bytes[n]))
    ensures MaximalRun(bytes, i + n, j + n) && bytes[i + n..j + n] == bytes[n..][i..j]
    ensures !IsBreak(bytes[n - 1]) ==> i > 0
  {
    assert bytes[n..][i] == bytes[n + i];
    RunShift(bytes, n, i, j);
  }

  lemma InShifted(spans: seq<(int, int)>, n: nat, i: int, j: int)
    requires (i - n, j - n) in spans
    ensures (i, j) in Shifted(spans, n)
  {
    var k :| 0 <= k < |spans| && spans[k] == (i - n, j - n);
    assert Shifted(spans, n)[k] == (i, j);
  }

  /** A run that begins within the first one is the first one. */
  lemma RunAtStart(bytes: seq<byte>, i: int, j: int)
    requires MaximalRun(bytes, i, j) && i < RunLength(bytes)
    ensures i == 0 && j == RunLength(bytes)
  {
    RunLengthStops(bytes);
  }

  /** A run at the very start goes before the runs behind it. */
  lemma FirstSpan(bytes: seq<byte>, n: nat, segments: seq<seq<byte>>, later: seq<(int, int)>)
    requires 0 < n <= |bytes| && n == RunLength(bytes) && RunsFrom(bytes, n, segments, later)
    requires later != [] ==> later[0].0 > n
    ensures RunsFrom(bytes, 0, [bytes[..n]] + segments, [(0, n)] + later)
  {
    RunLengthStops(bytes);
    forall i, j | MaximalRun(bytes, i, j)
      ensures (i, j) in [(0, n)] + later
    {
      if i < n {
        RunAtStart(bytes, i, j);
      }
    }
  }

  lemma RunShift(bytes: seq<byte>, n: nat, i: int, j: int)
    requires n <= |bytes| && MaximalRun(bytes[n..], i, j) && (i > 0 || (n > 0 && IsBreak(bytes[n - 1])))
    ensures MaximalRun(bytes, i + n, j + n)
  {
    assert forall k | 0 <= k < |bytes| - n :: bytes[n..][k] == bytes[n + k];
    assert forall k | i + n <= k < j + n :: bytes[k] == bytes[n..][k - n];
  }

  lemma {:induction false} RunLengthStops(bytes: seq<byte>)
    ensures forall k | 0 <= k < RunLength(bytes) :: !IsBreak(bytes[k])
    ensures RunLength(bytes) < |bytes| ==> IsBreak(bytes[RunLength(bytes)])
  {
    if bytes != [] && !IsBreak(bytes[0]) {
      RunLengthStops(bytes[1..]);
      assert forall k | 0 < k < |bytes| :: bytes[k] == bytes[1..][k - 1];
    }
  }

  lemma RunsBehind(bytes: seq<byte>, n: nat, i: int, j: int)
    requires n <= i && MaximalRun(bytes, i, j)
    ensures MaximalRun(bytes[n..], i - n, j - n) && bytes[n..][i - n..j - n] == bytes[i..j]
  {
    assert forall k | i - n <= k < j - n :: bytes[n..][k] == bytes[n + k];
  }

  /** Nothing but breaks is lost, and order is kept. */
  lemma {:induction false} SegmentsKeepBytes(bytes: seq<byte>)
    ensures Flat(Segments(bytes)) == WithoutBreaks(bytes)
    decreases |bytes|
  {
    if bytes != [] {
      var n := RunLength(bytes);
      RunLengthStops(bytes);
      if n == 0 {
        SegmentsKeepBytes(bytes[1..]);
      } else {
        SegmentsKeepBytes(bytes[n..]);
        assert ([bytes[..n]] + Segments(bytes[n..]))[1..] == Segments(bytes[n..]);
        BreakFreeKept(bytes[..n], bytes[n..]);
        assert bytes == bytes[..n] + bytes[n..];
      }
    }
  }

  lemma {:induction false} BreakFreeKept(run: seq<byte>, rest: seq<byte>)
    requires forall k | 0 <= k < |run| :: !IsBreak(run[k])
    ensures WithoutBreaks(run + rest) == run + WithoutBreaks(rest)
  {
    if run == [] {
      assert run + rest == rest;
    } else {
      assert (run + rest)[1..] == run[1..] + rest;
      BreakFreeKept(run[1..], rest);
    }
  }

  function Flat(segments: seq<seq<byte>>): seq<byte> {
    if segments == [] then [] else segments[0] + Flat(segments[1..])
  }

  function WithoutBreaks(bytes: seq<byte>): seq<byte> {
    if bytes == [] then []
    else (if IsBreak(bytes[0]) then [] else [bytes[0]]) + WithoutBreaks(bytes[1..])
  }

  /** The captured text splits back into exactly the reported lines. */
  lemma CapturedSplitsBack(bytes: seq<byte>, lossy: seq<byte> -> string)
    requires KeepsLines(lossy) && Segments(bytes) != []
    ensures SplitLines(Join(Decoded(lossy, Segments(bytes)))) == Decoded(lossy, Segments(bytes))
  {
    var spans := SegmentsAreRuns(bytes);
    forall k | 0 <= k < |Segments(bytes)|
      ensures '\n' !in lossy(Segments(bytes)[k])
    {
      assert LF !in bytes[spans[k].0..spans[k].1];
    }
    SplitJoin(Decoded(lossy, Segments(bytes)));
  }

  lemma {:induction false} SplitJoin(lines: seq<string>)
    requires lines != [] && forall i | 0 <= i < |lines| :: '\n' !in lines[i]
    ensures SplitLines(Join(lines)) == lines
  {
    if |lines| == 1 {
      LineLengthAppend(lines[0], "");
      assert lines[0] + "" == lines[0];
    } else {
      var rest := Join(lines[1..]);
      SplitJoin(lines[1..]);
      LineLengthAppend(lines[0], "\n" + rest);
      assert Join(lines) == lines[0] + ("\n" + rest);
      assert Join(lines)[..|lines[0]|] == lines[0] && Join(lines)[|lines[0]| + 1..] == rest;
    }
  }

  lemma {:induction false} LineLengthAppend(line: string, rest: string)
    requires '\n' !in line && (rest == "" || rest[0] == '\n')
    ensures LineLength(line + rest) == |line|
  {
    if line == "" {
      assert line + rest == rest;
    } else {
      assert (line + rest)[1..] == line[1..] + rest;
      LineLengthAppend(line[1..], rest);
    }
  }
}
