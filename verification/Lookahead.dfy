/**
 The sliding lookahead transformer for response streams (internal/outbound/lookahead.go) and the canary
 inspector it runs (internal/outbound/canary.go, internal/outbound/engine.go).

 The reader, the context and the downstream writer are inputs: a run is driven by the list of reads the
 upstream delivers and by a function that says which writes fail and how much they let through.
 */
module Lookahead {
  import opened Occurrences

  type Bytes = seq<byte>

  const LOOKAHEAD_WINDOW_SIZE := 128
  const OVERLAP_MARGIN_SIZE := 64

  /** What came with the bytes of one read. */
  datatype ReadStatus = More | Eof | Failed

  /** One turn of the read loop; `cancelled` means the context was done before the read. */
  datatype Read = Read(cancelled: bool, data: Bytes, status: ReadStatus)

  /** The fate of one downstream write: complete, or an error after some bytes went through. */
  datatype WriteResult = Written | Broken(through: nat)

  datatype Config = Config(window: int, overlap: int, inspect: Bytes -> bool, write: nat -> WriteResult)

  datatype Outcome = Streaming | Completed | Aborted | Cancelled | ReadFailed | WriteFailed

  /** `forwarded` counts stream bytes only; the error frame of an abort is kept apart from them. */
  datatype State = State(held: Bytes, forwarded: Bytes, writes: nat, outcome: Outcome)

  const START := State([], [], 0, Streaming)

  /** Positive sizes are used as they are; the others select the defaults. */
  function NewConfig(window: int, overlap: int, inspect: Bytes -> bool, write: nat -> WriteResult): (c: Config)
    ensures c.window >= 1 && c.overlap >= 1
    ensures window > 0 ==> c.window == window
    ensures overlap > 0 ==> c.overlap == overlap
    ensures window <= 0 ==> c.window == 128
    ensures overlap <= 0 ==> c.overlap == 64
  {
    Config(if window <= 0 then LOOKAHEAD_WINDOW_SIZE else window,
           if overlap <= 0 then OVERLAP_MARGIN_SIZE else overlap, inspect, write)
  }

  // ---------------------------------------------------------------------------------------------
  // The transformer as a function of its inputs
  // ---------------------------------------------------------------------------------------------

  function Min(a: nat, b: nat): nat {
    if a <= b then a else b
  }

  /** Writes the first `n` held bytes and drops them; a broken write ends the run. */
  function Release(c: Config, s: State, n: nat): State
    requires n <= |s.held|
  {
    match c.write(s.writes)
    case Written => s.(held := s.held[n..], forwarded := s.forwarded + s.held[..n], writes := s.writes + 1)
    case Broken(k) => s.(forwarded := s.forwarded + s.held[..Min(k, n)], outcome := WriteFailed)
  }

  /** The inner loop: while a full window is held, inspect it and release all but the overlap. */
  function Drain(c: Config, s: State): State
    requires c.overlap >= 0
    decreases |s.held|
  {
    if |s.held| < c.window then s
    else if c.inspect(s.held) then s.(outcome := Aborted)
    else if |s.held| <= c.overlap then s
    else
      var released := Release(c, s, |s.held| - c.overlap);
      if released.outcome == WriteFailed then released else Drain(c, released)
  }

  /** End of stream: inspect and release whatever is left. */
  function Finish(c: Config, s: State): State {
    if |s.held| == 0 then s.(outcome := Completed)
    else if c.inspect(s.held) then s.(outcome := Aborted)
    else
      var released := Release(c, s, |s.held|);
      if released.outcome == WriteFailed then released else released.(outcome := Completed)
  }

  function Step(c: Config, s: State, r: Read): State
    requires c.overlap >= 0
  {
    if r.cancelled then
      s.(outcome := Cancelled)
    else
      var drained := if |r.data| > 0 then Drain(c, s.(held := s.held + r.data)) else s;
      if drained.outcome != Streaming then drained
      else match r.status
           case More => drained
           case Eof => Finish(c, drained)
           case Failed => drained.(outcome := ReadFailed)
  }

  function Run(c: Config, s: State, input: seq<Read>): State
    requires c.overlap >= 0
    decreases input
  {
    if input == [] || s.outcome != Streaming then s else Run(c, Step(c, s, input[0]), input[1..])
  }

  /** The bytes of the stream, up to and including the read that reports its end. */
  function Stream(input: seq<Read>): Bytes {
    if input == [] then []
    else input[0].data + if input[0].status == More then Stream(input[1..]) else []
  }

  // ---------------------------------------------------------------------------------------------
  // The transformer as it runs: a growable buffer, shifted in place
  // ---------------------------------------------------------------------------------------------

  class WindowBuffer {
    var data: array<byte>
    var len: nat

    ghost predicate Valid()
      reads this
    {
      len <= data.Length
    }

    ghost function Contents(): Bytes
      requires Valid()
      reads this, data
    {
      data[..len]
    }

    constructor (capacity: nat)
      ensures Valid() && fresh(data) && Contents() == []
    {
      data := new byte[capacity];
      len := 0;
    }

    /** Appends a chunk, moving to a larger array when the capacity is exceeded. */
    method Append(chunk: Bytes)
      requires Valid()
      modifies this, data
      ensures Valid() && (data == old(data) || fresh(data))
      ensures Contents() == old(Contents()) + chunk
    {
      if len + |chunk| > data.Length {
        var grown := new byte[len + |chunk|];
        forall i | 0 <= i < len {
          grown[i] := data[i];
        }
        data := grown;
      }
      ghost var before := data[..len];
      forall i | 0 <= i < |chunk| {
        data[len + i] := chunk[i];
      }
      len := len + |chunk|;
      assert data[..len] == before + chunk;
    }

    /** Drops the first `n` bytes by copying the rest down over them. */
    method Slide(n: nat)
      requires Valid() && n <= len
      modifies this`len, data
      ensures Valid() && Contents() == old(Contents()[n..])
    {
      for i := 0 to len - n
        invariant unchanged(`len)
        invariant forall k :: 0 <= k < i ==> data[k] == old(data[k + n])
        invariant forall k :: i <= k < len ==> data[k] == old(data[k])
      {
        data[i] := data[i + n];
      }
      len := len - n;
    }
  }

  /** The inner loop: inspect and release while at least a full window is held. */
  method ReleaseWindows(c: Config, buffer: WindowBuffer, s: State) returns (t: State)
    requires c.window >= 1 && c.overlap >= 1
    requires buffer.Valid() && s == State(buffer.Contents(), s.forwarded, s.writes, Streaming)
    modifies buffer`len, buffer.data
    ensures buffer.Valid() && t == Drain(c, s) && t.held == buffer.Contents()
  {
    t := s;
    while buffer.len >= c.window
      invariant buffer.Valid() && t.held == buffer.Contents() && t.outcome == Streaming
      invariant Drain(c, t) == Drain(c, s)
      decreases buffer.len
    {
      var window := buffer.data[..buffer.len];
      if c.inspect(window) {
        return t.(outcome := Aborted);
      }
      var flushable := buffer.len - c.overlap;
      if flushable > 0 {
        match c.write(t.writes) {
          case Broken(through) =>
            return t.(forwarded := t.forwarded + window[..Min(through, flushable)], outcome := WriteFailed);
          case Written =>
            buffer.Slide(flushable);
            t := State(buffer.data[..buffer.len], t.forwarded + window[..flushable], t.writes + 1, Streaming);
        }
      } else {
        break;
      }
    }
  }

  /** The read loop. */
  method ReadLoop(c: Config, input: seq<Read>) returns (s: State)
    requires c.window >= 1 && c.overlap >= 1
    ensures s == Run(c, START, input)
  {
    var buffer := new WindowBuffer(c.window * 4);
    s := START;
    for k := 0 to |input|
      invariant buffer.Valid() && fresh(buffer) && fresh(buffer.data)
      invariant s.held == buffer.Contents() && s.outcome == Streaming
      invariant Run(c, s, input[k..]) == Run(c, START, input)
    {
      var r := input[k];
      assert input[k..][1..] == input[k + 1..];
      if r.cancelled {
        return s.(outcome := Cancelled);
      }
      if |r.data| > 0 {
        buffer.Append(r.data);
        s := ReleaseWindows(c, buffer, s.(held := s.held + r.data));
        if s.outcome != Streaming {
          return;
        }
      }
      match r.status {
        case More =>
        case Failed => return s.(outcome := ReadFailed);
        case Eof =>
          if buffer.len > 0 {
            var window := buffer.data[..buffer.len];
            if c.inspect(window) {
              return s.(outcome := Aborted);
            }
            match c.write(s.writes) {
              case Broken(through) =>
                return s.(forwarded := s.forwarded + window[..Min(through, buffer.len)], outcome := WriteFailed);
              case Written =>
                assert window[..|window|] == window && window[|window|..] == [];
                return State([], s.forwarded + window, s.writes + 1, Completed);
            }
          }
          return s.(outcome := Completed);
      }
    }
  }

  /** Everything the client receives: the bytes forwarded and, after an abort, the error frame. */
  function Downstream(s: State, frame: Bytes): Bytes {
    if s.outcome == Aborted then s.forwarded + frame else s.forwarded
  }

  /** Relays the stream; on a violation the error frame follows what was forwarded and nothing follows the frame. */
  method TransformStream(c: Config, input: seq<Read>, frame: Bytes) returns (s: State, downstream: Bytes)
    requires c.window >= 1 && c.overlap >= 1
    ensures s == Run(c, START, input) && downstream == Downstream(s, frame)
    ensures s.outcome == Aborted ==> downstream == s.forwarded + frame
    ensures s.outcome != Aborted ==> downstream == s.forwarded
  {
    s := ReadLoop(c, input);
    downstream := s.forwarded;
    if s.outcome == Aborted {
      downstream := downstream + frame;
    }
  }

  // ---------------------------------------------------------------------------------------------
  // No leak
  // ---------------------------------------------------------------------------------------------

  /** The inspector flags every window that contains one of the patterns. */
  ghost predicate Flags(inspect: Bytes -> bool, patterns: set<Bytes>) {
    forall w: Bytes, p :: p in patterns && Contains(w, p) ==> inspect(w)
  }

  /** The patterns a margin of `overlap` bytes protects. */
  ghost predicate Fit(patterns: set<Bytes>, overlap: int) {
    forall p :: p in patterns ==> 1 <= |p| <= overlap + 1
  }

  /** Nothing forwarded lies past the start of an occurrence in `stream`. */
  ghost predicate NoLeak(patterns: set<Bytes>, forwarded: nat, stream: Bytes) {
    forall p, i :: p in patterns && OccursAt(stream, i, p) ==> forwarded <= i
  }

  /**
   What the transformer keeps: forwarded and held bytes make up the stream so far, nothing has leaked, and
   once something was forwarded at least a margin is being held back.
   */
  ghost predicate Keeps(c: Config, patterns: set<Bytes>, s: State, stream: Bytes) {
    && stream == s.forwarded + s.held
    && NoLeak(patterns, |s.forwarded|, stream)
    && (|s.forwarded| > 0 ==> |s.forwarded| + c.overlap <= |stream|)
  }

  /** What remains true of a run that has ended, or may still be going on. */
  ghost predicate Safe(c: Config, patterns: set<Bytes>, s: State, stream: Bytes) {
    && s.forwarded <= stream
    && NoLeak(patterns, |s.forwarded|, stream)
    && (|s.forwarded| > 0 ==> |s.forwarded| + c.overlap <= |stream|)
  }

  /** The margin makes a verdict on the bytes so far a verdict on every continuation. */
  lemma MarginProtects(c: Config, patterns: set<Bytes>, forwarded: nat, stream: Bytes, rest: Bytes)
    requires Fit(patterns, c.overlap) && NoLeak(patterns, forwarded, stream)
    requires forwarded > 0 ==> forwarded + c.overlap <= |stream|
    ensures NoLeak(patterns, forwarded, stream + rest)
  {
    forall p, i | p in patterns && OccursAt(stream + rest, i, p) ensures forwarded <= i {
      if i < forwarded {
        OccursInExtension(stream, rest, i, p);
      }
    }
  }

  /** A clean inspection of the held bytes clears them for release. */
  lemma CleanRelease(c: Config, patterns: set<Bytes>, s: State, stream: Bytes, n: nat)
    requires Flags(c.inspect, patterns) && stream == s.forwarded + s.held
    requires NoLeak(patterns, |s.forwarded|, stream) && !c.inspect(s.held) && n <= |s.held|
    ensures NoLeak(patterns, |s.forwarded| + n, stream)
  {
    forall p | p in patterns ensures !Contains(s.held, p) {
      assert Contains(s.held, p) ==> c.inspect(s.held);
    }
    forall p, i | p in patterns && OccursAt(stream, i, p) ensures |s.forwarded| + n <= i {
      if |s.forwarded| <= i {
        OccursInRightPart(s.forwarded, s.held, i, p);
      }
    }
  }

  /** The bound on what is held back between reads. */
  function HeldBound(c: Config): int {
    if c.window - 1 <= c.overlap then c.overlap else c.window - 1
  }

  lemma {:induction false} DrainIsSafe(c: Config, patterns: set<Bytes>, s: State, stream: Bytes)
    requires c.window >= 1 && c.overlap >= 1 && Flags(c.inspect, patterns)
    requires Keeps(c, patterns, s, stream) && s.outcome == Streaming
    ensures var d := Drain(c, s);
            && Safe(c, patterns, d, stream)
            && (d.outcome == Streaming ==> Keeps(c, patterns, d, stream) && |d.held| <= HeldBound(c))
            && d.outcome in {Streaming, Aborted, WriteFailed}
            && (d.outcome == WriteFailed ==> exists n :: c.write(n).Broken?)
            && (d.outcome == Aborted ==> c.inspect(d.held) && stream == d.forwarded + d.held)
    decreases |s.held|
  {
    hide NoLeak, Flags;
    if |s.held| >= c.window && !c.inspect(s.held) && |s.held| > c.overlap {
      var n := |s.held| - c.overlap;
      var released := Release(c, s, n);
      match c.write(s.writes)
      case Written =>
        CleanRelease(c, patterns, s, stream, n);
        assert s.held == s.held[..n] + s.held[n..];
        DrainIsSafe(c, patterns, released, stream);
      case Broken(k) =>
        CleanRelease(c, patterns, s, stream, Min(k, n));
        assert s.held == s.held[..Min(k, n)] + s.held[Min(k, n)..];
    }
  }

  lemma FinishIsSafe(c: Config, patterns: set<Bytes>, s: State, stream: Bytes)
    requires c.overlap >= 1 && Flags(c.inspect, patterns)
    requires Keeps(c, patterns, s, stream) && s.outcome == Streaming
    ensures var f := Finish(c, s);
            && f.forwarded <= stream && NoLeak(patterns, |f.forwarded|, stream)
            && f.outcome in {Completed, Aborted, WriteFailed}
            && (f.outcome == WriteFailed ==> exists n :: c.write(n).Broken?)
            && (f.outcome == Completed ==> f.forwarded == stream)
            && (f.outcome == Aborted ==> c.inspect(f.held) && stream == f.forwarded + f.held)
  {
    if |s.held| > 0 && !c.inspect(s.held) {
      var n := match c.write(s.writes) case Written => |s.held| case Broken(k) => Min(k, |s.held|);
      CleanRelease(c, patterns, s, stream, n);
      assert s.held == s.held[..n] + s.held[n..];
    }
  }

  /** One read: what has been read grows by the data, unless the run was cancelled before it. */
  function Taken(r: Read): Bytes {
    if r.cancelled then [] else r.data
  }

  lemma StepIsSafe(c: Config, patterns: set<Bytes>, s: State, stream: Bytes, r: Read)
    requires c.window >= 1 && c.overlap >= 1 && Flags(c.inspect, patterns) && Fit(patterns, c.overlap)
    requires Keeps(c, patterns, s, stream) && s.outcome == Streaming && |s.held| <= HeldBound(c)
    ensures var t := Step(c, s, r);
            var stream' := stream + Taken(r);
            && t.forwarded <= stream' && NoLeak(patterns, |t.forwarded|, stream')
            && (r.status != Eof || r.cancelled ==> Safe(c, patterns, t, stream'))
            && (t.outcome == Streaming ==>
                 !r.cancelled && r.status == More && Keeps(c, patterns, t, stream') && |t.held| <= HeldBound(c))
            && (t.outcome == Completed ==> !r.cancelled && r.status == Eof && t.forwarded == stream')
            && (t.outcome == Aborted ==> c.inspect(t.held) && stream' == t.forwarded + t.held)
            && (t.outcome == Cancelled ==> r.cancelled) && (t.outcome == ReadFailed ==> r.status == Failed)
            && (t.outcome == WriteFailed ==> exists n :: c.write(n).Broken?)
            && (t.outcome == Aborted ==> !r.cancelled)
  {
    MarginProtects(c, patterns, |s.forwarded|, stream, Taken(r));
    if r.cancelled {
      assert stream + [] == stream;
    } else {
      var fed := s.(held := s.held + r.data);
      assert stream + r.data == s.forwarded + (s.held + r.data);
      var drained := if |r.data| > 0 then Drain(c, fed) else s;
      if |r.data| > 0 {
        DrainIsSafe(c, patterns, fed, stream + r.data);
      } else {
        assert stream + r.data == stream;
      }
      if drained.outcome == Streaming && r.status == Eof {
        FinishIsSafe(c, patterns, drained, stream + r.data);
      }
    }
  }

  lemma {:induction false} RunIsSafe(c: Config, patterns: set<Bytes>, s: State, stream: Bytes, input: seq<Read>, k: nat)
    requires c.window >= 1 && c.overlap >= 1 && Flags(c.inspect, patterns) && Fit(patterns, c.overlap)
    requires Keeps(c, patterns, s, stream) && s.outcome == Streaming && |s.held| <= HeldBound(c)
    requires k <= |input|
    ensures var t := Run(c, s, input[..k]);
            var whole := stream + Stream(input);
            && t.forwarded <= whole && NoLeak(patterns, |t.forwarded|, whole)
            && (t.outcome == Streaming ==> |t.held| <= HeldBound(c))
            && (t.outcome == Completed ==> t.forwarded == whole)
    decreases k
  {
    hide Step, NoLeak, Flags, Fit;
    if k == 0 {
      MarginProtects(c, patterns, |s.forwarded|, stream, Stream(input));
    } else {
      var r, rest := input[0], input[1..];
      assert input[..k][0] == r && input[..k][1..] == rest[..k - 1];
      var t := Step(c, s, r);
      StepIsSafe(c, patterns, s, stream, r);
      if t.outcome == Streaming {
        RunIsSafe(c, patterns, t, stream + r.data, rest, k - 1);
        assert stream + r.data + Stream(rest) == stream + Stream(input);
      } else {
        assert Run(c, t, rest[..k - 1]) == t;
        var left := if r.cancelled then Stream(input) else if r.status == More then Stream(rest) else [];
        assert stream + Stream(input) == stream + Taken(r) + left;
        if r.cancelled || r.status != Eof {
          MarginProtects(c, patterns, |t.forwarded|, stream + Taken(r), left);
        } else {
          assert stream + Stream(input) == stream + Taken(r);
        }
      }
    }
  }

  /**
   At every moment of every run, however the stream is chunked and however the run stops, no forwarded byte
   lies past the start of an occurrence in the stream, read or still unread; what is forwarded is a prefix
   of the stream and what is held back between reads is bounded.
   */
  lemma NoLeakOverAnyRun(c: Config, patterns: set<Bytes>, input: seq<Read>, k: nat)
    requires c.window >= 1 && c.overlap >= 1 && Flags(c.inspect, patterns) && Fit(patterns, c.overlap)
    requires k <= |input|
    ensures var t := Run(c, START, input[..k]);
            && t.forwarded <= Stream(input)
            && NoLeak(patterns, |t.forwarded|, Stream(input))
            && (t.outcome == Streaming ==> |t.held| <= HeldBound(c))
            && (t.outcome == Completed ==> t.forwarded == Stream(input))
  {
    assert [] + Stream(input) == Stream(input);
    RunIsSafe(c, patterns, START, [], input, k);
  }

  // ---------------------------------------------------------------------------------------------
  // Chunk independence
  // ---------------------------------------------------------------------------------------------

  ghost predicate ContainsAny(patterns: set<Bytes>, w: Bytes) {
    exists p :: p in patterns && Contains(w, p)
  }

  ghost predicate Exact(inspect: Bytes -> bool, patterns: set<Bytes>) {
    forall w: Bytes :: inspect(w) <==> ContainsAny(patterns, w)
  }

  /** An undisturbed stream: every read succeeds, the last one reports the end. */
  ghost predicate RunsToEof(input: seq<Read>) {
    && |input| > 0
    && (forall k :: 0 <= k < |input| ==> !input[k].cancelled)
    && (forall k :: 0 <= k < |input| - 1 ==> input[k].status == More)
    && input[|input| - 1].status == Eof
  }

  /** A pattern in a middle piece is a pattern in the whole. */
  lemma ContainsInWhole(patterns: set<Bytes>, before: Bytes, w: Bytes, after: Bytes)
    requires ContainsAny(patterns, w)
    ensures ContainsAny(patterns, before + w + after)
  {
    var p :| p in patterns && Contains(w, p);
    var i :| 0 <= i <= |w| && OccursAt(w, i, p);
    OccursInRightPart(before, w, i + |before|, p);
    OccursInExtension(before + w, after, i + |before|, p);
    assert Contains(before + w + after, p);
  }

  lemma {:induction false} RunToEof(c: Config, patterns: set<Bytes>, s: State, stream: Bytes, input: seq<Read>)
    requires c.window >= 1 && c.overlap >= 1 && Exact(c.inspect, patterns) && Fit(patterns, c.overlap)
    requires Keeps(c, patterns, s, stream) && s.outcome == Streaming && |s.held| <= HeldBound(c)
    requires RunsToEof(input) && forall n :: c.write(n) == Written
    ensures var t := Run(c, s, input);
            var whole := stream + Stream(input);
            && (t.outcome == Aborted || t.outcome == Completed)
            && (t.outcome == Aborted ==> ContainsAny(patterns, whole))
            && (t.outcome == Completed ==> t.forwarded == whole && NoLeak(patterns, |whole|, whole))
    decreases |input|
  {
    hide Step, NoLeak, Flags, Fit, ContainsAny;
    var r, rest := input[0], input[1..];
    var t := Step(c, s, r);
    FlagsOfExact(c.inspect, patterns);
    StepIsSafe(c, patterns, s, stream, r);
    var left := if r.status == More then Stream(rest) else [];
    assert stream + Stream(input) == stream + r.data + left;
    if t.outcome == Streaming {
      RunToEof(c, patterns, t, stream + r.data, rest);
    } else {
      assert Run(c, t, rest) == t;
      if t.outcome == Aborted {
        ContainsInWhole(patterns, t.forwarded, t.held, left);
      }
    }
  }

  lemma FlagsOfExact(inspect: Bytes -> bool, patterns: set<Bytes>)
    requires Exact(inspect, patterns)
    ensures Flags(inspect, patterns)
  {
    forall w: Bytes, p | p in patterns && Contains(w, p) ensures inspect(w) {
      assert ContainsAny(patterns, w);
    }
  }

  /**
   The verdict does not depend on the chunking: the run is aborted exactly when the whole stream contains
   a pattern, and otherwise every byte is forwarded unchanged.
   */
  lemma ChunkIndependence(c: Config, patterns: set<Bytes>, input: seq<Read>)
    requires c.window >= 1 && c.overlap >= 1 && Exact(c.inspect, patterns) && Fit(patterns, c.overlap)
    requires RunsToEof(input) && forall n :: c.write(n) == Written
    ensures var t := Run(c, START, input);
            && (t.outcome == Aborted <==> ContainsAny(patterns, Stream(input)))
            && (t.outcome != Aborted ==> t.outcome == Completed && t.forwarded == Stream(input))
  {
    hide NoLeak, ContainsAny, Exact, Fit, Run, Stream, RunsToEof;
    assert [] + Stream(input) == Stream(input);
    NothingLeaked(patterns);
    RunToEof(c, patterns, START, [], input);
    if Run(c, START, input).outcome == Completed {
      CleanWhole(patterns, c.overlap, Stream(input));
    }
  }

  lemma NothingLeaked(patterns: set<Bytes>)
    ensures NoLeak(patterns, 0, [])
  {
  }

  /** A stream that may be forwarded to its end contains no pattern. */
  lemma CleanWhole(patterns: set<Bytes>, overlap: int, stream: Bytes)
    requires Fit(patterns, overlap) && NoLeak(patterns, |stream|, stream)
    ensures !ContainsAny(patterns, stream)
  {
  }

  /** What the client receives of such a stream: all of it, or a clean beginning and the error frame, nothing after. */
  lemma DownstreamExactly(c: Config, patterns: set<Bytes>, input: seq<Read>, frame: Bytes)
    requires c.window >= 1 && c.overlap >= 1 && Exact(c.inspect, patterns) && Fit(patterns, c.overlap)
    requires RunsToEof(input) && forall n :: c.write(n) == Written
    ensures var out := Downstream(Run(c, START, input), frame);
            if ContainsAny(patterns, Stream(input)) then
              exists n :: 0 <= n <= |Stream(input)| && NoLeak(patterns, n, Stream(input))
                && out == Stream(input)[..n] + frame
            else out == Stream(input)
  {
    ChunkIndependence(c, patterns, input);
    FlagsOfExact(c.inspect, patterns);
    NoLeakOverAnyRun(c, patterns, input, |input|);
    assert input[..|input|] == input;
    hide NoLeak, ContainsAny, Exact, Fit, Flags;
    var t := Run(c, START, input);
    assert t.forwarded == Stream(input)[..|t.forwarded|];
  }

  /** The bytes of the reads that were not cancelled. */
  function TakenAll(input: seq<Read>): Bytes {
    if input == [] then [] else Taken(input[0]) + TakenAll(input[1..])
  }

  /**
   How a run ends when no write breaks: unless it is aborted, in the way its last read says.  Cut short, it has
   forwarded everything it took but a bounded rest; data that comes with a read error counts as taken.
   */
  lemma {:induction false} EndingIsReported(c: Config, patterns: set<Bytes>, s: State, stream: Bytes, input: seq<Read>)
    requires c.window >= 1 && c.overlap >= 1 && Exact(c.inspect, patterns) && Fit(patterns, c.overlap)
    requires Keeps(c, patterns, s, stream) && s.outcome == Streaming && |s.held| <= HeldBound(c)
    requires input != [] && forall n :: c.write(n) == Written
    requires forall k :: 0 <= k < |input| - 1 ==> !input[k].cancelled && input[k].status == More
    requires var last := input[|input| - 1]; last.cancelled || last.status != More
    ensures var last, t, taken := input[|input| - 1], Run(c, s, input), stream + TakenAll(input);
            && (t.outcome == Aborted
                || t.outcome == if last.cancelled then Cancelled
                                else if last.status == Eof then Completed else ReadFailed)
            && (t.outcome == Aborted ==> ContainsAny(patterns, taken))
            && (t.outcome == Completed ==> t.forwarded == taken)
            && (t.outcome == Cancelled || t.outcome == ReadFailed ==>
                  t.forwarded + t.held == taken && |t.held| <= HeldBound(c))
    decreases |input|
  {
    hide NoLeak, Flags, Fit, ContainsAny, Step, Exact, Safe;
    var r, rest := input[0], input[1..];
    var t := Step(c, s, r);
    FlagsOfExact(c.inspect, patterns);
    StepIsSafe(c, patterns, s, stream, r);
    StepStops(c, patterns, s, stream, r);
    TakenFirst(stream, input);
    if t.outcome == Streaming {
      assert rest[|rest| - 1] == input[|input| - 1];
      EndingIsReported(c, patterns, t, stream + Taken(r), rest);
    } else {
      assert Run(c, t, rest) == t;
      if t.outcome == Aborted {
        ExactVerdict(c.inspect, patterns, t.held);
        ContainsInWhole(patterns, t.forwarded, t.held, TakenAll(rest));
      }
    }
  }

  lemma TakenFirst(stream: Bytes, input: seq<Read>)
    requires input != []
    ensures stream + TakenAll(input) == stream + Taken(input[0]) + TakenAll(input[1..])
  {
  }

  lemma ExactVerdict(inspect: Bytes -> bool, patterns: set<Bytes>, w: Bytes)
    requires Exact(inspect, patterns)
    ensures inspect(w) <==> ContainsAny(patterns, w)
  {
  }

  /** A step that is not aborted ends as its read says, holding back what it has not forwarded. */
  lemma StepStops(c: Config, patterns: set<Bytes>, s: State, stream: Bytes, r: Read)
    requires c.window >= 1 && c.overlap >= 1 && Flags(c.inspect, patterns) && Fit(patterns, c.overlap)
    requires Keeps(c, patterns, s, stream) && s.outcome == Streaming && |s.held| <= HeldBound(c)
    requires forall n :: c.write(n) == Written
    ensures var t := Step(c, s, r);
            && (t.outcome == Aborted
                || t.outcome == if r.cancelled then Cancelled
                                else if r.status == More then Streaming
                                else if r.status == Eof then Completed else ReadFailed)
            && (t.outcome == Cancelled || t.outcome == ReadFailed ==>
                  t.forwarded + t.held == stream + Taken(r) && |t.held| <= HeldBound(c))
  {
    if r.cancelled {
      assert stream + [] == stream;
    } else {
      var fed := s.(held := s.held + r.data);
      assert stream + r.data == s.forwarded + (s.held + r.data);
      MarginProtects(c, patterns, |s.forwarded|, stream, r.data);
      if |r.data| > 0 {
        DrainIsSafe(c, patterns, fed, stream + r.data);
      } else {
        assert stream + r.data == stream;
      }
    }
  }

  /** All writes counted went through, and the run has ended with a write error exactly if the next one broke. */
  ghost predicate WentThrough(c: Config, s: State) {
    && (forall j: nat :: j < s.writes ==> c.write(j) == Written)
    && (s.outcome == WriteFailed ==> c.write(s.writes).Broken?)
  }

  lemma {:induction false} DrainWrites(c: Config, s: State)
    requires c.overlap >= 0 && WentThrough(c, s)
    ensures WentThrough(c, Drain(c, s))
    decreases |s.held|
  {
    if |s.held| >= c.window && !c.inspect(s.held) && |s.held| > c.overlap {
      var released := Release(c, s, |s.held| - c.overlap);
      if released.outcome != WriteFailed {
        DrainWrites(c, released);
      }
    }
  }

  /** In every run a broken write is the last one, and nothing but a broken write ends a run as one. */
  lemma {:induction false} BrokenWriteIsLast(c: Config, s: State, input: seq<Read>)
    requires c.overlap >= 0 && WentThrough(c, s)
    ensures WentThrough(c, Run(c, s, input))
    decreases input
  {
    if input != [] && s.outcome == Streaming {
      DrainWrites(c, s.(held := s.held + input[0].data));
      assert WentThrough(c, Step(c, s, input[0]));
      hide Step, WentThrough;
      BrokenWriteIsLast(c, Step(c, s, input[0]), input[1..]);
    }
  }

  /** Every write forwards something, and nothing is forwarded without one. */
  ghost predicate Counted(s: State, t: State) {
    && |s.forwarded| <= |t.forwarded|
    && s.writes <= t.writes <= s.writes + (|t.forwarded| - |s.forwarded|)
    && (t.writes == s.writes && t.outcome != WriteFailed ==> |t.forwarded| == |s.forwarded|)
  }

  lemma {:induction false} DrainCounts(c: Config, s: State)
    requires c.overlap >= 0 && s.outcome == Streaming
    ensures Counted(s, Drain(c, s))
    decreases |s.held|
  {
    if |s.held| >= c.window && !c.inspect(s.held) && |s.held| > c.overlap {
      var released := Release(c, s, |s.held| - c.overlap);
      if released.outcome != WriteFailed {
        DrainCounts(c, released);
      }
    }
  }

  lemma StepCounts(c: Config, s: State, r: Read)
    requires c.overlap >= 0 && s.outcome == Streaming
    ensures Counted(s, Step(c, s, r))
  {
    hide Drain;
    DrainCounts(c, s.(held := s.held + r.data));
  }

  /** So it is in every run: the n-th write of a run is the n-th that forwards something. */
  lemma {:induction false} WritesAreCounted(c: Config, s: State, input: seq<Read>)
    requires c.overlap >= 0
    ensures Counted(s, Run(c, s, input))
    decreases input
  {
    hide Step;
    if input != [] && s.outcome == Streaming {
      StepCounts(c, s, input[0]);
      WritesAreCounted(c, Step(c, s, input[0]), input[1..]);
    }
  }

  /** After a broken write the client has what was forwarded before and as much of the last write as went through. */
  ghost predicate CutShort(c: Config, t: State, taken: Bytes) {
    t.outcome == WriteFailed ==>
      && c.write(t.writes).Broken? && |t.held| <= |taken|
      && exists n :: 0 <= n <= |t.held| && (n == |t.held| || n == |t.held| - c.overlap)
           && t.forwarded == taken[..|taken| - |t.held|] + t.held[..Min(c.write(t.writes).through, n)]
  }

  lemma ReleaseCutsShort(c: Config, s: State, n: nat)
    requires n <= |s.held| && s.outcome == Streaming && (n == |s.held| || n == |s.held| - c.overlap)
    ensures var t := Release(c, s, n);
            CutShort(c, t, s.forwarded + s.held)
            && (t.outcome != WriteFailed ==> t.forwarded + t.held == s.forwarded + s.held)
  {
    var taken := s.forwarded + s.held;
    assert taken[..|taken| - |s.held|] == s.forwarded;
    assert s.held == s.held[..n] + s.held[n..];
  }

  lemma {:induction false} DrainCutsShort(c: Config, s: State)
    requires c.overlap >= 0 && s.outcome == Streaming
    ensures var t := Drain(c, s);
            CutShort(c, t, s.forwarded + s.held)
            && (t.outcome != WriteFailed ==> t.forwarded + t.held == s.forwarded + s.held)
    decreases |s.held|
  {
    if |s.held| >= c.window && !c.inspect(s.held) && |s.held| > c.overlap {
      ReleaseCutsShort(c, s, |s.held| - c.overlap);
      var released := Release(c, s, |s.held| - c.overlap);
      if released.outcome != WriteFailed {
        DrainCutsShort(c, released);
      }
      hide CutShort;
    }
  }

  lemma FedCutsShort(c: Config, s: State, data: Bytes)
    requires c.overlap >= 0 && s.outcome == Streaming
    ensures var t := if |data| > 0 then Drain(c, s.(held := s.held + data)) else s;
            CutShort(c, t, s.forwarded + s.held + data)
            && (t.outcome != WriteFailed ==> t.forwarded + t.held == s.forwarded + s.held + data)
  {
    hide CutShort, Drain;
    if |data| > 0 {
      DrainCutsShort(c, s.(held := s.held + data));
      assert s.forwarded + (s.held + data) == s.forwarded + s.held + data;
    } else {
      assert s.forwarded + s.held + data == s.forwarded + s.held;
      NotCut(c, s, s.forwarded + s.held + data);
    }
  }

  lemma StepCutsShort(c: Config, s: State, r: Read)
    requires c.overlap >= 0 && s.outcome == Streaming
    ensures var t := Step(c, s, r);
            CutShort(c, t, s.forwarded + s.held + Taken(r))
            && (t.outcome == Streaming ==> t.forwarded + t.held == s.forwarded + s.held + Taken(r))
  {
    hide CutShort, Drain, Release;
    var t := Step(c, s, r);
    if t.outcome != WriteFailed {
      NotCut(c, t, s.forwarded + s.held + Taken(r));
    }
    if !r.cancelled {
      FedCutsShort(c, s, r.data);
      var drained := if |r.data| > 0 then Drain(c, s.(held := s.held + r.data)) else s;
      if drained.outcome == Streaming {
        ReleaseCutsShort(c, drained, |drained.held|);
      }
    }
  }

  /** So it is for every run that ends on a broken write, after some of its reads. */
  lemma {:induction false} BrokenWriteCutsShort(c: Config, s: State, input: seq<Read>) returns (k: nat)
    requires c.overlap >= 0 && s.outcome == Streaming
    ensures k <= |input| && CutShort(c, Run(c, s, input), s.forwarded + s.held + TakenAll(input[..k]))
    decreases input
  {
    hide Step, CutShort;
    k := 0;
    if input == [] {
      NotCut(c, s, s.forwarded + s.held + TakenAll(input[..0]));
    } else {
      var r, t := input[0], Step(c, s, input[0]);
      StepCutsShort(c, s, r);
      if t.outcome == Streaming {
        var j := BrokenWriteCutsShort(c, t, input[1..]);
        k := j + 1;
        assert input[..k][0] == r && input[..k][1..] == input[1..][..j];
        assert s.forwarded + s.held + Taken(r) + TakenAll(input[1..][..j])
            == s.forwarded + s.held + TakenAll(input[..k]);
      } else {
        k := 1;
        assert input[..1][1..] == [] && TakenAll(input[..1]) == Taken(r) + [];
        assert Run(c, t, input[1..]) == t;
        assert s.forwarded + s.held + (Taken(r) + []) == s.forwarded + s.held + Taken(r);
      }
    }
  }

  lemma NotCut(c: Config, s: State, taken: Bytes)
    requires s.outcome != WriteFailed
    ensures CutShort(c, s, taken)
  {
  }

  // ---------------------------------------------------------------------------------------------
  // The margin is exactly enough
  // ---------------------------------------------------------------------------------------------

  /** Padding that brings a chunk up to the window size and cannot start an occurrence of `p`. */
  function Padding(c: Config, p: Bytes): Bytes
    requires |p| > 0 && c.overlap >= 0
  {
    seq(if c.window > c.overlap + 1 then c.window - c.overlap - 1 else 0, _ => if p[0] == 0 then 1 else 0)
  }

  /** A pattern one byte too long, split so that all but its tail arrives with a full window. */
  function LeakingInput(c: Config, p: Bytes): seq<Read>
    requires c.overlap >= 0 && |p| > c.overlap + 1
  {
    [Read(false, Padding(c, p) + p[..c.overlap + 1], More), Read(false, p[c.overlap + 1..], Eof)]
  }

  lemma {:induction false} DrainForwards(c: Config, s: State)
    requires c.overlap >= 0
    ensures s.forwarded <= Drain(c, s).forwarded
    decreases |s.held|
  {
    if |s.held| >= c.window && !c.inspect(s.held) && |s.held| > c.overlap {
      var released := Release(c, s, |s.held| - c.overlap);
      if released.outcome != WriteFailed {
        DrainForwards(c, released);
      }
    }
  }

  /** Beyond the margin the first byte of the pattern does leak. */
  lemma LongerPatternLeaks(c: Config, p: Bytes)
    requires c.window >= 1 && c.overlap >= 1 && Exact(c.inspect, {p}) && c.write(0) == Written
    requires |p| > c.overlap + 1
    ensures var input := LeakingInput(c, p);
            !NoLeak({p}, |Run(c, START, input[..1]).forwarded|, Stream(input))
  {
    hide Drain, NoLeak, OccursAt, Contains, ContainsAny, Padding;
    var input := LeakingInput(c, p);
    var w := Padding(c, p) + p[..c.overlap + 1];
    FirstChunkIsClean(c, p);
    var fed := START.(held := w);
    assert START.held + w == w && input[..1] == [input[0]];
    FirstReleaseForwards(c, fed);
    var forwarded := Drain(c, fed).forwarded;
    assert Run(c, START, input[..1]).forwarded == forwarded by {
      assert Run(c, START, [input[0]]) == Run(c, Drain(c, fed), []);
    }
    assert Stream(input[1..]) == p[c.overlap + 1..];
    assert p[..c.overlap + 1] + p[c.overlap + 1..] == p;
    assert Stream(input) == Padding(c, p) + p;
    OccursAtEnd(Padding(c, p), p);
    LeakAt(p, |Padding(c, p)|, |forwarded|, Stream(input));
  }

  lemma LeakAt(p: Bytes, i: nat, forwarded: nat, stream: Bytes)
    requires OccursAt(stream, i, p) && i < forwarded
    ensures !NoLeak({p}, forwarded, stream)
  {
  }

  lemma OccursAtEnd(pad: Bytes, p: Bytes)
    ensures OccursAt(pad + p, |pad|, p)
  {
  }

  /** Too short after the padding, and the padding cannot start an occurrence. */
  lemma FirstChunkIsClean(c: Config, p: Bytes)
    requires c.window >= 1 && c.overlap >= 1 && |p| > c.overlap + 1
    ensures var w := Padding(c, p) + p[..c.overlap + 1];
            !ContainsAny({p}, w) && |w| >= c.window && |w| == |Padding(c, p)| + c.overlap + 1
  {
    var pad := Padding(c, p);
    var w := pad + p[..c.overlap + 1];
    forall i | 0 <= i <= |w| ensures !OccursAt(w, i, p) {
      if i + |p| <= |w| {
        assert w[i..i + |p|][0] == pad[i] != p[0];
      }
    }
  }

  lemma FirstReleaseForwards(c: Config, s: State)
    requires c.overlap >= 1 && |s.held| >= c.window && !c.inspect(s.held) && |s.held| > c.overlap
    requires c.write(s.writes) == Written
    ensures |Drain(c, s).forwarded| >= |s.forwarded| + |s.held| - c.overlap
  {
    DrainForwards(c, Release(c, s, |s.held| - c.overlap));
  }

  /** The exact bound on the pattern length, for any sizes. */
  lemma MarginIsExact(c: Config, p: Bytes)
    requires c.window >= 1 && c.overlap >= 1 && Exact(c.inspect, {p}) && c.write(0) == Written && |p| > 0
    ensures |p| <= c.overlap + 1 <==>
            forall input: seq<Read>, k :: 0 <= k <= |input| ==>
              NoLeak({p}, |Run(c, START, input[..k]).forwarded|, Stream(input))
  {
    if |p| <= c.overlap + 1 {
      FlagsOfExact(c.inspect, {p});
      forall input: seq<Read>, k | 0 <= k <= |input|
        ensures NoLeak({p}, |Run(c, START, input[..k]).forwarded|, Stream(input))
      {
        NoLeakOverAnyRun(c, {p}, input, k);
      }
    } else {
      LongerPatternLeaks(c, p);
    }
  }

  // ---------------------------------------------------------------------------------------------
  // The canary inspector
  // ---------------------------------------------------------------------------------------------

  /** The bytes of "SEC-CNR-". */
  const CANARY_PREFIX: Bytes := [83, 69, 67, 45, 67, 78, 82, 45]

  /** Looks for the session's canary, if it has one, then for the general prefix. */
  function Detect(data: Bytes, activeCanary: Bytes): bool {
    if activeCanary != [] && Contains(data, activeCanary) then true
    else if Contains(data, CANARY_PREFIX) then true
    else false
  }

  /** What the engine installs: the canary check, then whatever else is scanned for. */
  function InspectWindow(activeCanary: Bytes, dlp: Bytes -> bool): Bytes -> bool {
    window => Detect(window, activeCanary) || dlp(window)
  }

  function CanaryPatterns(activeCanary: Bytes): set<Bytes> {
    (if activeCanary != [] then {activeCanary} else {}) + {CANARY_PREFIX}
  }

  lemma DetectsPatterns(data: Bytes, activeCanary: Bytes)
    ensures Detect(data, activeCanary) <==> ContainsAny(CanaryPatterns(activeCanary), data)
    ensures Detect(data, activeCanary) <==>
            || Contains(data, [83, 69, 67, 45, 67, 78, 82, 45])
            || (activeCanary != [] && Contains(data, activeCanary))
  {
    if activeCanary != [] && Contains(data, activeCanary) {
      assert activeCanary in CanaryPatterns(activeCanary);
    }
    if Contains(data, CANARY_PREFIX) {
      assert CANARY_PREFIX in CanaryPatterns(activeCanary);
    }
  }

  /** The canary fits the margin, or starts with the general prefix, as every generated one does. */
  predicate CanaryFits(overlap: nat, activeCanary: Bytes) {
    |CANARY_PREFIX| <= overlap + 1 && (|activeCanary| <= overlap + 1 || CANARY_PREFIX <= activeCanary)
  }

  /** The byte strings the inspector need only look for: a canary with the general prefix brings nothing new. */
  function NeededPatterns(activeCanary: Bytes): set<Bytes> {
    if CANARY_PREFIX <= activeCanary then {CANARY_PREFIX} else CanaryPatterns(activeCanary)
  }

  lemma PrefixStandsInFor(data: Bytes, activeCanary: Bytes)
    requires CANARY_PREFIX <= activeCanary
    ensures forall i :: OccursAt(data, i, activeCanary) ==> OccursAt(data, i, CANARY_PREFIX)
  {
    forall i | OccursAt(data, i, activeCanary) ensures OccursAt(data, i, CANARY_PREFIX) {
      assert data[i..i + |activeCanary|][..|CANARY_PREFIX|] == data[i..i + |CANARY_PREFIX|];
    }
  }

  lemma DetectsNeeded(data: Bytes, activeCanary: Bytes)
    ensures Detect(data, activeCanary) <==> ContainsAny(NeededPatterns(activeCanary), data)
  {
    DetectsPatterns(data, activeCanary);
    if CANARY_PREFIX <= activeCanary {
      PrefixStandsInFor(data, activeCanary);
      assert CANARY_PREFIX in CanaryPatterns(activeCanary);
      hide OccursAt;
    }
  }

  /**
   No canary leaks, whatever the other scanners say, whatever the sizes configured; nor does anything else that the
   other scanners flag wherever it stands and that fits the margin.
   */
  lemma CanaryNeverLeaks(window: int, overlap: int, write: nat -> WriteResult, activeCanary: Bytes, dlp: Bytes -> bool,
                         secrets: set<Bytes>, input: seq<Read>, k: nat)
    requires CanaryFits(NewConfig(window, overlap, InspectWindow(activeCanary, dlp), write).overlap, activeCanary)
    requires Flags(dlp, secrets)
    requires Fit(secrets, NewConfig(window, overlap, InspectWindow(activeCanary, dlp), write).overlap)
    requires k <= |input|
    ensures var c := NewConfig(window, overlap, InspectWindow(activeCanary, dlp), write);
            NoLeak(CanaryPatterns(activeCanary) + secrets, |Run(c, START, input[..k]).forwarded|, Stream(input))
  {
    var c := NewConfig(window, overlap, InspectWindow(activeCanary, dlp), write);
    var patterns := NeededPatterns(activeCanary) + secrets;
    forall w: Bytes, p | p in patterns && Contains(w, p) ensures c.inspect(w) {
      if p in NeededPatterns(activeCanary) {
        assert ContainsAny(NeededPatterns(activeCanary), w);
        DetectsNeeded(w, activeCanary);
      }
    }
    NoLeakOverAnyRun(c, patterns, input, k);
    if CANARY_PREFIX <= activeCanary {
      PrefixStandsInFor(Stream(input), activeCanary);
    }
  }

  /** Streaming and buffered responses get the same canary verdict. */
  lemma StreamVerdictIsBodyVerdict(window: int, overlap: int, activeCanary: Bytes, input: seq<Read>)
    requires CanaryFits(NewConfig(window, overlap, InspectWindow(activeCanary, _ => false), _ => Written).overlap,
                        activeCanary)
    requires RunsToEof(input)
    ensures var c := NewConfig(window, overlap, InspectWindow(activeCanary, _ => false), _ => Written);
            Run(c, START, input).outcome == Aborted <==> Detect(Stream(input), activeCanary)
  {
    var c := NewConfig(window, overlap, InspectWindow(activeCanary, _ => false), _ => Written);
    forall w: Bytes ensures c.inspect(w) <==> ContainsAny(NeededPatterns(activeCanary), w) {
      DetectsNeeded(w, activeCanary);
    }
    ChunkIndependence(c, NeededPatterns(activeCanary), input);
    DetectsNeeded(Stream(input), activeCanary);
  }
}
