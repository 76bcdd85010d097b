/** The framing of src/core/trapper/tcp_server.cpp: processBuffer and the receive buffers.

    A frame is 0xAA, payload, 0xFF. `Process` is what one call of processBuffer does to a
    buffer; `Run` is an independent definition, an automaton that sees one byte at a time and
    keeps no buffer. Their agreement gives every property of the deframer. */
module TcpDeframer {
  import opened Basics

  const HEAD: Byte := 0xAA
  const TAIL: Byte := 0xFF

  /** std::string::find of a byte from a position; the length stands for npos. */
  function Find(s: seq<Byte>, b: Byte, from: nat): (k: nat)
    requires from <= |s|
    ensures from <= k <= |s|
    ensures forall i :: from <= i < k ==> s[i] != b
    ensures k < |s| ==> s[k] == b
    decreases |s| - from
  {
    if from == |s| || s[from] == b then from else Find(s, b, from + 1)
  }

  /** No byte of `s` is `b`. */
  predicate Free(s: seq<Byte>, b: Byte) {
    forall i :: 0 <= i < |s| ==> s[i] != b
  }

  datatype Result = Result(frames: seq<seq<Byte>>, rest: seq<Byte>)

  function Process(buffer: seq<Byte>): Result
    decreases |buffer|
  {
    var head := Find(buffer, HEAD, 0);
    if head == |buffer| then Result([], []) else
      var b := buffer[head..];
      var tail := Find(b, TAIL, 1);
      if tail == |b| then Result([], b) else
        var r := Process(b[tail + 1..]);
        Result([b[1..tail]] + r.frames, r.rest)
  }

  // ---------- The byte automaton ----------

  datatype State = Idle | InFrame(payload: seq<Byte>)

  function Next(st: State, b: Byte): (State, seq<seq<Byte>>) {
    match st
    case Idle => (if b == HEAD then InFrame([]) else Idle, [])
    case InFrame(p) => if b == TAIL then (Idle, [p]) else (InFrame(p + [b]), [])
  }

  function Run(st: State, bytes: seq<Byte>): (State, seq<seq<Byte>>)
    decreases |bytes|
  {
    if bytes == [] then (st, []) else
      var (st1, out) := Next(st, bytes[0]);
      var (st2, more) := Run(st1, bytes[1..]);
      (st2, out + more)
  }

  lemma {:induction false} RunConcat(st: State, a: seq<Byte>, b: seq<Byte>)
    ensures var (st1, x) := Run(st, a); var (st2, y) := Run(st1, b);
            Run(st, a + b) == (st2, x + y)
    decreases |a|
  {
    if a == [] {
      assert a + b == b;
      assert [] + Run(st, b).1 == Run(st, b).1;
    } else {
      var (st1, out) := Next(st, a[0]);
      assert (a + b)[1..] == a[1..] + b;
      RunConcat(st1, a[1..], b);
      var (st2, x) := Run(st1, a[1..]);
      assert out + (x + Run(st2, b).1) == out + x + Run(st2, b).1;
    }
  }

  lemma {:induction false} SkipNoise(noise: seq<Byte>)
    requires Free(noise, HEAD)
    ensures Run(Idle, noise) == (Idle, [])
    decreases |noise|
  {
    if noise != [] {
      assert Free(noise[1..], HEAD);
      SkipNoise(noise[1..]);
      var nothing: seq<seq<Byte>> := [];
      assert nothing + nothing == nothing;
    }
  }

  lemma {:induction false} CollectPayload(p: seq<Byte>, x: seq<Byte>)
    requires Free(x, TAIL)
    ensures Run(InFrame(p), x) == (InFrame(p + x), [])
    decreases |x|
  {
    if x == [] {
      assert p + x == p;
    } else {
      assert Free(x[1..], TAIL);
      CollectPayload(p + [x[0]], x[1..]);
      var nothing: seq<seq<Byte>> := [];
      assert nothing + nothing == nothing;
      assert p + [x[0]] + x[1..] == p + x;
    }
  }

  lemma RunOne(st: State, b: Byte)
    ensures Run(st, [b]) == Next(st, b)
  {
    assert [b][1..] == [];
    assert Next(st, b).1 + [] == Next(st, b).1;
  }

  lemma OneFrame(p: seq<Byte>)
    requires Free(p, TAIL)
    ensures Run(Idle, [HEAD] + p + [TAIL]) == (Idle, [p])
  {
    hide Run;
    RunOpenFrame(p);
    RunOne(InFrame(p), TAIL);
    RunConcat(Idle, [HEAD] + p, [TAIL]);
    var nothing: seq<seq<Byte>> := [];
    assert nothing + nothing == nothing && nothing + [p] == [p];
  }

  /** What the buffer holds between calls, for each automaton state. */
  function Pending(st: State): seq<Byte> {
    match st
    case Idle => []
    case InFrame(p) => [HEAD] + p
  }

  lemma FrameBytes(b: seq<Byte>, tail: nat)
    requires 1 <= tail < |b| && b[0] == HEAD && b[tail] == TAIL
    ensures b == ([HEAD] + b[1..tail] + [TAIL]) + b[tail + 1..]
  {
  }

  lemma FreeSlice(s: seq<Byte>, b: Byte, from: nat, to: nat)
    requires from <= to <= |s| && forall i :: from <= i < to ==> s[i] != b
    ensures Free(s[from..to], b)
  {
  }

  /** The first frame of a buffer, cut out. */
  lemma CutFrame(buffer: seq<Byte>, head: nat, tail: nat)
    requires head == Find(buffer, HEAD, 0) && head < |buffer|
    requires tail == Find(buffer[head..], TAIL, 1) && tail < |buffer| - head
    ensures var n, f, after := buffer[..head], buffer[head..][1..tail], buffer[head..][tail + 1..];
            Free(n, HEAD) && Free(f, TAIL) && buffer == n + ([HEAD] + f + [TAIL]) + after
  {
    hide Find, Free;
    var b := buffer[head..];
    FreeSlice(buffer, HEAD, 0, head);
    FreeSlice(b, TAIL, 1, tail);
    FrameBytes(b, tail);
    assert buffer[0..head] == buffer[..head] && buffer == buffer[..head] + b;
    var frame := [HEAD] + b[1..tail] + [TAIL];
    assert buffer[..head] + (frame + b[tail + 1..]) == buffer[..head] + frame + b[tail + 1..];
  }

  /** One call of processBuffer does what the automaton does byte by byte. */
  lemma {:induction false} ProcessIsAutomaton(buffer: seq<Byte>)
    ensures var (st, frames) := Run(Idle, buffer);
            Process(buffer) == Result(frames, Pending(st)) && (st.InFrame? ==> Free(st.payload, TAIL))
    decreases |buffer|
  {
    hide Run, Find;
    var head := Find(buffer, HEAD, 0);
    var n, b := buffer[..head], buffer[head..];
    assert buffer[0..head] == n && buffer == n + b;
    SkipNoise(n);
    if b == [] {
      assert buffer == n;
    } else {
      var tail := Find(b, TAIL, 1);
      if tail == |b| {
        RunNoiseThen(n, b);
        RunOpenFrame(b[1..tail]);
        assert b == [HEAD] + b[1..tail];
      } else {
        var p, after := b[1..tail], b[tail + 1..];
        CutFrame(buffer, head, tail);
        ProcessIsAutomaton(after);
        RunFrameThen(n, p, after);
      }
    }
  }

  lemma RunNoiseThen(n: seq<Byte>, b: seq<Byte>)
    requires Free(n, HEAD)
    ensures Run(Idle, n + b) == Run(Idle, b)
  {
    hide Run;
    SkipNoise(n);
    RunConcat(Idle, n, b);
    assert [] + Run(Idle, b).1 == Run(Idle, b).1;
  }

  lemma RunOpenFrame(p: seq<Byte>)
    requires Free(p, TAIL)
    ensures Run(Idle, [HEAD] + p) == (InFrame(p), [])
  {
    hide Run;
    RunOne(Idle, HEAD);
    CollectPayload([], p);
    RunConcat(Idle, [HEAD], p);
    assert [] + p == p;
    var nothing: seq<seq<Byte>> := [];
    assert nothing + nothing == nothing;
  }

  lemma RunFrameThen(n: seq<Byte>, p: seq<Byte>, after: seq<Byte>)
    requires Free(n, HEAD) && Free(p, TAIL)
    ensures var (st, frames) := Run(Idle, after);
            Run(Idle, n + ([HEAD] + p + [TAIL]) + after) == (st, [p] + frames)
  {
    hide Run;
    var frame := [HEAD] + p + [TAIL];
    OneFrame(p);
    RunConcat(Idle, frame, after);
    RunNoiseThen(n, frame + after);
    assert n + frame + after == n + (frame + after);
  }

  lemma ResumePending(st: State)
    requires st.InFrame? ==> Free(st.payload, TAIL)
    ensures Run(Idle, Pending(st)) == (st, [])
  {
    if st.InFrame? {
      RunOpenFrame(st.payload);
    }
  }

  // ---------- Chunking independence ----------

  /** Appending to the leftover and processing again is processing the whole stream at once. */
  lemma Resume(a: seq<Byte>, b: seq<Byte>)
    ensures var first := Process(a); var second := Process(first.rest + b);
            Process(a + b) == Result(first.frames + second.frames, second.rest)
  {
    hide Run, Process;
    ProcessIsAutomaton(a);
    ProcessIsAutomaton(a + b);
    RunConcat(Idle, a, b);
    var (st, frames) := Run(Idle, a);
    ProcessIsAutomaton(Pending(st) + b);
    ResumePending(st);
    RunConcat(Idle, Pending(st), b);
    assert [] + Run(st, b).1 == Run(st, b).1;
  }

  /** One append and one processBuffer per piece. */
  function Feed(buffer: seq<Byte>, pieces: seq<seq<Byte>>): Result
    decreases |pieces|
  {
    if pieces == [] then Result([], buffer) else
      var r := Process(buffer + pieces[0]);
      var more := Feed(r.rest, pieces[1..]);
      Result(r.frames + more.frames, more.rest)
  }

  lemma {:induction false} FeedFrom(stream: seq<Byte>, pieces: seq<seq<Byte>>)
    ensures var start := Process(stream); var fed := Feed(start.rest, pieces);
            Process(stream + Flatten(pieces)) == Result(start.frames + fed.frames, fed.rest)
    decreases |pieces|
  {
    hide Process;
    var start := Process(stream);
    if pieces == [] {
      assert stream + Flatten(pieces) == stream;
      assert start.frames + [] == start.frames;
    } else {
      var next := stream + pieces[0];
      Resume(stream, pieces[0]);
      FeedFrom(next, pieces[1..]);
      assert stream + Flatten(pieces) == next + Flatten(pieces[1..]);
      var r := Process(start.rest + pieces[0]);
      var more := Feed(r.rest, pieces[1..]);
      assert start.frames + r.frames + more.frames == start.frames + (r.frames + more.frames);
    }
  }

  /** However a stream is cut into pieces, the same frames are delivered and the same bytes are
      left over as when it arrives whole. */
  lemma ChunkingIndependence(pieces: seq<seq<Byte>>)
    ensures Feed([], pieces) == Process(Flatten(pieces))
  {
    assert Process([]) == Result([], []);
    FeedFrom([], pieces);
    assert [] + Flatten(pieces) == Flatten(pieces);
    assert [] + Feed([], pieces).frames == Feed([], pieces).frames;
  }

  // ---------- Byte accounting and the round trip ----------

  /** Frames separated by noise: one more stretch of noise than frames. */
  function Stream(noise: seq<seq<Byte>>, frames: seq<seq<Byte>>): seq<Byte>
    requires |noise| == |frames| + 1
    decreases |frames|
  {
    if frames == [] then noise[0]
    else noise[0] + ([HEAD] + frames[0] + [TAIL]) + Stream(noise[1..], frames[1..])
  }

  /** `buffer` is noise, complete frames and a leftover, in order, with no byte unaccounted for. */
  ghost predicate Partition(buffer: seq<Byte>, noise: seq<seq<Byte>>, frames: seq<seq<Byte>>, rest: seq<Byte>) {
    && |noise| == |frames| + 1
    && (forall k :: 0 <= k < |noise| ==> Free(noise[k], HEAD))
    && (forall k :: 0 <= k < |frames| ==> Free(frames[k], TAIL))
    && (rest == [] || (rest[0] == HEAD && Free(rest, TAIL)))
    && buffer == Stream(noise, frames) + rest
  }

  /** The noise processBuffer discards. */
  function Noise(buffer: seq<Byte>): seq<seq<Byte>>
    decreases |buffer|
  {
    var head := Find(buffer, HEAD, 0);
    var b := buffer[head..];
    if b == [] then [buffer] else
      var tail := Find(b, TAIL, 1);
      if tail == |b| then [buffer[..head]] else [buffer[..head]] + Noise(b[tail + 1..])
  }

  lemma PartitionExtends(n: seq<Byte>, f: seq<Byte>, buffer: seq<Byte>, noise: seq<seq<Byte>>, frames: seq<seq<Byte>>, rest: seq<Byte>)
    requires Free(n, HEAD) && Free(f, TAIL) && Partition(buffer, noise, frames, rest)
    ensures Partition(n + ([HEAD] + f + [TAIL]) + buffer, [n] + noise, [f] + frames, rest)
  {
    assert ([n] + noise)[1..] == noise && ([f] + frames)[1..] == frames;
    var first := n + ([HEAD] + f + [TAIL]);
    assert Stream([n] + noise, [f] + frames) == first + Stream(noise, frames);
    assert first + (Stream(noise, frames) + rest) == first + Stream(noise, frames) + rest;
  }

  lemma NoFrame(buffer: seq<Byte>, head: nat)
    requires head == Find(buffer, HEAD, 0)
    requires head < |buffer| ==> Find(buffer[head..], TAIL, 1) == |buffer| - head
    ensures Partition(buffer, [buffer[..head]], [], buffer[head..])
  {
    hide Find, Partition, Free;
    var n, b := buffer[..head], buffer[head..];
    assert buffer == n + b;
    FreeBefore(buffer, HEAD, 0, head);
    if head < |buffer| {
      FreeBefore(b, TAIL, 1, |b|);
    }
    Leftover(n, b);
  }

  lemma FreeBefore(s: seq<Byte>, b: Byte, from: nat, k: nat)
    requires from <= |s| && k == Find(s, b, from)
    ensures Free(s[from..k], b) && (from == 0 ==> s[from..k] == s[..k])
    ensures k < |s| ==> s[k] == b && s[k..][0] == b
  {
    hide Find;
  }

  lemma Leftover(n: seq<Byte>, b: seq<Byte>)
    requires Free(n, HEAD) && (b == [] || (b[0] == HEAD && Free(b[1..|b|], TAIL)))
    ensures Partition(n + b, [n], [], b)
  {
    if b != [] {
      assert b == [b[0]] + b[1..|b|];
    }
  }

  lemma {:induction false} EveryByteAccounted(buffer: seq<Byte>)
    ensures Partition(buffer, Noise(buffer), Process(buffer).frames, Process(buffer).rest)
    decreases |buffer|
  {
    hide Find, Partition;
    var head := Find(buffer, HEAD, 0);
    if head == |buffer| {
      NoFrame(buffer, head);
      assert buffer[..head] == buffer;
    } else {
      var tail := Find(buffer[head..], TAIL, 1);
      if tail == |buffer[head..]| {
        NoFrame(buffer, head);
      } else {
        var n, f, after := buffer[..head], buffer[head..][1..tail], buffer[head..][tail + 1..];
        CutFrame(buffer, head, tail);
        EveryByteAccounted(after);
        PartitionExtends(n, f, after, Noise(after), Process(after).frames, Process(after).rest);
      }
    }
  }

  lemma {:induction false} StreamRuns(noise: seq<seq<Byte>>, frames: seq<seq<Byte>>)
    requires |noise| == |frames| + 1
    requires forall k :: 0 <= k < |noise| ==> Free(noise[k], HEAD)
    requires forall k :: 0 <= k < |frames| ==> Free(frames[k], TAIL)
    ensures Run(Idle, Stream(noise, frames)) == (Idle, frames)
    decreases |frames|
  {
    hide Run, Next;
    if frames == [] {
      SkipNoise(noise[0]);
    } else {
      StreamRuns(noise[1..], frames[1..]);
      RunFrameThen(noise[0], frames[0], Stream(noise[1..], frames[1..]));
      assert [frames[0]] + frames[1..] == frames;
    }
  }

  /** The frames and leftover are the only ones a stream can be partitioned into: any stream of
      tail-free payloads between head-free noise is delivered exactly. */
  lemma PartitionIsDelivered(buffer: seq<Byte>, noise: seq<seq<Byte>>, frames: seq<seq<Byte>>, rest: seq<Byte>)
    requires Partition(buffer, noise, frames, rest)
    ensures Process(buffer) == Result(frames, rest)
  {
    hide Run, Process;
    StreamRuns(noise, frames);
    RunConcat(Idle, Stream(noise, frames), rest);
    ProcessIsAutomaton(buffer);
    var st := if rest == [] then Idle else InFrame(rest[1..]);
    assert Pending(st) == rest;
    ResumePending(st);
    assert frames + [] == frames;
  }

  lemma ProcessIffPartition(buffer: seq<Byte>, r: Result)
    ensures Process(buffer) == r <==> exists noise :: Partition(buffer, noise, r.frames, r.rest)
  {
    EveryByteAccounted(buffer);
    if noise :| Partition(buffer, noise, r.frames, r.rest) {
      PartitionIsDelivered(buffer, noise, r.frames, r.rest);
    }
  }

  // ---------- The server ----------

  datatype Server = Server(buffers: map<int, seq<Byte>>, delivered: seq<(int, seq<Byte>)>)

  function Tag(fd: int, frames: seq<seq<Byte>>): (tagged: seq<(int, seq<Byte>)>)
    ensures |tagged| == |frames|
  {
    if frames == [] then [] else [(fd, frames[0])] + Tag(fd, frames[1..])
  }

  lemma {:induction false} TagConcat(fd: int, a: seq<seq<Byte>>, b: seq<seq<Byte>>)
    ensures Tag(fd, a + b) == Tag(fd, a) + Tag(fd, b)
    decreases |a|
  {
    if a == [] {
      assert a + b == b;
    } else {
      assert (a + b)[1..] == a[1..] + b;
      TagConcat(fd, a[1..], b);
    }
  }

  lemma NoTag(fd: int)
    ensures Tag(fd, []) == []
  {
  }

  lemma TagOneMore(fd: int, frames: seq<seq<Byte>>, data: seq<Byte>)
    ensures Tag(fd, frames + [data]) == Tag(fd, frames) + [(fd, data)]
  {
    TagConcat(fd, frames, [data]);
    assert Tag(fd, [data]) == [(fd, data)];
  }

  /** operator[] of the buffer map: a missing entry is an empty string. */
  function Buffer(sv: Server, fd: int): seq<Byte> {
    if fd in sv.buffers then sv.buffers[fd] else []
  }

  function ProcessFd(sv: Server, fd: int, callback: bool): Server {
    var r := Process(Buffer(sv, fd));
    Server(sv.buffers[fd := r.rest], if callback then sv.delivered + Tag(fd, r.frames) else sv.delivered)
  }

  lemma Overwrite(m: map<int, seq<Byte>>, fd: int, a: seq<Byte>, b: seq<Byte>)
    ensures m[fd := a][fd := b] == m[fd := b]
  {
  }

  lemma EnsureEntry(sv: Server, fd: int, callback: bool)
    requires fd !in sv.buffers
    ensures ProcessFd(sv.(buffers := sv.buffers[fd := []]), fd, callback) == ProcessFd(sv, fd, callback)
  {
    Overwrite(sv.buffers, fd, [], Process([]).rest);
  }

  lemma SameEntry(m: map<int, seq<Byte>>, fd: int)
    requires fd in m
    ensures m[fd := m[fd]] == m
  {
  }

  /** Dropping the noise before the first head byte does not change the outcome. */
  lemma ProcessFdErase(sv: Server, fd: int, callback: bool, head: nat)
    requires fd in sv.buffers && head == Find(sv.buffers[fd], HEAD, 0) && head < |sv.buffers[fd]|
    ensures ProcessFd(Server(sv.buffers[fd := sv.buffers[fd][head..]], sv.delivered), fd, callback) == ProcessFd(sv, fd, callback)
  {
    hide Tag;
    var b := sv.buffers[fd][head..];
    assert Find(b, HEAD, 0) == 0 && b[0..] == b;
    Overwrite(sv.buffers, fd, b, Process(b).rest);
  }

  lemma ProcessFdNoHead(sv: Server, fd: int, callback: bool)
    requires fd in sv.buffers && Find(sv.buffers[fd], HEAD, 0) == |sv.buffers[fd]|
    ensures ProcessFd(sv, fd, callback) == Server(sv.buffers[fd := []], sv.delivered)
  {
    NoTag(fd);
    assert sv.delivered + [] == sv.delivered;
  }

  lemma ProcessFdNoTail(sv: Server, fd: int, callback: bool)
    requires fd in sv.buffers && sv.buffers[fd] != [] && sv.buffers[fd][0] == HEAD
    requires Find(sv.buffers[fd], TAIL, 1) == |sv.buffers[fd]|
    ensures ProcessFd(sv, fd, callback) == sv
  {
    var b := sv.buffers[fd];
    assert Find(b, HEAD, 0) == 0 && b[0..] == b;
    NoTag(fd);
    assert sv.delivered + [] == sv.delivered;
    SameEntry(sv.buffers, fd);
  }

  lemma ProcessFdCut(sv: Server, fd: int, callback: bool, tail: nat)
    requires fd in sv.buffers && sv.buffers[fd] != [] && sv.buffers[fd][0] == HEAD
    requires tail == Find(sv.buffers[fd], TAIL, 1) && tail < |sv.buffers[fd]|
    ensures var b := sv.buffers[fd];
            ProcessFd(sv, fd, callback) == ProcessFd(
              Server(sv.buffers[fd := b[tail + 1..]], if callback then sv.delivered + [(fd, b[1..tail])] else sv.delivered),
              fd, callback)
  {
    var b := sv.buffers[fd];
    assert Find(b, HEAD, 0) == 0 && b[0..] == b;
    ProcessFdFrame(sv, fd, callback, b[1..tail], b[tail + 1..]);
  }

  lemma ProcessFdFrame(sv: Server, fd: int, callback: bool, data: seq<Byte>, after: seq<Byte>)
    requires var r := Process(after);
             fd in sv.buffers && Process(sv.buffers[fd]) == Result([data] + r.frames, r.rest)
    ensures ProcessFd(sv, fd, callback) == ProcessFd(
              Server(sv.buffers[fd := after], if callback then sv.delivered + [(fd, data)] else sv.delivered),
              fd, callback)
  {
    hide Process, Tag;
    var r := Process(after);
    Overwrite(sv.buffers, fd, after, r.rest);
    TagConcat(fd, [data], r.frames);
    TagOneMore(fd, [], data);
    NoTag(fd);
    assert [] + [data] == [data];
    assert sv.delivered + ([(fd, data)] + Tag(fd, r.frames)) == sv.delivered + [(fd, data)] + Tag(fd, r.frames);
  }

  datatype ReadEnd = EndOfFile | ReadError

  datatype ReadOutcome = ConnectionClosed | LengthError

  lemma AppendMore(start: map<int, seq<Byte>>, now: map<int, seq<Byte>>, fd: int, pieces: seq<seq<Byte>>, i: nat)
    requires i < |pieces|
    requires var got := (if fd in start then start[fd] else []) + Flatten(pieces[..i]);
             now == if i == 0 then start else start[fd := got]
    ensures var held := if fd in now then now[fd] else [];
            var got := (if fd in start then start[fd] else []) + Flatten(pieces[..i + 1]);
            now[fd := held + pieces[i]] == start[fd := got]
  {
    var first := if fd in start then start[fd] else [];
    FlattenConcat(pieces[..i], [pieces[i]]);
    assert pieces[..i + 1] == pieces[..i] + [pieces[i]];
    assert Flatten([pieces[i]]) == pieces[i];
    assert first + Flatten(pieces[..i]) + pieces[i] == first + (Flatten(pieces[..i]) + pieces[i]);
    assert i == 0 ==> first + Flatten(pieces[..0]) == first;
  }

  class TcpServer {
    var sv: Server
    var hasCallback: bool

    constructor ()
      ensures sv == Server(map[], []) && !hasCallback
    {
      sv, hasCallback := Server(map[], []), false;
    }

    method HandleAccept(fd: int)
      modifies this`sv
      ensures sv == old(sv).(buffers := old(sv).buffers[fd := []])
    {
      sv := sv.(buffers := sv.buffers[fd := []]);
    }

    method CloseConnection(fd: int)
      modifies this`sv
      ensures sv == old(sv).(buffers := old(sv).buffers - {fd})
    {
      sv := sv.(buffers := sv.buffers - {fd});
    }

    /** recv_buffers_[fd].append(buf, n). */
    method Append(fd: int, bytes: seq<Byte>)
      modifies this`sv
      ensures sv == old(sv).(buffers := old(sv).buffers[fd := Buffer(old(sv), fd) + bytes])
    {
      sv := sv.(buffers := sv.buffers[fd := Buffer(sv, fd) + bytes]);
    }

    method ProcessBuffer(fd: int)
      modifies this`sv
      ensures sv == ProcessFd(old(sv), fd, hasCallback)
    {
      hide *;
      ghost var goal := ProcessFd(sv, fd, hasCallback);
      if fd !in sv.buffers {
        EnsureEntry(sv, fd, hasCallback);
        sv := sv.(buffers := sv.buffers[fd := []]);
      }
      while true
        invariant fd in sv.buffers && ProcessFd(sv, fd, hasCallback) == goal
        decreases if fd in sv.buffers then |sv.buffers[fd]| else 0
      {
        var head := Find(sv.buffers[fd], HEAD, 0);
        if head == |sv.buffers[fd]| {
          ProcessFdNoHead(sv, fd, hasCallback);
          sv := sv.(buffers := sv.buffers[fd := []]);
          return;
        }
        if head > 0 {
          ProcessFdErase(sv, fd, hasCallback, head);
          sv := sv.(buffers := sv.buffers[fd := sv.buffers[fd][head..]]);
        }
        var buffer := sv.buffers[fd];
        var tail := Find(buffer, TAIL, 1);
        if tail == |buffer| {
          ProcessFdNoTail(sv, fd, hasCallback);
          return;
        }
        ProcessFdCut(sv, fd, hasCallback, tail);
        var frame := buffer[..tail + 1];
        sv := sv.(buffers := sv.buffers[fd := buffer[tail + 1..]]);
        var data := frame[1..|frame| - 1];
        assert data == buffer[1..tail];
        if hasCallback {
          sv := sv.(delivered := sv.delivered + [(fd, data)]);
        }
      }
    }

    /** handleRead: pieces of at most 1024 bytes arrive, then read returns 0 or -1. The result is
        kept in a size_t, so -1 is a huge length and enters the loop body, the test for a negative
        result never holds, and processBuffer is never reached: nothing is ever delivered. */
    method HandleRead(fd: int, pieces: seq<seq<Byte>>, end: ReadEnd) returns (outcome: ReadOutcome)
      requires forall k :: 0 <= k < |pieces| ==> 0 < |pieces[k]| <= 1024
      modifies this`sv
      ensures sv.delivered == old(sv).delivered
      ensures end.EndOfFile? ==> outcome == ConnectionClosed && sv.buffers == old(sv).buffers - {fd}
      ensures end.ReadError? ==> outcome == LengthError
      ensures end.ReadError? && pieces != [] ==> sv.buffers == old(sv).buffers[fd := Buffer(old(sv), fd) + Flatten(pieces)]
    {
      ghost var start := sv;
      var i := 0;
      var n: int;
      while true
        invariant 0 <= i <= |pieces| && sv.delivered == start.delivered
        invariant sv.buffers == if i == 0 then start.buffers else start.buffers[fd := Buffer(start, fd) + Flatten(pieces[..i])]
        decreases |pieces| - i
      {
        var result := if i < |pieces| then |pieces[i]| else if end.EndOfFile? then 0 else -1;
        n := result % 0x1_0000_0000_0000_0000;
        if !(n > 0) {
          break;
        }
        if n > 1024 {
          // append(buf, n) refuses a length above max_size
          assert pieces[..i] == pieces;
          return LengthError;
        }
        AppendMore(start.buffers, sv.buffers, fd, pieces, i);
        Append(fd, pieces[i]);
        i := i + 1;
      }
      if n < 0 {
        // the tests of errno
        assert false;
      }
      if n == 0 {
        assert start.buffers[fd := Buffer(start, fd) + Flatten(pieces[..i])] - {fd} == start.buffers - {fd};
        CloseConnection(fd);
        return ConnectionClosed;
      }
      // processBuffer(fd)
      assert false;
    }
  }

  // ---------- Connections do not interfere ----------

  datatype Event = Accept(fd: int) | Receive(fd: int, bytes: seq<Byte>) | Close(fd: int)

  /** Receive is an append followed by processBuffer. */
  function Handle(sv: Server, e: Event, callback: bool): Server {
    match e
    case Accept(fd) => sv.(buffers := sv.buffers[fd := []])
    case Close(fd) => sv.(buffers := sv.buffers - {fd})
    case Receive(fd, bytes) => ProcessFd(sv.(buffers := sv.buffers[fd := Buffer(sv, fd) + bytes]), fd, callback)
  }

  function HandleAll(sv: Server, events: seq<Event>): Server
    decreases |events|
  {
    if events == [] then sv else HandleAll(Handle(sv, events[0], true), events[1..])
  }

  function Of(events: seq<Event>, fd: int): seq<Event>
    decreases |events|
  {
    if events == [] then [] else (if events[0].fd == fd then [events[0]] else []) + Of(events[1..], fd)
  }

  /** The payloads delivered on one connection. */
  function On(delivered: seq<(int, seq<Byte>)>, fd: int): seq<seq<Byte>>
    decreases |delivered|
  {
    if delivered == [] then [] else (if delivered[0].0 == fd then [delivered[0].1] else []) + On(delivered[1..], fd)
  }

  lemma {:induction false} OnConcat(a: seq<(int, seq<Byte>)>, b: seq<(int, seq<Byte>)>, fd: int)
    ensures On(a + b, fd) == On(a, fd) + On(b, fd)
    decreases |a|
  {
    if a == [] {
      assert a + b == b;
    } else {
      assert (a + b)[1..] == a[1..] + b;
      OnConcat(a[1..], b, fd);
      var first := if a[0].0 == fd then [a[0].1] else [];
      assert first + (On(a[1..], fd) + On(b, fd)) == first + On(a[1..], fd) + On(b, fd);
    }
  }

  lemma {:induction false} OnTag(tag: int, frames: seq<seq<Byte>>, fd: int)
    ensures On(Tag(tag, frames), fd) == if tag == fd then frames else []
    decreases |frames|
  {
    if frames != [] {
      OnTag(tag, frames[1..], fd);
      assert frames == [frames[0]] + frames[1..];
    }
  }

  /** Two servers look alike on a connection. */
  ghost predicate Alike(a: Server, b: Server, fd: int) {
    && (fd in a.buffers <==> fd in b.buffers)
    && Buffer(a, fd) == Buffer(b, fd)
    && On(a.delivered, fd) == On(b.delivered, fd)
  }

  lemma HandleAlike(a: Server, b: Server, e: Event, fd: int)
    requires Alike(a, b, fd)
    ensures e.fd == fd ==> Alike(Handle(a, e, true), Handle(b, e, true), fd)
    ensures e.fd != fd ==> Alike(Handle(a, e, true), b, fd)
  {
    hide Process, Tag, On;
    if e.Receive? {
      var a', b' := a.(buffers := a.buffers[e.fd := Buffer(a, e.fd) + e.bytes]), b.(buffers := b.buffers[e.fd := Buffer(b, e.fd) + e.bytes]);
      var ra, rb := Process(Buffer(a', e.fd)), Process(Buffer(b', e.fd));
      OnConcat(a.delivered, Tag(e.fd, ra.frames), fd);
      OnConcat(b.delivered, Tag(e.fd, rb.frames), fd);
      OnTag(e.fd, ra.frames, fd);
      OnTag(e.fd, rb.frames, fd);
      assert On(a.delivered, fd) + [] == On(a.delivered, fd);
    }
  }

  /** What a connection is sent and what it has left over depend on its own events only. */
  lemma {:induction false} ConnectionsIndependent(a: Server, b: Server, events: seq<Event>, fd: int)
    requires Alike(a, b, fd)
    ensures Alike(HandleAll(a, events), HandleAll(b, Of(events, fd)), fd)
    decreases |events|
  {
    hide Handle, Alike;
    if events != [] {
      var e := events[0];
      HandleAlike(a, b, e, fd);
      if e.fd == fd {
        assert Of(events, fd)[1..] == Of(events[1..], fd);
        ConnectionsIndependent(Handle(a, e, true), Handle(b, e, true), events[1..], fd);
      } else {
        assert Of(events, fd) == Of(events[1..], fd);
        ConnectionsIndependent(Handle(a, e, true), b, events[1..], fd);
      }
    }
  }

  function Receives(fd: int, pieces: seq<seq<Byte>>): seq<Event> {
    if pieces == [] then [] else [Receive(fd, pieces[0])] + Receives(fd, pieces[1..])
  }

  lemma HandleFeedUnfold(sv: Server, fd: int, pieces: seq<seq<Byte>>)
    ensures pieces == [] ==> HandleAll(sv, Receives(fd, pieces)) == sv && Feed(Buffer(sv, fd), pieces) == Result([], Buffer(sv, fd))
    ensures pieces != [] ==>
      && HandleAll(sv, Receives(fd, pieces)) == HandleAll(Handle(sv, Receive(fd, pieces[0]), true), Receives(fd, pieces[1..]))
      && (var r := Process(Buffer(sv, fd) + pieces[0]); var more := Feed(r.rest, pieces[1..]);
          Feed(Buffer(sv, fd), pieces) == Result(r.frames + more.frames, more.rest))
  {
    hide Handle, Process;
    if pieces != [] {
      assert Receives(fd, pieces)[1..] == Receives(fd, pieces[1..]);
    }
  }

  lemma {:induction false} ReceivesFeed(sv: Server, fd: int, pieces: seq<seq<Byte>>)
    ensures var end := HandleAll(sv, Receives(fd, pieces)); var fed := Feed(Buffer(sv, fd), pieces);
            && Buffer(end, fd) == fed.rest
            && On(end.delivered, fd) == On(sv.delivered, fd) + fed.frames
    decreases |pieces|
  {
    hide Process, Tag, On, HandleAll, Feed;
    HandleFeedUnfold(sv, fd, pieces);
    if pieces == [] {
      assert On(sv.delivered, fd) + [] == On(sv.delivered, fd);
    } else {
      var next := Handle(sv, Receive(fd, pieces[0]), true);
      var r := Process(Buffer(sv, fd) + pieces[0]);
      assert Receives(fd, pieces)[1..] == Receives(fd, pieces[1..]);
      OnConcat(sv.delivered, Tag(fd, r.frames), fd);
      OnTag(fd, r.frames, fd);
      assert On(next.delivered, fd) == On(sv.delivered, fd) + r.frames && Buffer(next, fd) == r.rest;
      ReceivesFeed(next, fd, pieces[1..]);
      var more := Feed(r.rest, pieces[1..]);
      assert Feed(Buffer(sv, fd), pieces) == Result(r.frames + more.frames, more.rest);
      assert On(sv.delivered, fd) + r.frames + more.frames == On(sv.delivered, fd) + (r.frames + more.frames);
    }
  }

  lemma {:induction false} HandleAllConcat(sv: Server, a: seq<Event>, b: seq<Event>)
    ensures HandleAll(sv, a + b) == HandleAll(HandleAll(sv, a), b)
    decreases |a|
  {
    hide Handle;
    if a == [] {
      assert a + b == b;
    } else {
      assert (a + b)[1..] == a[1..] + b;
      HandleAllConcat(Handle(sv, a[0], true), a[1..], b);
    }
  }

  lemma HandleFirst(sv: Server, e: Event, later: seq<Event>)
    ensures HandleAll(sv, [e] + later) == HandleAll(Handle(sv, e, true), later)
  {
    hide Handle;
    assert ([e] + later)[1..] == later;
  }

  /** A connection on its own, from a clean start. */
  lemma OwnDelivery(sv: Server, fd: int, clean: Event, pieces: seq<seq<Byte>>)
    requires clean == Accept(fd) || clean == Close(fd)
    ensures var end := HandleAll(sv, [clean] + Receives(fd, pieces)); var r := Process(Flatten(pieces));
            On(end.delivered, fd) == On(sv.delivered, fd) + r.frames && Buffer(end, fd) == r.rest
  {
    hide Process, Feed, HandleAll, On, Receives;
    var cleared := Handle(sv, clean, true);
    HandleFirst(sv, clean, Receives(fd, pieces));
    ReceivesFeed(cleared, fd, pieces);
    ChunkingIndependence(pieces);
    assert Buffer(cleared, fd) == [] && cleared.delivered == sv.delivered;
  }

  /** In any interleaving of any connections, one that was accepted, or closed, and then received
      `pieces` gets exactly the frames of its own byte stream since then and keeps exactly its own
      leftover, whatever an earlier connection on the same descriptor left behind. */
  lemma ConnectionDelivery(events: seq<Event>, fd: int, earlier: seq<Event>, clean: Event, pieces: seq<seq<Byte>>)
    requires Of(events, fd) == earlier + [clean] + Receives(fd, pieces)
    requires clean == Accept(fd) || clean == Close(fd)
    ensures var start := Server(map[], []); var end := HandleAll(start, events); var r := Process(Flatten(pieces));
            && On(end.delivered, fd) == On(HandleAll(start, earlier).delivered, fd) + r.frames
            && Buffer(end, fd) == r.rest
  {
    hide Process, HandleAll, On, Handle, Receives, Of;
    var start := Server(map[], []);
    ConnectionsIndependent(start, start, events, fd);
    var own := [clean] + Receives(fd, pieces);
    assert Of(events, fd) == earlier + own;
    HandleAllConcat(start, earlier, own);
    OwnDelivery(HandleAll(start, earlier), fd, clean, pieces);
  }

  /** Without a callback the frames are taken out of the buffer all the same, and dropped. */
  lemma WithoutCallback(sv: Server, fd: int)
    ensures ProcessFd(sv, fd, false) == ProcessFd(sv, fd, true).(delivered := sv.delivered)
  {
  }
  /** For one: a stray byte, the payload 10 as a frame, and the beginning of another frame. */
  lemma FramingExample()
    ensures Process([0x01, 0xAA, 0x10, 0xFF, 0xAA, 0x02]) == Result([[0x10]], [0xAA, 0x02])
  {
    hide Process;
    var noise: seq<seq<Byte>>, frames: seq<seq<Byte>>, rest: seq<Byte> := [[0x01], []], [[0x10]], [0xAA, 0x02];
    assert noise[1..] == [[]] && frames[1..] == [];
    PartitionIsDelivered([0x01, 0xAA, 0x10, 0xFF, 0xAA, 0x02], noise, frames, rest);
  }
}
