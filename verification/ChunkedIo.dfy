/** The stream loops of the chunked coding in thirdpart/include/http/httplib.h:
    stream_line_reader, read_content_with_length, read_content_chunked, write_data and
    write_content_chunked with the identity compressor. */
module ChunkedIo {
  import opened Basics
  import opened ChunkedCodec

  /** A readable stream: `rest` arrives in pieces of any size, then reads return an error or 0. */
  class Stream {
    var rest: seq<Byte>
    const failing: bool

    constructor (data: seq<Byte>, failing: bool)
      ensures rest == data && this.failing == failing
    {
      rest, this.failing := data, failing;
    }

    method Read(len: nat) returns (n: int, bytes: seq<Byte>)
      requires len > 0
      modifies this
      ensures old(rest) == bytes + rest
      ensures old(rest) != [] ==> 1 <= n <= len && |bytes| == n
      ensures old(rest) == [] ==> bytes == [] && n == if failing then -1 else 0
    {
      if rest == [] {
        n, bytes := if failing then -1 else 0, [];
      } else {
        var most := if len < |rest| then len else |rest|;
        n :| 1 <= n <= most;
        bytes := rest[..n];
        rest := rest[n..];
      }
    }
  }

  /** stream_line_reader: a fixed buffer, spilling into a growable string. */
  class LineReader {
    const strm: Stream
    const fixedBuffer: array<Byte>
    var used: nat
    var growable: seq<Byte>

    ghost predicate Valid()
      reads this, fixedBuffer
    {
      && fixedBuffer.Length >= 2
      && used < fixedBuffer.Length
      && (used > 0 ==> fixedBuffer[used] == 0)
      && (growable != [] ==> used == fixedBuffer.Length - 1)
    }

    /** The bytes ptr() and size() describe. */
    function Line(): seq<Byte>
      requires used <= fixedBuffer.Length
      reads this, fixedBuffer
    {
      if growable == [] then fixedBuffer[..used] else growable
    }

    constructor (strm: Stream, fixedBuffer: array<Byte>)
      requires fixedBuffer.Length >= 2
      ensures Valid() && this.strm == strm && this.fixedBuffer == fixedBuffer && Line() == []
    {
      this.strm, this.fixedBuffer := strm, fixedBuffer;
      used, growable := 0, [];
    }

    method Append(c: Byte)
      requires Valid()
      modifies this, fixedBuffer
      ensures Valid() && Line() == old(Line()) + [c]
    {
      if used < fixedBuffer.Length - 1 {
        fixedBuffer[used] := c;
        used := used + 1;
        fixedBuffer[used] := 0;
      } else {
        if growable == [] {
          assert fixedBuffer[used] == 0;
          growable := fixedBuffer[..used];
        }
        growable := growable + [c];
      }
    }

    /** One line, read byte by byte: up to and including the first LF, or to the end. */
    method GetLine() returns (ok: bool)
      requires Valid()
      modifies this, fixedBuffer, strm
      ensures Valid()
      ensures ok == LineRead(old(strm.rest), strm.failing)
      ensures strm.rest == old(strm.rest)[LineEnd(old(strm.rest))..]
      ensures Line() == old(strm.rest)[..LineEnd(old(strm.rest))]
    {
      hide LineEnd, LineRead;
      ghost var s := strm.rest;
      used := 0;
      growable := [];
      var i := 0;
      while true
        invariant Valid() && 0 <= i <= |s|
        invariant Line() == s[..i] && strm.rest == s[i..]
        invariant forall k :: 0 <= k < i ==> s[k] != LF
        decreases |s| - i
      {
        var n, bytes := strm.Read(1);
        assert bytes == [] || bytes == [bytes[0]];
        if n <= 0 {
          assert i == |s| && s[..i] == s;
          LineAtEnd(s, strm.failing);
          return n == 0 && i > 0;
        }
        OneMore(s, i, bytes[0], strm.rest);
        Append(bytes[0]);
        i := i + 1;
        if bytes[0] == LF {
          break;
        }
      }
      LineAt(s, i, strm.failing);
      return true;
    }
  }

  lemma OneMore(s: seq<Byte>, i: nat, b: Byte, rest: seq<Byte>)
    requires i < |s| && s[i..] == [b] + rest
    ensures b == s[i] && s[..i] + [b] == s[..i + 1] && rest == s[i + 1..]
  {
    assert ([b] + rest)[0] == s[i..][0];
    assert ([b] + rest)[1..] == s[i..][1..];
  }

  lemma LineAt(s: seq<Byte>, i: nat, failing: bool)
    requires 0 < i <= |s| && s[i - 1] == LF
    requires forall k :: 0 <= k < i - 1 ==> s[k] != LF
    ensures LineEnd(s) == i && LineRead(s, failing)
  {
    FirstLine(s[..i - 1], s[i..]);
    assert s == s[..i - 1] + [LF] + s[i..];
  }

  lemma LineAtEnd(s: seq<Byte>, failing: bool)
    requires forall k :: 0 <= k < |s| ==> s[k] != LF
    ensures LineEnd(s) == |s| && LineRead(s, failing) == (s != [] && !failing)
  {
    NoLf(s);
    assert s[..|s|] == s;
  }


  /** Hands exactly `len` bytes to the receiver, or what there is when the stream ends first. The
      receiver, or the progress callback, may refuse after any piece; the body so far, with the
      piece refused, is then the first part of the stream. */
  method ReadContentWithLength(strm: Stream, len: nat) returns (ok: bool, body: seq<Byte>, refused: bool)
    modifies strm
    ensures !refused ==> ok == (len <= |old(strm.rest)|)
    ensures !refused ==> body == if ok then old(strm.rest)[..len] else old(strm.rest)
    ensures refused ==> !ok && 0 < |body| <= len
    ensures old(strm.rest) == body + strm.rest
  {
    ghost var s := strm.rest;
    body := [];
    refused := false;
    var r := 0;
    while r < len
      invariant r == |body| <= len && s == body + strm.rest && !refused
    {
      var want := len - r;
      var n, bytes := strm.Read(if want < 4096 then want else 4096);
      if n <= 0 {
        return false, body, false;
      }
      body := body + bytes;
      refused := *;
      if refused {
        return false, body, true;
      }
      r := r + n;
    }
    ok := true;
  }

  /** read_content_chunked computes `Read`, however the bytes arrive. When the receiver refuses a
      piece, the call fails and what it was handed is the first part of the same body. */
  method ReadContentChunked(strm: Stream) returns (ok: bool, body: seq<Byte>, refused: bool)
    modifies strm
    ensures !refused ==> Outcome(ok, body, strm.rest) == Read(old(strm.rest), strm.failing)
    ensures refused ==> !ok && body <= Read(old(strm.rest), strm.failing).body
  {
    hide StrToUl, LineRead, LineEnd, CString, ReadFrom;
    ghost var whole := Read(strm.rest, strm.failing);
    var buf := new Byte[16];
    var lines := new LineReader(strm, buf);
    body, refused := [], false;
    var got := lines.GetLine();
    if !got {
      return false, [], false;
    }
    assert Ahead([], ReadFrom(lines.Line(), strm.rest, strm.failing)) == whole;
    var chunkLen;
    while true
      invariant lines.Valid() && fresh(lines) && fresh(buf) && lines.strm == strm && lines.fixedBuffer == buf
      invariant !refused
      invariant Ahead(body, ReadFrom(lines.Line(), strm.rest, strm.failing)) == whole
      decreases |strm.rest|
    {
      SizeCases(body, lines.Line(), strm.rest, strm.failing);
      var (value, end) := StrToUl(CString(lines.Line()));
      chunkLen := value;
      if end == 0 || chunkLen == ULONG_MAX {
        return false, body, false;
      }
      if chunkLen == 0 {
        break;
      }
      ghost var line := lines.Line();
      if chunkLen <= |strm.rest| {
        DataCases(body, line, strm.rest, strm.failing);
      }
      var all, piece;
      all, piece, refused := ReadContentWithLength(strm, chunkLen);
      if refused {
        PieceIsPrefix(body, line, piece, strm.rest, strm.failing);
      }
      body := body + piece;
      if !all {
        return false, body, refused;
      }
      got := lines.GetLine();
      if !got {
        return false, body, false;
      }
      if CString(lines.Line()) != CRLF {
        break;
      }
      got := lines.GetLine();
      if !got {
        return false, body, false;
      }
    }
    if chunkLen == 0 {
      got := lines.GetLine();
      if !got || CString(lines.Line()) != CRLF {
        return false, body, false;
      }
    }
    ok := true;
  }

  /** An outcome with `body` delivered before it. */
  function Ahead(body: seq<Byte>, r: Outcome): Outcome {
    Outcome(r.ok, body + r.body, r.rest)
  }

  /** Part of a chunk's data is the first part of what the loop goes on to deliver. */
  lemma PieceIsPrefix(body: seq<Byte>, line: seq<Byte>, piece: seq<Byte>, rest: seq<Byte>, failing: bool)
    requires var (len, end) := StrToUl(CString(line)); end != 0 && 0 < |piece| <= len < ULONG_MAX
    ensures body + piece <= Ahead(body, ReadFrom(line, piece + rest, failing)).body
  {
    hide StrToUl, LineRead, LineEnd, CString;
    var s, len := piece + rest, StrToUl(CString(line)).0;
    if |s| >= len {
      assert piece <= s[..len] <= ReadFrom(line, s, failing).body;
    }
  }

  /** An iteration of the chunk loop that ends it at the size line or in the data, with `body`
      delivered so far. */
  lemma SizeCases(body: seq<Byte>, line: seq<Byte>, s: seq<Byte>, failing: bool)
    ensures var (len, end) := StrToUl(CString(line));
            var r := Ahead(body, ReadFrom(line, s, failing));
            if end == 0 || len == ULONG_MAX then r == Outcome(false, body, s)
            else if len == 0 then
              r == Outcome(LineRead(s, failing) && CString(s[..LineEnd(s)]) == CRLF, body, s[LineEnd(s)..])
            else |s| < len ==> r == Outcome(false, body + s, [])
  {
    hide StrToUl, LineRead, LineEnd, CString;
    assert body + [] == body;
  }

  /** An iteration that gets a whole chunk. */
  lemma DataCases(body: seq<Byte>, line: seq<Byte>, s: seq<Byte>, failing: bool)
    requires var (len, end) := StrToUl(CString(line)); end != 0 && 0 < len <= |s| && len < ULONG_MAX
    ensures var len := StrToUl(CString(line)).0;
            var r := Ahead(body, ReadFrom(line, s, failing));
            var s1 := s[len..];
            if !LineRead(s1, failing) then r == Outcome(false, body + s[..len], s1[LineEnd(s1)..])
            else if CString(s1[..LineEnd(s1)]) != CRLF then r == Outcome(true, body + s[..len], s1[LineEnd(s1)..])
            else
              var s2 := s1[LineEnd(s1)..];
              if !LineRead(s2, failing) then r == Outcome(false, body + s[..len], s2[LineEnd(s2)..])
              else r == Ahead(body + s[..len], ReadFrom(s2[..LineEnd(s2)], s2[LineEnd(s2)..], failing))
  {
    hide StrToUl, LineRead, LineEnd, CString;
    var len := StrToUl(CString(line)).0;
    var s1 := s[len..];
    var s2 := s1[LineEnd(s1)..];
    if LineRead(s1, failing) && CString(s1[..LineEnd(s1)]) == CRLF && LineRead(s2, failing) {
      var more := ReadFrom(s2[..LineEnd(s2)], s2[LineEnd(s2)..], failing);
      assert ReadFrom(line, s, failing) == Outcome(more.ok, s[..len] + more.body, more.rest);
      assert body + (s[..len] + more.body) == body + s[..len] + more.body;
    }
  }

  // ---------- The writer ----------

  /** A call the content provider makes on the sink. */
  datatype SinkCall = Write(d: seq<Byte>) | Done

  /** One invocation of the content provider: its sink calls, and what it returns. */
  datatype Round = Round(calls: seq<SinkCall>, proceed: bool)

  datatype Error = Success | Canceled | WriteFailed

  /** The sink: bytes written so far, bytes the peer will still take, and the captured flags. */
  datatype Sink = Sink(out: seq<Byte>, room: nat, offset: nat, available: bool, ok: bool)

  function Put(st: Sink, bytes: seq<Byte>): Sink {
    if |bytes| <= st.room
    then st.(out := st.out + bytes, room := st.room - |bytes|)
    else st.(out := st.out + bytes[..st.room], room := 0, ok := false)
  }

  function Call(st: Sink, call: SinkCall): Sink {
    if !st.ok then st else
      match call
      case Write(d) =>
        var st' := st.(available := d != [], offset := st.offset + |d|);
        if d == [] then st' else Put(st', Chunk(d))
      case Done => Put(st.(available := false), DONE_MARKER)
  }

  function CallAll(st: Sink, calls: seq<SinkCall>): Sink
    decreases |calls|
  {
    if calls == [] then st else CallAll(Call(st, calls[0]), calls[1..])
  }

  /** The provider loop; running out of rounds is the server shutting down. */
  function Drive(st: Sink, rounds: seq<Round>): (Error, Sink)
    decreases |rounds|
  {
    if !st.available || rounds == [] then (Success, st) else
      var st' := CallAll(st, rounds[0].calls);
      if !rounds[0].proceed then (Canceled, st')
      else if !st'.ok then (WriteFailed, st')
      else Drive(st', rounds[1..])
  }

  lemma TakeMore(out: seq<Byte>, bytes: seq<Byte>, offset: nat, length: nat)
    requires offset + length <= |bytes|
    ensures out + bytes[..offset] + bytes[offset..offset + length] == out + bytes[..offset + length]
  {
  }

  class ChunkedWriter {
    var st: Sink

    constructor (room: nat)
      ensures st == Sink([], room, 0, true, true)
    {
      st := Sink([], room, 0, true, true);
    }

    /** write_data: the peer takes the bytes piece by piece, after any finite number of writes that
        take none, or fails. */
    method WriteData(bytes: seq<Byte>) returns (ok: bool)
      modifies this
      ensures ok == (|bytes| <= old(st).room)
      ensures st == Put(old(st), bytes).(ok := old(st).ok)
    {
      ghost var start := st;
      var offset := 0;
      var idle: nat := *;
      assert start.out + bytes[..0] == start.out;
      while offset < |bytes|
        invariant offset <= |bytes| && offset <= start.room
        invariant st.room == start.room - offset && st.out == start.out + bytes[..offset]
        invariant st == start.(out := st.out, room := st.room)
        decreases |bytes| - offset, idle
      {
        if idle > 0 {
          idle := idle - 1;
          continue;
        }
        if st.room == 0 {
          return false;
        }
        var left := |bytes| - offset;
        var most := if left < st.room then left else st.room;
        var length :| 1 <= length <= most;
        TakeMore(start.out, bytes, offset, length);
        st := st.(out := st.out + bytes[offset..offset + length], room := st.room - length);
        offset := offset + length;
        idle := *;
      }
      assert bytes[..|bytes|] == bytes;
      ok := true;
    }

    method Write(d: seq<Byte>) returns (ok: bool)
      modifies this
      ensures st == Call(old(st), SinkCall.Write(d)) && ok == st.ok
    {
      hide HexOf;
      if st.ok {
        st := st.(available := |d| > 0, offset := st.offset + |d|);
        var payload := d;
        if payload != [] {
          var hex := FromIToHex(|payload|);
          var chunk := hex + CRLF + payload + CRLF;
          var written := WriteData(chunk);
          if !written {
            st := st.(ok := false);
          }
        }
      }
      ok := st.ok;
    }

    method Done()
      modifies this
      ensures st == Call(old(st), SinkCall.Done)
    {
      if st.ok {
        st := st.(available := false);
        var written := WriteData(DONE_MARKER);
        if !written {
          st := st.(ok := false);
        }
      }
    }

    method WriteContentChunked(rounds: seq<Round>) returns (error: Error)
      modifies this
      ensures (error, st) == Drive(old(st), rounds)
    {
      var i := 0;
      while st.available && i < |rounds|
        invariant 0 <= i <= |rounds|
        invariant Drive(st, rounds[i..]) == Drive(old(st), rounds)
      {
        ghost var left := rounds[i..];
        assert left[1..] == rounds[i + 1..];
        ghost var start := st;
        var calls := rounds[i].calls;
        for j := 0 to |calls|
          invariant CallAll(st, calls[j..]) == CallAll(start, calls)
        {
          assert calls[j..][1..] == calls[j + 1..];
          match calls[j] {
            case Write(d) => var _ := Write(d);
            case Done => Done();
          }
        }
        if !rounds[i].proceed {
          return Canceled;
        }
        if !st.ok {
          return WriteFailed;
        }
        i := i + 1;
      }
      error := Success;
    }
  }

  // ---------- What the sink has put out ----------

  function Fresh(room: nat): Sink {
    Sink([], room, 0, true, true)
  }

  /** The bytes of a call that does not fail. */
  function Bytes(call: SinkCall): seq<Byte> {
    match call
    case Write(d) => if d == [] then [] else Chunk(d)
    case Done => DONE_MARKER
  }

  function Emitted(calls: seq<SinkCall>): seq<Byte>
    decreases |calls|
  {
    if calls == [] then [] else Bytes(calls[0]) + Emitted(calls[1..])
  }

  lemma {:induction false} FailureSticks(st: Sink, calls: seq<SinkCall>)
    requires !st.ok
    ensures CallAll(st, calls) == st
    decreases |calls|
  {
    if calls != [] {
      FailureSticks(st, calls[1..]);
    }
  }

  lemma CallPuts(st: Sink, call: SinkCall)
    requires st.ok
    ensures var e := Call(st, call); var all := Bytes(call);
            && e.ok == (|all| <= st.room)
            && (e.ok ==> e.out == st.out + all && e.room == st.room - |all|)
            && (!e.ok ==> e.out == st.out + all[..st.room])
  {
    hide Chunk;
    assert st.out + [] == st.out;
  }

  /** All calls put out their bytes in order, cut off where the peer stops taking them. */
  lemma {:induction false} SinkOutput(st: Sink, calls: seq<SinkCall>)
    requires st.ok
    ensures var e := CallAll(st, calls); var all := Emitted(calls);
            && e.ok == (|all| <= st.room)
            && e.out == st.out + (if |all| <= st.room then all else all[..st.room])
            && (e.ok ==> e.room == st.room - |all|)
    decreases |calls|
  {
    hide Call, Bytes;
    if calls == [] {
      assert st.out + [] == st.out;
    } else {
      CallPuts(st, calls[0]);
      var next, here, later := Call(st, calls[0]), Bytes(calls[0]), Emitted(calls[1..]);
      if next.ok {
        SinkOutput(next, calls[1..]);
        assert st.out + here + later == st.out + (here + later);
        if |here + later| > st.room {
          assert (here + later)[..st.room] == here + later[..next.room];
          assert st.out + here + later[..next.room] == st.out + (here + later[..next.room]);
        }
      } else {
        FailureSticks(next, calls[1..]);
        assert (here + later)[..st.room] == here[..st.room];
      }
    }
  }

  predicate HasDone(calls: seq<SinkCall>) {
    SinkCall.Done in calls
  }

  /** The payloads written before the first done(), empty writes left out. */
  function Payloads(calls: seq<SinkCall>): seq<seq<Byte>>
    decreases |calls|
  {
    if calls == [] then [] else
      match calls[0]
      case Done => []
      case Write(d) => (if d == [] then [] else [d]) + Payloads(calls[1..])
  }

  lemma {:induction false} EmittedShape(calls: seq<SinkCall>) returns (tail: seq<Byte>)
    ensures Emitted(calls) == Chunks(Payloads(calls)) + if HasDone(calls) then DONE_MARKER + tail else []
    decreases |calls|
  {
    hide Chunk;
    tail := [];
    if calls != [] {
      if calls[0].Done? {
        tail := Emitted(calls[1..]);
      } else {
        tail := EmittedShape(calls[1..]);
        assert HasDone(calls) <==> HasDone(calls[1..]);
        var d, rest := calls[0].d, Payloads(calls[1..]);
        if d == [] {
          assert [] + rest == rest;
        } else {
          assert ([d] + rest)[1..] == rest;
        }
      }
    }
  }

  predicate Sizes(calls: seq<SinkCall>) {
    forall k :: 0 <= k < |calls| && calls[k].Write? ==> |calls[k].d| < ULONG_MAX
  }

  lemma {:induction false} PayloadsFit(calls: seq<SinkCall>)
    requires Sizes(calls)
    ensures forall k :: 0 <= k < |Payloads(calls)| ==> 0 < |Payloads(calls)[k]| < ULONG_MAX
    decreases |calls|
  {
    if calls != [] && calls[0].Write? {
      PayloadsFit(calls[1..]);
    }
  }

  lemma LfInside(writes: seq<seq<Byte>>, k: nat, n: nat)
    requires BeforeLf(writes, k, n)
    ensures n < |Chunks(writes)|
  {
    hide Chunk;
    ChunksSplit(writes, k);
  }

  /** A peer that takes `room` bytes cut the body off just before the final LF of some chunk. */
  ghost predicate CutBeforeLf(writes: seq<seq<Byte>>, room: nat) {
    exists k: nat :: BeforeLf(writes, k, room)
  }

  /** Exactly when what the sink has put out is read as a body, even if a write failed: done() was
      called and got out whole, or the output was cut off just before the final LF of a chunk and
      the stream then ends cleanly. The body is the writes before done(), or up to that chunk. */
  lemma ReadableIff(calls: seq<SinkCall>, room: nat, failing: bool)
    requires Sizes(calls)
    ensures var r := Read(CallAll(Fresh(room), calls).out, failing); var ps := Payloads(calls);
            && (r.ok <==> (HasDone(calls) && |Coding(ps)| <= room) || (!failing && CutBeforeLf(ps, room)))
            && (HasDone(calls) && |Coding(ps)| <= room ==> r.body == Flatten(ps))
            && (forall k: nat :: !failing && BeforeLf(ps, k, room) ==> r.body == Flatten(ps[..k]))
  {
    hide CallAll, Read, Chunks, Payloads, BeforeLf, Emitted;
    SinkOutput(Fresh(room), calls);
    PayloadsFit(calls);
    var tail := EmittedShape(calls);
    var ps, all := Payloads(calls), Emitted(calls);
    var out := if |all| <= room then all else all[..room];
    assert [] + out == out;
    forall k: nat, n: nat ensures BeforeLf(ps, k, n) ==> n < |Chunks(ps)| {
      if BeforeLf(ps, k, n) {
        LfInside(ps, k, n);
      }
    }
    if HasDone(calls) && |Coding(ps)| <= room {
      assert out == Coding(ps) + out[|Coding(ps)|..];
      RoundTrip(ps, out[|Coding(ps)|..], failing);
    } else {
      assert out == Coding(ps)[..|out|];
      TruncationAcceptedIff(ps, |out|, failing);
    }
  }

  /** For one: the chunk holding "A", without done(), cut off by a peer that takes five bytes; and the
      whole coding of "A". */
  lemma CutExample()
    ensures var st := CallAll(Fresh(5), [SinkCall.Write([0x41])]);
            && !st.ok && st.out == [0x31, 0x0D, 0x0A, 0x41, 0x0D] && Read(st.out, false) == Outcome(true, [0x41], [])
            && Coding([[0x41]]) == [0x31, 0x0D, 0x0A, 0x41, 0x0D, 0x0A, 0x30, 0x0D, 0x0A, 0x0D, 0x0A]
  {
    hide Read;
    var w: seq<Byte>, call := [0x41], SinkCall.Write([0x41]);
    assert [call][1..] == [] && [w][..1] == [w] && [w][1..] == [];
    assert HexOf(1) == [0x31] && Chunk(w) == [0x31, CR, LF, 0x41, CR, LF];
    assert Chunks([w]) == Chunk(w);
    assert BeforeLf([w], 1, 5);
    TruncationAcceptedIff([w], 5, false);
    assert Coding([w])[..5] == [0x31, CR, LF, 0x41, CR];
    assert Flatten([w]) == w + [];
  }

  // ---------- The provider loop as a list of calls ----------

  /** A call after which the loop condition is false. */
  predicate Ends(call: SinkCall) {
    call.Done? || call.d == []
  }

  /** A round after which the loop is left even if nothing fails. */
  predicate Stops(round: Round) {
    !round.proceed || (round.calls != [] && Ends(round.calls[|round.calls| - 1]))
  }

  /** The sink calls of the rounds the loop gets to when nothing fails. */
  function Made(rounds: seq<Round>): seq<SinkCall>
    decreases |rounds|
  {
    if rounds == [] then [] else rounds[0].calls + if Stops(rounds[0]) then [] else Made(rounds[1..])
  }

  /** No round the loop gets to cancels it. */
  predicate NoneCancels(rounds: seq<Round>)
    decreases |rounds|
  {
    rounds == [] || (rounds[0].proceed && (Stops(rounds[0]) || NoneCancels(rounds[1..])))
  }

  lemma {:induction false} CallAllConcat(st: Sink, a: seq<SinkCall>, b: seq<SinkCall>)
    ensures CallAll(st, a + b) == CallAll(CallAll(st, a), b)
    decreases |a|
  {
    hide Call;
    if a == [] {
      assert a + b == b;
    } else {
      assert (a + b)[1..] == a[1..] + b;
      CallAllConcat(Call(st, a[0]), a[1..], b);
    }
  }

  /** The last call decides whether the loop goes on. */
  lemma {:induction false} LastCallDecides(st: Sink, calls: seq<SinkCall>)
    requires st.ok && calls != [] && CallAll(st, calls).ok
    ensures CallAll(st, calls).available == !Ends(calls[|calls| - 1])
    decreases |calls|
  {
    hide Chunk;
    var next := Call(st, calls[0]);
    if |calls| > 1 {
      if next.ok {
        LastCallDecides(next, calls[1..]);
      } else {
        FailureSticks(next, calls[1..]);
      }
    }
  }

  /** The loop leaves the sink as the calls of `Made` do, whatever fails on the way. */
  lemma {:induction false} DriveIsCalls(st: Sink, rounds: seq<Round>)
    requires st.ok && st.available
    ensures var (error, e) := Drive(st, rounds);
            && e == CallAll(st, Made(rounds))
            && (error == Success ==> e.ok)
            && (NoneCancels(rounds) ==> error == if e.ok then Success else WriteFailed)
    decreases |rounds|
  {
    hide Call;
    if rounds != [] {
      var calls, rest := rounds[0].calls, rounds[1..];
      var st' := CallAll(st, calls);
      CallAllConcat(st, calls, if Stops(rounds[0]) then [] else Made(rest));
      if !st'.ok {
        FailureSticks(st', Made(rest));
      } else {
        if calls != [] {
          LastCallDecides(st, calls);
        }
        if st'.available && rounds[0].proceed {
          DriveIsCalls(st', rest);
        }
      }
    }
  }

  /** The provider loop against any peer: its output is readable exactly under the condition of
      ReadableIff on the calls of the rounds it gets to; and if it reports success, exactly when
      done() was among them. */
  lemma DriveReadableIff(rounds: seq<Round>, room: nat, failing: bool)
    requires Sizes(Made(rounds))
    ensures var (error, st) := Drive(Fresh(room), rounds);
            var r := Read(st.out, failing); var calls := Made(rounds); var ps := Payloads(calls);
            && (r.ok <==> (HasDone(calls) && |Coding(ps)| <= room) || (!failing && CutBeforeLf(ps, room)))
            && (error == Success ==> (r.ok <==> HasDone(calls)) && (r.ok ==> r.body == Flatten(ps)))
  {
    hide CallAll, Read, Chunks, Payloads, BeforeLf, Emitted, Made;
    DriveIsCalls(Fresh(room), rounds);
    var calls := Made(rounds);
    ReadableIff(calls, room, failing);
    SinkOutput(Fresh(room), calls);
    var ps := Payloads(calls);
    var tail := EmittedShape(calls);
    forall k: nat ensures BeforeLf(ps, k, room) ==> room < |Chunks(ps)| {
      if BeforeLf(ps, k, room) {
        LfInside(ps, k, room);
      }
    }
  }

  // ---------- How the provider loop ends ----------

  /** The sink calls of all rounds, in order. */
  function AllCalls(rounds: seq<Round>): seq<SinkCall>
    decreases |rounds|
  {
    if rounds == [] then [] else rounds[0].calls + AllCalls(rounds[1..])
  }

  lemma {:induction false} EmittedConcat(a: seq<SinkCall>, b: seq<SinkCall>)
    ensures Emitted(a + b) == Emitted(a) + Emitted(b)
    decreases |a|
  {
    hide Bytes;
    if a == [] {
      assert a + b == b;
    } else {
      assert (a + b)[1..] == a[1..] + b;
      EmittedConcat(a[1..], b);
    }
  }

  /** The loop gets to round `i`: no earlier round stops it, and all earlier writes fit. */
  predicate Reached(rounds: seq<Round>, i: nat, room: nat) {
    && i < |rounds| && (forall j :: 0 <= j < i ==> !Stops(rounds[j]))
    && |Emitted(AllCalls(rounds[..i]))| <= room
  }

  predicate CancelsAt(rounds: seq<Round>, i: nat, room: nat) {
    Reached(rounds, i, room) && !rounds[i].proceed
  }

  predicate FailsAt(rounds: seq<Round>, i: nat, room: nat) {
    Reached(rounds, i, room) && rounds[i].proceed && |Emitted(AllCalls(rounds[..i + 1]))| > room
  }

  lemma FirstRound(rounds: seq<Round>, room: nat)
    requires rounds != []
    ensures CancelsAt(rounds, 0, room) <==> !rounds[0].proceed
    ensures FailsAt(rounds, 0, room) <==> rounds[0].proceed && |Emitted(rounds[0].calls)| > room
  {
    assert rounds[..1][1..] == [] && rounds[0].calls + [] == rounds[0].calls;
  }

  lemma LaterRound(rounds: seq<Round>, i: nat, room: nat)
    requires rounds != [] && i > 0
    ensures var n := |Emitted(rounds[0].calls)|;
            && (Reached(rounds, i, room) <==> !Stops(rounds[0]) && n <= room && Reached(rounds[1..], i - 1, room - n))
            && (CancelsAt(rounds, i, room) <==> !Stops(rounds[0]) && n <= room && CancelsAt(rounds[1..], i - 1, room - n))
            && (FailsAt(rounds, i, room) <==> !Stops(rounds[0]) && n <= room && FailsAt(rounds[1..], i - 1, room - n))
  {
    hide Stops, Emitted;
    if i < |rounds| {
      var rest := rounds[1..];
      assert rounds[..i][1..] == rest[..i - 1] && rounds[..i + 1][1..] == rest[..i];
      EmittedConcat(rounds[0].calls, AllCalls(rest[..i - 1]));
      EmittedConcat(rounds[0].calls, AllCalls(rest[..i]));
      assert (forall j :: 0 <= j < i ==> !Stops(rounds[j])) <==> !Stops(rounds[0]) && (forall j :: 0 <= j < i - 1 ==> !Stops(rest[j])) by {
        assert forall j :: 0 <= j < i - 1 ==> rest[j] == rounds[j + 1];
        assert forall j :: 0 < j < i ==> rounds[j] == rest[j - 1];
      }
    }
  }

  ghost predicate Cancels(rounds: seq<Round>, room: nat) {
    exists i: nat :: CancelsAt(rounds, i, room)
  }

  ghost predicate Fails(rounds: seq<Round>, room: nat) {
    exists i: nat :: FailsAt(rounds, i, room)
  }

  lemma NoRounds(room: nat)
    ensures !Cancels([], room) && !Fails([], room)
  {
  }

  lemma RoundByRound(rounds: seq<Round>, room: nat)
    requires rounds != []
    ensures var n := |Emitted(rounds[0].calls)|; var go := !Stops(rounds[0]) && n <= room;
            && (Cancels(rounds, room) <==> !rounds[0].proceed || (go && Cancels(rounds[1..], room - n)))
            && (Fails(rounds, room) <==> (rounds[0].proceed && n > room) || (go && Fails(rounds[1..], room - n)))
  {
    hide CancelsAt, FailsAt, Emitted, Stops;
    var n := |Emitted(rounds[0].calls)|;
    FirstRound(rounds, room);
    if i: nat :| CancelsAt(rounds, i, room) && i > 0 {
      LaterRound(rounds, i, room);
    }
    if i: nat :| FailsAt(rounds, i, room) && i > 0 {
      LaterRound(rounds, i, room);
    }
    if !Stops(rounds[0]) && n <= room {
      var rest, left: nat := rounds[1..], room - n;
      if i: nat :| CancelsAt(rest, i, left) {
        LaterRound(rounds, i + 1, room);
        assert CancelsAt(rounds, i + 1, room);
      }
      if i: nat :| FailsAt(rest, i, left) {
        LaterRound(rounds, i + 1, room);
        assert FailsAt(rounds, i + 1, room);
      }
    }
  }

  /** The loop is cancelled exactly when a round it gets to returns false, fails exactly when one that
      returns true did not get its bytes out, and succeeds otherwise. */
  lemma {:induction false} DriveErrorIff(st: Sink, rounds: seq<Round>)
    requires st.ok && st.available
    ensures var error := Drive(st, rounds).0;
            && (error == Canceled <==> exists i: nat :: CancelsAt(rounds, i, st.room))
            && (error == WriteFailed <==> exists i: nat :: FailsAt(rounds, i, st.room))
    decreases |rounds|
  {
    hide CallAll, Emitted, CancelsAt, FailsAt;
    if rounds == [] {
      NoRounds(st.room);
      assert !Cancels(rounds, st.room) && !Fails(rounds, st.room);
    } else {
      var st' := CallAll(st, rounds[0].calls);
      SinkOutput(st, rounds[0].calls);
      StopsAfter(st, rounds[0]);
      RoundByRound(rounds, st.room);
      assert rounds[0].proceed || Stops(rounds[0]);
      if st'.ok && st'.available && rounds[0].proceed {
        DriveErrorIff(st', rounds[1..]);
        assert Cancels(rounds[1..], st'.room) <==> Drive(st', rounds[1..]).0 == Canceled;
      }
      assert Cancels(rounds, st.room) <==> Drive(st, rounds).0 == Canceled;
      assert Fails(rounds, st.room) <==> Drive(st, rounds).0 == WriteFailed;
    }
  }

  /** After a round that went through, the loop condition holds exactly if the round does not stop. */
  lemma StopsAfter(st: Sink, round: Round)
    requires st.ok && st.available
    ensures var e := CallAll(st, round.calls); e.ok && round.proceed ==> (e.available <==> !Stops(round))
  {
    if round.calls != [] && CallAll(st, round.calls).ok {
      LastCallDecides(st, round.calls);
    }
  }

  /** The payload bytes of all write calls. */
  function Total(calls: seq<SinkCall>): nat
    decreases |calls|
  {
    if calls == [] then 0 else (if calls[0].Write? then |calls[0].d| else 0) + Total(calls[1..])
  }

  lemma {:induction false} OffsetIsTotal(st: Sink, calls: seq<SinkCall>)
    requires st.ok && CallAll(st, calls).ok
    ensures CallAll(st, calls).offset == st.offset + Total(calls)
    decreases |calls|
  {
    hide Chunk;
    if calls != [] {
      var next := Call(st, calls[0]);
      if !next.ok {
        FailureSticks(next, calls[1..]);
      }
      OffsetIsTotal(next, calls[1..]);
    }
  }

  lemma {:induction false} GetsTo(st: Sink, rounds: seq<Round>, i: nat)
    requires st.ok && st.available && Reached(rounds, i, st.room)
    ensures var at := CallAll(st, AllCalls(rounds[..i]));
            at.ok && at.available && Drive(st, rounds) == Drive(at, rounds[i..])
    decreases i
  {
    hide Call, Emitted, Stops;
    if i == 0 {
      assert rounds[0..] == rounds;
    } else {
      var calls, rest := rounds[0].calls, rounds[1..];
      var next := CallAll(st, calls);
      LaterRound(rounds, i, st.room);
      SinkOutput(st, calls);
      StopsAfter(st, rounds[0]);
      assert rounds[0].proceed by { Proceeds(rounds[0]); }
      GetsTo(next, rest, i - 1);
      assert rounds[..i][1..] == rest[..i - 1] && rest[i - 1..] == rounds[i..];
      CallAllConcat(st, calls, AllCalls(rest[..i - 1]));
    }
  }

  lemma Proceeds(round: Round)
    requires !Stops(round)
    ensures round.proceed
  {
  }

  /** Every round the loop gets to is called with the sink still good, and with the offset equal to the
      number of payload bytes written before. */
  lemma ProviderOffset(rounds: seq<Round>, room: nat, i: nat)
    requires Reached(rounds, i, room)
    ensures var at := CallAll(Fresh(room), AllCalls(rounds[..i]));
            && at.ok && at.available && at.offset == Total(AllCalls(rounds[..i]))
            && Drive(Fresh(room), rounds) == Drive(at, rounds[i..])
  {
    hide CallAll, Drive, Emitted, Stops;
    GetsTo(Fresh(room), rounds, i);
    OffsetIsTotal(Fresh(room), AllCalls(rounds[..i]));
  }

  // ---------- End to end ----------

  function Writes(parts: seq<seq<Byte>>): (calls: seq<SinkCall>)
    ensures |calls| == |parts|
    ensures forall k :: 0 <= k < |parts| ==> calls[k] == SinkCall.Write(parts[k])
  {
    if parts == [] then [] else [SinkCall.Write(parts[0])] + Writes(parts[1..])
  }

  lemma {:induction false} EmittedWrites(parts: seq<seq<Byte>>, last: SinkCall)
    requires forall k :: 0 <= k < |parts| ==> parts[k] != []
    ensures Emitted(Writes(parts) + [last]) == Chunks(parts) + Bytes(last)
    decreases |parts|
  {
    hide Chunk;
    var calls := Writes(parts) + [last];
    if parts == [] {
      assert calls[1..] == [] && Emitted(calls) == Bytes(last) + [];
    } else {
      EmittedWrites(parts[1..], last);
      assert calls[1..] == Writes(parts[1..]) + [last];
    }
  }

  predicate AllProceed(rounds: seq<Round>) {
    forall k :: 0 <= k < |rounds| ==> rounds[k].proceed
  }

  /** Every call is made when only the last one ends the loop. */
  lemma {:induction false} AllMade(rounds: seq<Round>)
    requires AllProceed(rounds)
    requires forall k :: 0 <= k < |AllCalls(rounds)| - 1 ==> !Ends(AllCalls(rounds)[k])
    ensures Made(rounds) == AllCalls(rounds) && NoneCancels(rounds)
    decreases |rounds|
  {
    if rounds != [] {
      var calls, later := rounds[0].calls, AllCalls(rounds[1..]);
      assert AllCalls(rounds) == calls + later;
      assert forall k :: 0 <= k < |later| ==> later[k] == AllCalls(rounds)[|calls| + k];
      if Stops(rounds[0]) {
        assert Ends(AllCalls(rounds)[|calls| - 1]);
      } else {
        AllMade(rounds[1..]);
      }
    }
  }

  /** End to end: whatever rounds the provider spreads its non-empty writes and the final done()
      over, the loop succeeds and the reader gets back exactly the concatenation of the writes,
      stopping where the coding ends. */
  lemma WriteThenRead(rounds: seq<Round>, parts: seq<seq<Byte>>, room: nat, tail: seq<Byte>, failing: bool)
    requires AllCalls(rounds) == Writes(parts) + [SinkCall.Done]
    requires AllProceed(rounds)
    requires forall k :: 0 <= k < |parts| ==> 0 < |parts[k]| < ULONG_MAX
    requires |Coding(parts)| <= room
    ensures var (error, st) := Drive(Fresh(room), rounds);
            error == Success && Read(st.out + tail, failing) == Outcome(true, Flatten(parts), tail)
  {
    hide Call, Chunk, Read;
    AllMade(rounds);
    DriveIsCalls(Fresh(room), rounds);
    SinkOutput(Fresh(room), AllCalls(rounds));
    EmittedWrites(parts, SinkCall.Done);
    assert [] + Coding(parts) == Coding(parts);
    RoundTrip(parts, tail, failing);
  }

  lemma {:induction false} StopIsLast(first: seq<Round>, later: seq<Round>)
    requires first != [] && Stops(first[|first| - 1])
    ensures Made(first + later) == Made(first) && (NoneCancels(first + later) <==> NoneCancels(first))
    decreases |first|
  {
    assert (first + later)[1..] == first[1..] + later;
    if |first| > 1 {
      StopIsLast(first[1..], later);
    }
  }

  lemma {:induction false} AllCallsConcat(a: seq<Round>, b: Round)
    ensures AllCalls(a + [b]) == AllCalls(a) + b.calls
    decreases |a|
  {
    if a == [] {
      assert [b][1..] == [] && AllCalls([b]) == b.calls + AllCalls([]);
      assert a + [b] == [b];
    } else {
      assert (a + [b])[1..] == a[1..] + [b];
      AllCallsConcat(a[1..], b);
    }
  }

  /** An empty write that ends its round stops the loop: success is reported, no last chunk is
      written even if a later round would call done(), and the reader refuses the body. */
  lemma EmptyWriteTruncates(first: seq<Round>, calls: seq<SinkCall>, later: seq<Round>, parts: seq<seq<Byte>>, room: nat, failing: bool)
    requires AllCalls(first) + calls == Writes(parts) && AllProceed(first)
    requires forall k :: 0 <= k < |parts| ==> 0 < |parts[k]| < ULONG_MAX
    requires |Chunks(parts)| <= room
    ensures var (error, st) := Drive(Fresh(room), first + [Round(calls + [SinkCall.Write([])], true)] + later);
            error == Success && st.out == Chunks(parts) && !Read(st.out, failing).ok
  {
    hide Call, Chunk, Read;
    var last := Round(calls + [SinkCall.Write([])], true);
    var begun := first + [last];
    AllCallsConcat(first, last);
    assert AllCalls(begun) == Writes(parts) + [SinkCall.Write([])];
    AllMade(begun);
    StopIsLast(begun, later);
    DriveIsCalls(Fresh(room), begun + later);
    SinkOutput(Fresh(room), AllCalls(begun));
    EmittedWrites(parts, SinkCall.Write([]));
    assert [] + Chunks(parts) == Chunks(parts) == Chunks(parts) + [];
    TruncatedIsRefused(parts, failing);
  }
}
